/**
 * `save_file`: one extracted value becomes one line appended to two files of
 * the mode's directory, the document's own file and the mode-wide `_all`
 * file, after the directory has been created if it was missing.
 *
 * The directory tree under the target folder is a `Disk` value: the set of
 * existing directories and a map from path to file text.  A file that does not
 * exist reads as empty, which is what opening it in append mode starts from.
 */
module ExtractionSink {

  /** `os.path.join(dir, file)`, one level below the target folder. */
  datatype Path = Path(dir: string, file: string)

  datatype Disk = Disk(dirs: set<string>, files: map<Path, string>)

  /** `filename[:-4]`: drops the last four characters, `.xml` for a listed file. */
  function Stem(filename: string): (stem: string)
    ensures |filename| >= 4 ==> filename == stem + filename[|filename| - 4..]
    ensures |filename| < 4 ==> stem == ""
  {
    if |filename| >= 4 then filename[..|filename| - 4] else ""
  }

  /** `<mode>/<filename[:-4]>_<mode>.txt`: a file of the mode directory, named by the stem and the mode. */
  function PerDocPath(filename: string, mode: string): (p: Path)
    ensures p.dir == mode
    ensures |p.file| == |Stem(filename)| + |mode| + 5 && p.file[..|Stem(filename)|] == Stem(filename)
  {
    Path(mode, Stem(filename) + "_" + mode + ".txt")
  }

  /** `<mode>/<mode>_all.txt`: a file of the mode directory whose name starts with the mode. */
  function AllPath(mode: string): (p: Path)
    ensures p.dir == mode
    ensures |p.file| == |mode| + 8 && p.file[..|mode|] == mode
  {
    Path(mode, mode + "_all.txt")
  }

  /** The text of the file at `p`; a missing file reads as empty. */
  function Contents(d: Disk, p: Path): string {
    if p in d.files then d.files[p] else ""
  }

  /** Opening `p` in append mode and writing `text`: the file is created if missing. */
  function Appended(d: Disk, p: Path, text: string): Disk {
    d.(files := d.files[p := Contents(d, p) + text])
  }

  /** One line of an output file: the value followed by "\n". */
  function Line(extract: string): string {
    extract + "\n"
  }

  /**
   * The disk after one `save_file(folder, filename, extract, mode)` call: the
   * mode directory exists, the two files it writes exist, and no other file
   * is created.  What the two files hold is stated by `SaveAppendsOneLine`.
   */
  function Saved(d: Disk, filename: string, extract: string, mode: string): (d': Disk)
    ensures d'.dirs == d.dirs + {mode}
    ensures forall q :: q in d'.files <==> q in d.files || q == PerDocPath(filename, mode) || q == AllPath(mode)
  {
    var withDir := if mode in d.dirs then d else d.(dirs := d.dirs + {mode});
    Appended(Appended(withDir, PerDocPath(filename, mode), Line(extract)), AllPath(mode), Line(extract))
  }

  /** The disk after saving `extracts` one after the other, as the inner loop of each runner does. */
  function SavedAll(d: Disk, filename: string, extracts: seq<string>, mode: string): Disk
    decreases |extracts|
  {
    if extracts == [] then d
    else Saved(SavedAll(d, filename, extracts[..|extracts| - 1], mode), filename, extracts[|extracts| - 1], mode)
  }

  lemma SavedAllSnoc(d: Disk, filename: string, extracts: seq<string>, x: string, mode: string)
    ensures SavedAll(d, filename, extracts + [x], mode) == Saved(SavedAll(d, filename, extracts, mode), filename, x, mode)
  {
    assert (extracts + [x])[..|extracts|] == extracts;
  }

  /** The text of a file that holds `xs` one per line, each line ended by "\n". */
  function Lines(xs: seq<string>): string
    decreases |xs|
  {
    if xs == [] then "" else Lines(xs[..|xs| - 1]) + Line(xs[|xs| - 1])
  }

  // ---------------------------------------------------------------------------
  // Lemmas

  /** A listed file name `base.xml` gives `base` as the stem of its output file. */
  lemma StemOfXml(base: string)
    ensures Stem(base + ".xml") == base
  {
    assert (base + ".xml")[..|base|] == base;
  }

  /**
   * The per-document file and the `_all` file are two different files as long
   * as the fourth character of the mode name is not '_', which holds of all
   * three mode names.
   */
  lemma PerDocIsNotAll(filename: string, mode: string)
    requires |mode| >= 4 && mode[3] != '_'
    ensures PerDocPath(filename, mode) != AllPath(mode)
  {
    var perDoc, all := PerDocPath(filename, mode).file, AllPath(mode).file;
    if |Stem(filename)| == 3 {
      assert perDoc[3] == '_' && all[3] == mode[3];
    } else {
      assert |perDoc| != |all|;
    }
  }

  /** Documents with different stems write to different per-document files. */
  lemma PerDocPathInjective(filename1: string, filename2: string, mode: string)
    requires Stem(filename1) != Stem(filename2)
    ensures PerDocPath(filename1, mode) != PerDocPath(filename2, mode)
  {
    var stem1, stem2 := Stem(filename1), Stem(filename2);
    var f1, f2 := PerDocPath(filename1, mode).file, PerDocPath(filename2, mode).file;
    if |stem1| != |stem2| {
      assert |f1| != |f2|;
    } else {
      assert f1[..|stem1|] != f2[..|stem1|];
    }
  }

  /**
   * One `save_file` call: the mode directory exists afterwards and was added
   * only if missing; the line `extract + "\n"` is appended to the per-document
   * file and to the `_all` file, whose earlier text is kept; both files exist
   * afterwards; no other file changes.
   */
  lemma SaveAppendsOneLine(d: Disk, filename: string, extract: string, mode: string, p: Path)
    requires PerDocPath(filename, mode) != AllPath(mode)
    ensures var d' := Saved(d, filename, extract, mode);
      && d'.dirs == d.dirs + {mode}
      && (mode in d.dirs ==> d'.dirs == d.dirs)
      && PerDocPath(filename, mode) in d'.files && AllPath(mode) in d'.files
      && (p == PerDocPath(filename, mode) || p == AllPath(mode) ==> Contents(d', p) == Contents(d, p) + Line(extract))
      && (p != PerDocPath(filename, mode) && p != AllPath(mode) ==>
            Contents(d', p) == Contents(d, p) && (p in d'.files <==> p in d.files))
  {
  }

  /** Lines of a concatenation are the concatenation of the lines. */
  lemma {:induction false} LinesAppend(a: seq<string>, b: seq<string>)
    ensures Lines(a + b) == Lines(a) + Lines(b)
    decreases |b|
  {
    if b != [] {
      var init := b[..|b| - 1];
      assert (a + b)[..|a + b| - 1] == a + init;
      LinesAppend(a, init);
    } else {
      assert a + b == a;
    }
  }

  /** `(a + b) + c == a + (b + c)`, stated once so that proofs about appended text can cite it. */
  lemma AppendAssoc(a: string, b: string, c: string)
    ensures (a + b) + c == a + (b + c)
  {
  }

  /**
   * Saving a document's values one after the other appends them, one per
   * line and in order, to the per-document file and to the `_all` file, and
   * to no other file.
   */
  lemma {:induction false} SavedAllAppendsLines(d: Disk, filename: string, extracts: seq<string>, mode: string, p: Path)
    requires PerDocPath(filename, mode) != AllPath(mode)
    ensures Contents(SavedAll(d, filename, extracts, mode), p) == Contents(d, p) +
      (if p == PerDocPath(filename, mode) || p == AllPath(mode) then Lines(extracts) else "")
    decreases |extracts|
  {
    var touched := p == PerDocPath(filename, mode) || p == AllPath(mode);
    if extracts == [] {
      assert Contents(d, p) + "" == Contents(d, p);
    } else {
      var init, last := extracts[..|extracts| - 1], extracts[|extracts| - 1];
      SavedAllAppendsLines(d, filename, init, mode, p);
      SaveAppendsOneLine(SavedAll(d, filename, init, mode), filename, last, mode, p);
      if touched {
        AppendAssoc(Contents(d, p), Lines(init), Line(last));
      } else {
        assert Contents(d, p) + "" == Contents(d, p);
      }
    }
  }

  /** Saving creates no file outside the two, and the mode directory exists once a value was saved. */
  lemma {:induction false} SavedAllFrame(d: Disk, filename: string, extracts: seq<string>, mode: string, p: Path)
    requires PerDocPath(filename, mode) != AllPath(mode)
    ensures SavedAll(d, filename, extracts, mode).dirs == (if extracts == [] then d.dirs else d.dirs + {mode})
    ensures p != PerDocPath(filename, mode) && p != AllPath(mode) ==>
      (p in SavedAll(d, filename, extracts, mode).files <==> p in d.files)
    decreases |extracts|
  {
    if extracts != [] {
      var init := extracts[..|extracts| - 1];
      SavedAllFrame(d, filename, init, mode, p);
      SaveAppendsOneLine(SavedAll(d, filename, init, mode), filename, extracts[|extracts| - 1], mode, p);
    }
  }

  /**
   * The file system under the target folder.  `SaveFile` is `save_file`:
   * `os.path.exists`/`os.makedirs` on the mode directory, then two
   * open-append-close writes of the same line.
   */
  class FileSystem {
    var dirs: set<string>
    var files: map<Path, string>

    function Snapshot(): Disk
      reads this
    {
      Disk(dirs, files)
    }

    constructor (disk: Disk)
      ensures Snapshot() == disk
    {
      dirs := disk.dirs;
      files := disk.files;
    }

    /** `open(path, "ab").write(text)` */
    method Append(path: Path, text: string)
      modifies this
      ensures Snapshot() == Appended(old(Snapshot()), path, text)
    {
      files := files[path := Contents(Snapshot(), path) + text];
    }

    method SaveFile(filename: string, extract: string, mode: string)
      modifies this
      ensures Snapshot() == Saved(old(Snapshot()), filename, extract, mode)
    {
      if mode !in dirs {
        dirs := dirs + {mode};
      }
      Append(PerDocPath(filename, mode), Line(extract));
      Append(AllPath(mode), Line(extract));
    }
  }
}
