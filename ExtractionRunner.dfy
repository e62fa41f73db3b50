/**
 * The three runners `extract_identifiers`, `extract_identifier_links` and
 * `extract_links`.  Each walks the `.xml` files of the target folder, scans
 * each document, stops the whole run at the first document without a match,
 * and otherwise saves every value of the document through `save_file` under
 * the mode's directory.  The three share one loop here, parameterised by the
 * mode: which pattern is scanned, whether a link is derived from each
 * identifier, the directory name, and the listing order (sorted only for
 * identifiers).
 */
module ExtractionRunner {
  import opened PatternMatcher
  import opened LinkDeriver
  import opened ExtractionSink

  datatype Mode = Identifiers | IdentifierLinks | Links

  /** The directory and file-name part of the mode (`type_extract`). */
  function ModeName(mode: Mode): string {
    match mode
    case Identifiers => "identifiers"
    case IdentifierLinks => "identifier_links"
    case Links => "links"
  }

  /** The pattern each mode scans for. */
  function PatternOf(mode: Mode): Pattern {
    if mode == Links then LINK_PATTERN else IDENTIFIER_PATTERN
  }

  /** The shape of the values a mode saves: identifiers, or links. */
  function ValuePattern(mode: Mode): Pattern {
    if mode == Identifiers then IDENTIFIER_PATTERN else LINK_PATTERN
  }

  /** An `.xml` file of the target folder: its name as listed and its decoded text. */
  datatype Document = Document(name: string, content: string)

  /** How a run ends: every document processed, or the first document without a match. */
  datatype Outcome = Ok | NoMatch(index: nat, name: string)

  /** The value saved for one match: the match itself, or the link derived from it. */
  function ValueOf(derive: bool, found: string): string {
    if derive then DeriveLink(found) else found
  }

  /** The values saved for the matches `found` in one document, in the order found. */
  function Values(derive: bool, found: seq<string>): (r: seq<string>)
    ensures |r| == |found|
  {
    seq(|found|, k requires 0 <= k < |found| => ValueOf(derive, found[k]))
  }

  /**
   * The values a mode saves for one document: the identifiers found, the
   * links derived from them, or the links found.
   */
  function Extract(mode: Mode, text: string): (r: seq<string>)
    ensures |r| == |Scan(PatternOf(mode), text)|
  {
    Values(mode == IdentifierLinks, Scan(PatternOf(mode), text))
  }

  /**
   * Each saved value has the shape of its mode: an identifier, or a link; in
   * identifier-links mode it is the link derived from the identifier found at
   * the same place, and in the other modes it is the match itself.
   */
  lemma ExtractedValue(mode: Mode, text: string, k: nat)
    requires k < |Extract(mode, text)|
    ensures WellFormed(ValuePattern(mode), Extract(mode, text)[k])
    ensures mode == IdentifierLinks ==> IdentifierOf(Extract(mode, text)[k]) == Some(Scan(IDENTIFIER_PATTERN, text)[k])
    ensures mode != IdentifierLinks ==> Extract(mode, text)[k] == Scan(PatternOf(mode), text)[k]
  {
    var found := Scan(PatternOf(mode), text);
    if mode == IdentifierLinks {
      DerivedLinkIsScanned(found[k]);
    }
  }

  // ---------------------------------------------------------------------------
  // Listing order: `sorted(glob.glob("*.xml"))` in identifiers mode.

  /**
   * Lexicographic order by character code, said without recursion: `a` is a
   * prefix of `b`, or at the first position where they differ the character
   * of `a` is the smaller.
   */
  predicate LexLe(a: string, b: string) {
    (|a| <= |b| && a == b[..|a|]) ||
    exists k | 0 <= k < |a| && k < |b| :: a[..k] == b[..k] && a[k] < b[k]
  }

  /** Python's `<=` on names, compared one character at a time. */
  predicate NameLe(a: string, b: string)
    ensures NameLe(a, b) <==> LexLe(a, b)
    decreases |a|
  {
    if a == [] then true
    else if b == [] then false
    else
      LexLeStep(a, b);
      a[0] < b[0] || (a[0] == b[0] && NameLe(a[1..], b[1..]))
  }

  /** How `LexLe` of two non-empty names depends on their first characters. */
  lemma LexLeStep(a: string, b: string)
    requires a != [] && b != []
    ensures LexLe(a, b) <==> a[0] < b[0] || (a[0] == b[0] && LexLe(a[1..], b[1..]))
  {
    if LexLe(a, b) {
      LexLeHead(a, b);
    }
    if a[0] == b[0] && LexLe(a[1..], b[1..]) {
      LexLeCons(a, b);
    }
    if a[0] < b[0] {
      assert a[..0] == b[..0];
    }
  }

  lemma LexLeHead(a: string, b: string)
    requires a != [] && b != [] && LexLe(a, b)
    ensures a[0] < b[0] || (a[0] == b[0] && LexLe(a[1..], b[1..]))
  {
    if |a| <= |b| && a == b[..|a|] {
      assert a[0] == b[0] && a[1..] == b[1..][..|a| - 1];
    } else {
      var k :| 0 <= k < |a| && k < |b| && a[..k] == b[..k] && a[k] < b[k];
      if k > 0 {
        assert a[0] == a[..k][0] == b[..k][0] == b[0];
        assert a[1..][..k - 1] == a[..k][1..] && b[1..][..k - 1] == b[..k][1..];
        assert a[1..][k - 1] < b[1..][k - 1];
      }
    }
  }

  lemma LexLeCons(a: string, b: string)
    requires a != [] && b != [] && a[0] == b[0] && LexLe(a[1..], b[1..])
    ensures LexLe(a, b)
  {
    var a', b' := a[1..], b[1..];
    assert a == [a[0]] + a' && b == [b[0]] + b';
    if |a'| <= |b'| && a' == b'[..|a'|] {
      assert a == b[..|a|];
    } else {
      var k :| 0 <= k < |a'| && k < |b'| && a'[..k] == b'[..k] && a'[k] < b'[k];
      assert a[..k + 1] == [a[0]] + a'[..k] && b[..k + 1] == [b[0]] + b'[..k];
      assert a[k + 1] < b[k + 1];
    }
  }

  lemma {:induction false} NameLeTotal(a: string, b: string)
    ensures NameLe(a, b) || NameLe(b, a)
    decreases |a|
  {
    if a != [] && b != [] && a[0] == b[0] {
      NameLeTotal(a[1..], b[1..]);
    }
  }

  predicate SortedByName(docs: seq<Document>) {
    forall k | 0 < k < |docs| :: NameLe(docs[k - 1].name, docs[k].name)
  }

  function InsertByName(x: Document, docs: seq<Document>): (r: seq<Document>)
    requires SortedByName(docs)
    ensures SortedByName(r) && multiset(r) == multiset(docs) + multiset{x}
    ensures |r| == |docs| + 1 && (r[0] == x || (docs != [] && r[0] == docs[0]))
  {
    if docs == [] || NameLe(x.name, docs[0].name) then
      [x] + docs
    else
      var rest := InsertByName(x, docs[1..]);
      NameLeTotal(x.name, docs[0].name);
      assert docs == [docs[0]] + docs[1..];
      ConsSorted(docs[0], rest);
      [docs[0]] + rest
  }

  lemma ConsSorted(x: Document, docs: seq<Document>)
    requires SortedByName(docs) && (docs != [] ==> NameLe(x.name, docs[0].name))
    ensures SortedByName([x] + docs)
  {
    var r := [x] + docs;
    forall k | 0 < k < |r|
      ensures NameLe(r[k - 1].name, r[k].name)
    {
      if k > 1 {
        assert r[k - 1] == docs[k - 2] && r[k] == docs[k - 1];
      }
    }
  }

  /** The sorted listing: ordered by name, and a permutation of the listing. */
  function SortByName(docs: seq<Document>): (r: seq<Document>)
    ensures SortedByName(r) && multiset(r) == multiset(docs)
  {
    if docs == [] then []
    else
      assert docs == [docs[0]] + docs[1..];
      InsertByName(docs[0], SortByName(docs[1..]))
  }

  /** The order in which a mode visits the listing. */
  function ProcessingOrder(mode: Mode, listing: seq<Document>): (docs: seq<Document>)
    ensures multiset(docs) == multiset(listing) && |docs| == |listing|
    ensures mode == Identifiers ==> SortedByName(docs)
    ensures mode != Identifiers ==> docs == listing
  {
    assert |multiset(SortByName(listing))| == |SortByName(listing)|;
    if mode == Identifiers then SortByName(listing) else listing
  }

  // ---------------------------------------------------------------------------
  // What a run does, as functions of the disk before it.

  /** The index of the first document without a match, or the number of documents if there is none. */
  function FirstNoMatch(mode: Mode, docs: seq<Document>): (k: nat)
    ensures k <= |docs|
    ensures forall j | 0 <= j < k :: Extract(mode, docs[j].content) != []
    ensures k < |docs| ==> Extract(mode, docs[k].content) == []
  {
    if docs == [] || Extract(mode, docs[0].content) == [] then 0
    else 1 + FirstNoMatch(mode, docs[1..])
  }

  /** The disk after every value of every document in `docs` was saved, in order. */
  function Processed(d: Disk, mode: Mode, docs: seq<Document>): Disk
    decreases |docs|
  {
    if docs == [] then d
    else
      var last := docs[|docs| - 1];
      SavedAll(Processed(d, mode, docs[..|docs| - 1]), last.name, Extract(mode, last.content), ModeName(mode))
  }

  /** A run over documents in the order given. */
  function RunInOrder(d: Disk, mode: Mode, docs: seq<Document>): (Outcome, Disk) {
    var k := FirstNoMatch(mode, docs);
    if k < |docs| then (NoMatch(k, docs[k].name), Processed(d, mode, docs[..k]))
    else (Ok, Processed(d, mode, docs))
  }

  /**
   * A run of `mode` over the listing of the target folder.  It ends `Ok`
   * exactly when every listed document has a match, and otherwise names a
   * listed document without one.
   */
  function RunSpec(d: Disk, mode: Mode, listing: seq<Document>): (r: (Outcome, Disk))
    ensures r.0 == Ok <==> forall x | x in listing :: Extract(mode, x.content) != []
    ensures r.0.NoMatch? ==>
      r.0.index < |listing| && exists x | x in listing :: x.name == r.0.name && Extract(mode, x.content) == []
  {
    EveryDocumentMatches(mode, ProcessingOrder(mode, listing), listing);
    RunInOrder(d, mode, ProcessingOrder(mode, listing))
  }

  /** Reordering the listing changes neither whether every document has a match nor which documents lack one. */
  lemma EveryDocumentMatches(mode: Mode, docs: seq<Document>, listing: seq<Document>)
    requires multiset(docs) == multiset(listing)
    ensures FirstNoMatch(mode, docs) == |docs| <==> forall x | x in listing :: Extract(mode, x.content) != []
    ensures FirstNoMatch(mode, docs) < |docs| ==> docs[FirstNoMatch(mode, docs)] in listing
  {
    var k := FirstNoMatch(mode, docs);
    if k == |docs| {
      forall x | x in listing
        ensures Extract(mode, x.content) != []
      {
        assert x in multiset(docs);
        var i :| 0 <= i < |docs| && docs[i] == x;
      }
    } else {
      assert docs[k] in multiset(listing);
    }
  }

  /** Every value of `docs`, in processing order. */
  function AllResults(mode: Mode, docs: seq<Document>): seq<string>
    decreases |docs|
  {
    if docs == [] then []
    else AllResults(mode, docs[..|docs| - 1]) + Extract(mode, docs[|docs| - 1].content)
  }

  /** The text that saving every value of `docs` appends to the file at `p`, whatever it held before. */
  function AppendedText(mode: Mode, docs: seq<Document>, p: Path): string
    decreases |docs|
  {
    if docs == [] then ""
    else
      var last := docs[|docs| - 1];
      var touched := p == PerDocPath(last.name, ModeName(mode)) || p == AllPath(ModeName(mode));
      AppendedText(mode, docs[..|docs| - 1], p) + (if touched then Lines(Extract(mode, last.content)) else "")
  }

  /** What a run appends to the file at `p`: the text of the documents before the first without a match. */
  function RunAppends(mode: Mode, listing: seq<Document>, p: Path): string {
    var docs := ProcessingOrder(mode, listing);
    AppendedText(mode, docs[..FirstNoMatch(mode, docs)], p)
  }

  /** Listed names give distinct `filename[:-4]` stems, as distinct `*.xml` names do. */
  predicate DistinctStems(docs: seq<Document>) {
    forall a, b | 0 <= a < b < |docs| :: Stem(docs[a].name) != Stem(docs[b].name)
  }

  /** A name `glob.glob("*.xml")` lists: it ends in ".xml". */
  predicate XmlName(name: string) {
    |name| >= 4 && name[|name| - 4..] == ".xml"
  }

  /** No two positions of the listing hold the same name, as in a directory. */
  predicate DistinctNames(docs: seq<Document>) {
    forall a, b | 0 <= a < b < |docs| :: docs[a].name != docs[b].name
  }

  /** Distinct names that all end in ".xml", as `glob.glob("*.xml")` lists them, have distinct stems. */
  lemma XmlNamesHaveDistinctStems(docs: seq<Document>)
    requires forall k | 0 <= k < |docs| :: XmlName(docs[k].name)
    requires DistinctNames(docs)
    ensures DistinctStems(docs)
  {
    forall a, b | 0 <= a < b < |docs|
      ensures Stem(docs[a].name) != Stem(docs[b].name)
    {
      var x, y := docs[a].name, docs[b].name;
      assert x == Stem(x) + ".xml" && y == Stem(y) + ".xml";
    }
  }

  /** A listing of distinct `*.xml` names keeps distinct stems in every processing order. */
  lemma ProcessingOrderDistinctStems(mode: Mode, listing: seq<Document>)
    requires forall k | 0 <= k < |listing| :: XmlName(listing[k].name)
    requires DistinctNames(listing)
    ensures DistinctStems(ProcessingOrder(mode, listing))
  {
    var docs := ProcessingOrder(mode, listing);
    PermutationKeepsDistinctNames(docs, listing);
    forall k | 0 <= k < |docs|
      ensures XmlName(docs[k].name)
    {
      assert docs[k] in multiset(listing);
      var i :| 0 <= i < |listing| && listing[i] == docs[k];
    }
    XmlNamesHaveDistinctStems(docs);
  }

  /** A permutation of a listing with distinct names has distinct names. */
  lemma PermutationKeepsDistinctNames(docs: seq<Document>, listing: seq<Document>)
    requires multiset(docs) == multiset(listing) && DistinctNames(listing)
    ensures DistinctNames(docs)
  {
    forall a, b | 0 <= a < b < |docs|
      ensures docs[a].name != docs[b].name
    {
      if docs[a] == docs[b] {
        RepeatedCountsTwice(docs, a, b);
        DistinctNamesOnce(listing, docs[a]);
        assert false;
      } else {
        assert docs[a] in multiset(listing) && docs[b] in multiset(listing);
        var i :| 0 <= i < |listing| && listing[i] == docs[a];
        var j :| 0 <= j < |listing| && listing[j] == docs[b];
        assert i != j;
        if i < j {
          assert listing[i].name != listing[j].name;
        } else {
          assert listing[j].name != listing[i].name;
        }
      }
    }
  }

  lemma RepeatedCountsTwice(docs: seq<Document>, a: nat, b: nat)
    requires a < b < |docs| && docs[a] == docs[b]
    ensures multiset(docs)[docs[a]] >= 2
  {
    var x := docs[a];
    assert docs == docs[..b] + docs[b..];
    assert docs[..b][a] == x && docs[b..][0] == x;
    assert multiset(docs) == multiset(docs[..b]) + multiset(docs[b..]);
  }

  /** In a listing with distinct names each document occurs at most once. */
  lemma {:induction false} DistinctNamesOnce(listing: seq<Document>, x: Document)
    requires DistinctNames(listing)
    ensures multiset(listing)[x] <= 1
    decreases |listing|
  {
    if listing != [] {
      var init, last := listing[..|listing| - 1], listing[|listing| - 1];
      assert listing == init + [last];
      assert forall k | 0 <= k < |init| :: init[k] == listing[k];
      DistinctNamesOnce(init, x);
      if x == last {
        forall k | 0 <= k < |init|
          ensures init[k] != x
        {
          assert init[k].name != last.name;
        }
      }
    }
  }

  // ---------------------------------------------------------------------------
  // The runner itself.

  /**
   * A runner's inner loop: save each match, or the link derived from it, in
   * the order found, under the mode directory `dir`.
   */
  method SaveMatches(fs: FileSystem, filename: string, found: seq<string>, derive: bool, dir: string)
    modifies fs
    ensures fs.Snapshot() == SavedAll(old(fs.Snapshot()), filename, Values(derive, found), dir)
  {
    ghost var values := Values(derive, found);
    var j := 0;
    while j < |found|
      invariant 0 <= j <= |found|
      invariant fs.Snapshot() == SavedAll(old(fs.Snapshot()), filename, values[..j], dir)
    {
      var value := ValueOf(derive, found[j]);
      assert values[j] == value;
      TakeOneMore(values, j);
      SavedAllSnoc(old(fs.Snapshot()), filename, values[..j], value, dir);
      fs.SaveFile(filename, value, dir);
      j := j + 1;
    }
    assert values[..j] == values;
  }

  lemma TakeOneMore(xs: seq<string>, j: nat)
    requires j < |xs|
    ensures xs[..j + 1] == xs[..j] + [xs[j]]
  {
  }

  /**
   * One pass of a runner's outer loop: scan the document and, if anything
   * was found, save its values.  Reports whether anything was found.
   */
  method ProcessDocument(fs: FileSystem, mode: Mode, doc: Document) returns (matched: bool)
    modifies fs
    ensures matched <==> Extract(mode, doc.content) != []
    ensures fs.Snapshot() == SavedAll(old(fs.Snapshot()), doc.name, Extract(mode, doc.content), ModeName(mode))
  {
    var found := Scan(PatternOf(mode), doc.content);
    matched := found != [];
    SaveMatches(fs, doc.name, found, mode == IdentifierLinks, ModeName(mode));
  }

  /**
   * `extract_identifiers`, `extract_identifier_links` or `extract_links`,
   * selected by `mode`, over the documents the folder listing gives.
   */
  method Run(fs: FileSystem, mode: Mode, listing: seq<Document>) returns (outcome: Outcome)
    modifies fs
    ensures (outcome, fs.Snapshot()) == RunSpec(old(fs.Snapshot()), mode, listing)
  {
    var docs := ProcessingOrder(mode, listing);
    ghost var d0 := fs.Snapshot();
    var i := 0;
    while i < |docs|
      invariant 0 <= i <= |docs|
      invariant i <= FirstNoMatch(mode, docs)
      invariant fs.Snapshot() == Processed(d0, mode, docs[..i])
    {
      var matched := ProcessDocument(fs, mode, docs[i]);
      if !matched {
        FirstNoMatchAt(mode, docs, i);
        outcome := NoMatch(i, docs[i].name);
        return;
      }
      ProcessedStep(d0, mode, docs, i);
      i := i + 1;
    }
    assert docs[..i] == docs;
    outcome := Ok;
  }

  /** Saving one more document extends `Processed` by that document's values. */
  lemma ProcessedStep(d: Disk, mode: Mode, docs: seq<Document>, i: nat)
    requires i < |docs|
    ensures Processed(d, mode, docs[..i + 1]) ==
      SavedAll(Processed(d, mode, docs[..i]), docs[i].name, Extract(mode, docs[i].content), ModeName(mode))
  {
    assert docs[..i + 1][..i] == docs[..i];
  }

  /** Past the documents with a match, the first document without one is where the scan of matches stops. */
  lemma {:induction false} FirstNoMatchAt(mode: Mode, docs: seq<Document>, i: nat)
    requires i <= FirstNoMatch(mode, docs) && i < |docs|
    ensures Extract(mode, docs[i].content) == [] ==> FirstNoMatch(mode, docs) == i
    ensures Extract(mode, docs[i].content) != [] ==> i + 1 <= FirstNoMatch(mode, docs)
  {
  }

  // ---------------------------------------------------------------------------
  // Lemmas

  /** In every mode the per-document file and the `_all` file are two files. */
  lemma ModeFilesDiffer(mode: Mode, filename: string)
    ensures PerDocPath(filename, ModeName(mode)) != AllPath(ModeName(mode))
  {
    PerDocIsNotAll(filename, ModeName(mode));
  }

  /** Saving `docs` appends `AppendedText` to each file, and creates no file outside the two of each document. */
  lemma {:induction false} ProcessedAppends(d: Disk, mode: Mode, docs: seq<Document>, p: Path)
    ensures Contents(Processed(d, mode, docs), p) == Contents(d, p) + AppendedText(mode, docs, p)
    ensures p.dir != ModeName(mode) ==> (p in Processed(d, mode, docs).files <==> p in d.files)
    ensures p != AllPath(ModeName(mode)) && (forall j | 0 <= j < |docs| :: p != PerDocPath(docs[j].name, ModeName(mode))) ==>
      (p in Processed(d, mode, docs).files <==> p in d.files)
    ensures Processed(d, mode, docs).dirs == if AllResults(mode, docs) == [] then d.dirs else d.dirs + {ModeName(mode)}
    decreases |docs|
  {
    if docs == [] {
      assert Contents(d, p) + "" == Contents(d, p);
    } else {
      var init, last := docs[..|docs| - 1], docs[|docs| - 1];
      var before, found, dir := Processed(d, mode, init), Extract(mode, last.content), ModeName(mode);
      var touched := p == PerDocPath(last.name, dir) || p == AllPath(dir);
      assert forall j | 0 <= j < |init| :: init[j] == docs[j];
      ProcessedAppends(d, mode, init, p);
      ModeFilesDiffer(mode, last.name);
      assert Processed(d, mode, docs) == SavedAll(before, last.name, found, dir);
      SavedAllAppendsLines(before, last.name, found, dir, p);
      SavedAllFrame(before, last.name, found, dir, p);
      AppendedTextLast(mode, docs, p);
      AppendAssoc(Contents(d, p), AppendedText(mode, init, p), if touched then Lines(found) else "");
      assert AllResults(mode, docs) == AllResults(mode, init) + found;
    }
  }

  /** Nothing is appended outside the mode directory. */
  lemma {:induction false} AppendedOnlyUnderModeDir(mode: Mode, docs: seq<Document>, p: Path)
    requires p.dir != ModeName(mode)
    ensures AppendedText(mode, docs, p) == ""
    decreases |docs|
  {
    if docs != [] {
      AppendedOnlyUnderModeDir(mode, docs[..|docs| - 1], p);
    }
  }

  /** A file that is neither the `_all` file nor any document's own file receives nothing. */
  lemma {:induction false} AppendedUntouched(mode: Mode, docs: seq<Document>, p: Path)
    requires p != AllPath(ModeName(mode))
    requires forall j | 0 <= j < |docs| :: p != PerDocPath(docs[j].name, ModeName(mode))
    ensures AppendedText(mode, docs, p) == ""
    decreases |docs|
  {
    if docs != [] {
      AppendedUntouched(mode, docs[..|docs| - 1], p);
    }
  }

  /** The `_all` file receives every value of every document, one per line, in processing order. */
  lemma {:induction false} AppendedToAllFile(mode: Mode, docs: seq<Document>)
    ensures AppendedText(mode, docs, AllPath(ModeName(mode))) == Lines(AllResults(mode, docs))
    decreases |docs|
  {
    if docs != [] {
      var init, last := docs[..|docs| - 1], docs[|docs| - 1];
      AppendedToAllFile(mode, init);
      LinesAppend(AllResults(mode, init), Extract(mode, last.content));
    }
  }

  /** Each document's own file receives that document's values, one per line, in document order. */
  lemma {:induction false} AppendedToPerDocFile(mode: Mode, docs: seq<Document>, k: nat)
    requires DistinctStems(docs) && k < |docs|
    ensures AppendedText(mode, docs, PerDocPath(docs[k].name, ModeName(mode))) == Lines(Extract(mode, docs[k].content))
    decreases |docs|
  {
    var n := |docs| - 1;
    if k == n {
      AppendedToLastPerDocFile(mode, docs);
    } else {
      var init := docs[..n];
      assert init[k] == docs[k];
      DistinctStemsInit(docs);
      AppendedToPerDocFile(mode, init, k);
      LastSkipsEarlierPerDocFile(mode, docs, k);
    }
  }

  /** The last document's own file receives only that document's values. */
  lemma AppendedToLastPerDocFile(mode: Mode, docs: seq<Document>)
    requires DistinctStems(docs) && docs != []
    ensures var last := docs[|docs| - 1];
      AppendedText(mode, docs, PerDocPath(last.name, ModeName(mode))) == Lines(Extract(mode, last.content))
  {
    var n, dir := |docs| - 1, ModeName(mode);
    var init, p := docs[..n], PerDocPath(docs[n].name, dir);
    forall j | 0 <= j < |init| ensures p != PerDocPath(init[j].name, dir) {
      PerDocPathInjective(init[j].name, docs[n].name, dir);
    }
    ModeFilesDiffer(mode, docs[n].name);
    AppendedUntouched(mode, init, p);
    AppendedTextLast(mode, docs, p);
  }

  /** The last document appends nothing to an earlier document's own file. */
  lemma LastSkipsEarlierPerDocFile(mode: Mode, docs: seq<Document>, k: nat)
    requires DistinctStems(docs) && k < |docs| - 1
    ensures var p := PerDocPath(docs[k].name, ModeName(mode));
      AppendedText(mode, docs, p) == AppendedText(mode, docs[..|docs| - 1], p)
  {
    var n, dir := |docs| - 1, ModeName(mode);
    var p := PerDocPath(docs[k].name, dir);
    PerDocPathInjective(docs[k].name, docs[n].name, dir);
    ModeFilesDiffer(mode, docs[k].name);
    AppendedTextLast(mode, docs, p);
    assert AppendedText(mode, docs[..n], p) + "" == AppendedText(mode, docs[..n], p);
  }

  lemma DistinctStemsInit(docs: seq<Document>)
    requires DistinctStems(docs) && docs != []
    ensures DistinctStems(docs[..|docs| - 1])
  {
    var init := docs[..|docs| - 1];
    forall a, b | 0 <= a < b < |init|
      ensures Stem(init[a].name) != Stem(init[b].name)
    {
      assert init[a] == docs[a] && init[b] == docs[b];
    }
  }

  /** What the last document appends to the file at `p`. */
  lemma AppendedTextLast(mode: Mode, docs: seq<Document>, p: Path)
    requires docs != []
    ensures var last := docs[|docs| - 1];
      AppendedText(mode, docs, p) == AppendedText(mode, docs[..|docs| - 1], p) +
        (if p == PerDocPath(last.name, ModeName(mode)) || p == AllPath(ModeName(mode)) then Lines(Extract(mode, last.content)) else "")
  {
  }

  /**
   * Fail-fast: a run ends in `NoMatch` exactly when some document has no
   * match; it then names the first such document in processing order, and
   * the disk is what a successful run over only the documents before it
   * leaves: nothing is written for that document or any later one.
   */
  lemma RunStopsAtFirstEmptyDocument(d: Disk, mode: Mode, docs: seq<Document>)
    ensures RunInOrder(d, mode, docs).0.NoMatch? <==>
      exists j | 0 <= j < |docs| :: Extract(mode, docs[j].content) == []
    ensures var (outcome, d') := RunInOrder(d, mode, docs);
      outcome.NoMatch? ==>
        && outcome.index < |docs|
        && outcome.name == docs[outcome.index].name
        && Extract(mode, docs[outcome.index].content) == []
        && (forall j | 0 <= j < outcome.index :: Extract(mode, docs[j].content) != [])
        && RunInOrder(d, mode, docs[..outcome.index]) == (Ok, d')
  {
    var k := FirstNoMatch(mode, docs);
    if k < |docs| {
      var before := docs[..k];
      assert forall j | 0 <= j < |before| :: before[j] == docs[j];
      assert FirstNoMatch(mode, before) == k;
    }
  }

  /**
   * A run only appends: every file ends with what it held before, followed
   * by text that depends on the listing alone; nothing outside the mode
   * directory changes; the only directory a run can add is the mode's.
   */
  lemma RunAppendsOnly(d: Disk, mode: Mode, listing: seq<Document>, p: Path)
    ensures var d' := RunSpec(d, mode, listing).1;
      && Contents(d', p) == Contents(d, p) + RunAppends(mode, listing, p)
      && d.dirs <= d'.dirs <= d.dirs + {ModeName(mode)}
      && (p.dir != ModeName(mode) ==> Contents(d', p) == Contents(d, p) && (p in d'.files <==> p in d.files))
      && (p != AllPath(ModeName(mode)) && (forall x | x in listing :: p != PerDocPath(x.name, ModeName(mode))) ==>
            (p in d'.files <==> p in d.files))
  {
    var docs := ProcessingOrder(mode, listing);
    var k := FirstNoMatch(mode, docs);
    var done := docs[..k];
    assert k == |docs| ==> done == docs;
    forall j | 0 <= j < |done|
      ensures done[j] in listing
    {
      assert done[j] == docs[j] && docs[j] in multiset(docs);
    }
    ProcessedAppends(d, mode, done, p);
    if p.dir != ModeName(mode) {
      AppendedOnlyUnderModeDir(mode, done, p);
    }
  }

  /**
   * After a successful run each document's own file has gained exactly that
   * document's values, one per line in document order, and the `_all` file
   * has gained every document's values in processing order; the mode
   * directory exists if any document was listed.
   */
  lemma SuccessfulRunOutput(d: Disk, mode: Mode, listing: seq<Document>, k: nat)
    requires RunSpec(d, mode, listing).0 == Ok
    requires DistinctStems(ProcessingOrder(mode, listing)) && k < |listing|
    ensures var docs, d' := ProcessingOrder(mode, listing), RunSpec(d, mode, listing).1;
      && k < |docs|
      && Contents(d', PerDocPath(docs[k].name, ModeName(mode))) ==
           Contents(d, PerDocPath(docs[k].name, ModeName(mode))) + Lines(Extract(mode, docs[k].content))
      && Contents(d', AllPath(ModeName(mode))) ==
           Contents(d, AllPath(ModeName(mode))) + Lines(AllResults(mode, docs))
      && ModeName(mode) in d'.dirs
  {
    var docs := ProcessingOrder(mode, listing);
    assert |docs| == |multiset(docs)| == |multiset(listing)| == |listing|;
    assert FirstNoMatch(mode, docs) == |docs|;
    ProcessedAppends(d, mode, docs, PerDocPath(docs[k].name, ModeName(mode)));
    ProcessedAppends(d, mode, docs, AllPath(ModeName(mode)));
    AppendedToPerDocFile(mode, docs, k);
    AppendedToAllFile(mode, docs);
    AllResultsNonEmpty(mode, docs, k);
  }

  lemma {:induction false} AllResultsNonEmpty(mode: Mode, docs: seq<Document>, k: nat)
    requires k < |docs| && Extract(mode, docs[k].content) != []
    ensures AllResults(mode, docs) != []
    decreases |docs|
  {
    if k < |docs| - 1 {
      AllResultsNonEmpty(mode, docs[..|docs| - 1], k);
    }
  }

  /**
   * Re-running accumulates: a second run over the same listing ends the same
   * way and appends the same text again to every file, so each file's growth
   * doubles; nothing is truncated or deduplicated.
   */
  lemma RerunAppendsAgain(d: Disk, mode: Mode, listing: seq<Document>, p: Path)
    ensures var (first, d1) := RunSpec(d, mode, listing);
      var (second, d2) := RunSpec(d1, mode, listing);
      && second == first
      && Contents(d1, p) == Contents(d, p) + RunAppends(mode, listing, p)
      && Contents(d2, p) == Contents(d, p) + RunAppends(mode, listing, p) + RunAppends(mode, listing, p)
      && d2.dirs == d1.dirs
  {
    var docs := ProcessingOrder(mode, listing);
    var done := docs[..FirstNoMatch(mode, docs)];
    assert FirstNoMatch(mode, docs) == |docs| ==> done == docs;
    var d1 := Processed(d, mode, done);
    assert RunSpec(d, mode, listing).1 == d1;
    assert RunSpec(d1, mode, listing).1 == Processed(d1, mode, done);
    ProcessedAppends(d, mode, done, p);
    ProcessedAppends(d1, mode, done, p);
  }
}
