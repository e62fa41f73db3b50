# OSTI XML link extractor, modelled in Dafny

`extract_links_osti_xml.py` reads the `.xml` files of a folder (OSTI
metadata records) and pulls out either the OSTI identifiers
(`<dc:ostiId>123</dc:ostiId>`), the SciTech download links derived from
those identifiers, or the download links written in the documents. Each
value is saved as one line in two files under a directory named after the
mode. One file is per document (`<name>_<mode>.txt`). The other collects
all documents (`<mode>_all.txt`). A run stops at the first document that
yields nothing.

The model has four modules, one per concern of the script:

- `PatternMatcher` (`PatternMatcher.dfy`) models `re.findall(..., re.DOTALL)`
  for the two fixed patterns used by the script. Both have the shape
  `before(inside\d+)trail`, so they are written as one `Pattern` datatype
  with two constants. Digits are ASCII. In the link pattern the unescaped
  dots of `www.osti.gov` are wildcards that match any character. The
  general lemmas hold for every pattern with the `Separated` shape, and
  `IdentifierSeparated` and `LinkSeparated` prove that both patterns of the
  script have it. `ScanFrom` is proved to agree with a reference definition: the
  list of match positions (`PositionsFrom`) together with `OccursAt`, which
  allows any digit run.
- `LinkDeriver` (`LinkDeriver.dfy`) models the purl-base concatenation that
  turns an identifier into a link, and its inverse `IdentifierOf`.
- `ExtractionSink` (`ExtractionSink.dfy`) models `save_file`. The directory
  tree under the target folder is a `Disk` value: a set of directories and
  a map from path to file text. A missing file reads as empty. The
  `FileSystem` class holds the same state in fields, and its `SaveFile`
  method changes it in place, proved equal to the `Saved` function.
- `ExtractionRunner` (`ExtractionRunner.dfy`) models the three runners
  `extract_identifiers`, `extract_identifier_links` and `extract_links`.
  They are one `Run` method, selected by a `Mode`. It has an outer loop over
  documents and an inner loop (`SaveMatches`) over the matches of one
  document. It is proved equal to the function `RunSpec`, and the lemmas
  about a run are stated on `RunSpec`.

## Model

| member | source | states |
|---|---|---|
| PatternMatcher.DigitRun | extract_links_osti_xml.py:49 | `\d+` is greedy: the run it measures is all ASCII digits and is followed by a non-digit or the end of the text |
| PatternMatcher.MatchesAt | extract_links_osti_xml.py:49 | the greedy reading of a match at a position: the lead (with wildcards) fits there, and at least one ASCII digit follows it; `MatchesIffOccurs` ties it to the regular expression |
| PatternMatcher.Capture | extract_links_osti_xml.py:78 | the group captured by a match has the group's shape: the `inside` text, then one or more digits |
| PatternMatcher.ScanFrom | extract_links_osti_xml.py:62 | every result of the scan has the shape of the captured group: the `inside` text (with wildcards), then one or more digits |
| PatternMatcher.Scan | extract_links_osti_xml.py:78 | every result of `re.findall` over a whole document has the shape of the captured group |
| PatternMatcher.PositionsFrom | extract_links_osti_xml.py:49 | reference definition: exactly the positions where the pattern matches, strictly increasing |
| PatternMatcher.DigitRunExact | extract_links_osti_xml.py:49 | a digit run followed by a non-digit is exactly the greedy run |
| PatternMatcher.MatchesIffOccurs | extract_links_osti_xml.py:49 | the greedy reading agrees with the regular expression: the pattern matches at a position if and only if it occurs there with some digit run, and that run is the captured one |
| PatternMatcher.NoOverlap | extract_links_osti_xml.py:78 | no match starts strictly inside another match, so resuming after a match skips no other match |
| PatternMatcher.ScanFromFindsEveryMatch | extract_links_osti_xml.py:62 | the scan from any position returns exactly one capture per match position from there on, in order |
| PatternMatcher.ScanFindsEveryMatch | extract_links_osti_xml.py:49 | a document's results are the captures at all its match positions, in document order with duplicates kept; the result is empty if and only if the pattern matches nowhere |
| PatternMatcher.ScanAt | extract_links_osti_xml.py:62 | the k-th result is the capture at the k-th match position |
| PatternMatcher.ScanInContext | extract_links_osti_xml.py:78 | at the k-th match position the document holds the text before the group, then the k-th result, then the trail |
| PatternMatcher.CaptureInContext | extract_links_osti_xml.py:78 | a capture is surrounded in the document by the pattern's fixed texts |
| PatternMatcher.LinkScanBetweenBrackets | extract_links_osti_xml.py:78 | each link result sits between a `>` and a `<` directly after it |
| PatternMatcher.IdentifierScanInMarker | extract_links_osti_xml.py:49 | each identifier result is a non-empty ASCII digit string found inside a complete `<dc:ostiId>…</dc:ostiId>` marker |
| PatternMatcher.ScanOfOneMatch | extract_links_osti_xml.py:78 | a text that is exactly one occurrence of a pattern yields exactly its capture |
| PatternMatcher.ScanOfIdentifierMarker | extract_links_osti_xml.py:62 | `<dc:ostiId>D</dc:ostiId>` with D a non-empty digit string yields exactly `[D]` |
| PatternMatcher.IdentifierCapture | extract_links_osti_xml.py:49 | an identifier capture is exactly a non-empty ASCII digit string |
| PatternMatcher.IdentifierSeparated | extract_links_osti_xml.py:49 | the identifier pattern is unambiguous: its trail starts with a non-digit and its marker cannot restart inside a match |
| PatternMatcher.LinkSeparated | extract_links_osti_xml.py:78 | the link pattern is unambiguous, its two wildcard dots included |
| LinkDeriver.IdentifierOf | extract_links_osti_xml.py:69 | recovering the identifier succeeds exactly for texts that start with the purl base |
| LinkDeriver.DeriveLink | extract_links_osti_xml.py:69 | the link built from an identifier: dropping the purl base from it gives the identifier back |
| LinkDeriver.DeriveLinkInjective | extract_links_osti_xml.py:69 | distinct identifiers give distinct links |
| LinkDeriver.IdentifierOfDerives | extract_links_osti_xml.py:69 | every text that starts with the purl base is the derived link of its remainder |
| LinkDeriver.DerivedLinkIsScanned | extract_links_osti_xml.py:68-70 | a derived link has the shape the link scan captures, and `>link<` is scanned back to exactly that link |
| LinkDeriver.LinkDotsAreWildcards | extract_links_osti_xml.py:78 | with both dots of the host replaced, a URL is still returned by the link scan, yet it is not the derived link of any identifier |
| ExtractionSink.PerDocPath | extract_links_osti_xml.py:91-92 | the per-document file lies in the mode directory, and its name is the stem followed by five more characters than the mode name (`_`, mode, `.txt`) |
| ExtractionSink.AllPath | extract_links_osti_xml.py:94-95 | the `_all` file lies in the mode directory, and its name starts with the mode name and is eight characters longer (`_all.txt`) |
| ExtractionSink.Saved | extract_links_osti_xml.py:86-96 | one `save_file` as a disk transformation: the mode directory exists afterwards, the two files it opens exist afterwards, and no other file is created |
| ExtractionSink.Stem | extract_links_osti_xml.py:91 | `filename[:-4]` drops the last four characters, and gives "" for names shorter than four |
| ExtractionSink.StemOfXml | extract_links_osti_xml.py:91 | the stem of `base.xml` is `base` |
| ExtractionSink.PerDocIsNotAll | extract_links_osti_xml.py:91-95 | the per-document file and the `_all` file are different files whenever the mode name's fourth character is not `_` |
| ExtractionSink.PerDocPathInjective | extract_links_osti_xml.py:91 | documents with different stems write to different per-document files |
| ExtractionSink.SaveAppendsOneLine | extract_links_osti_xml.py:86-96 | one `save_file`: the mode directory exists afterwards and is added only if missing; `extract + "\n"` is appended to the per-document file and to the `_all` file, keeping their earlier text; both exist afterwards; every other file is unchanged and no other file is created |
| ExtractionSink.SavedAllAppendsLines | extract_links_osti_xml.py:53-54 | saving a document's values in turn appends them one per line, in order, to its per-document file and to the `_all` file, and nothing to any other file |
| ExtractionSink.SavedAllFrame | extract_links_osti_xml.py:88-90 | saving adds the mode directory if anything was saved, and creates no file outside the two written ones |
| ExtractionSink.FileSystem.Append | extract_links_osti_xml.py:92-93 | opening in append mode and writing creates the file if missing and adds the text at its end |
| ExtractionSink.FileSystem.SaveFile | extract_links_osti_xml.py:86-96 | the in-place `save_file` leaves exactly the disk state `Saved` describes |
| ExtractionRunner.Extract | extract_links_osti_xml.py:62-69 | a document yields one value per match of its mode's pattern (line 49, 62 or 78); what each value is, is stated by `ExtractedValue` |
| ExtractionRunner.ExtractedValue | extract_links_osti_xml.py:68-70 | each saved value has its mode's shape; in identifier-links mode it is the derived link of the identifier found at the same place, and otherwise it is the match itself |
| ExtractionRunner.NameLe | extract_links_osti_xml.py:47 | Python's `<=` on names, proved equal to the lexicographic order `LexLe`: a prefix comes first, otherwise the smaller character at the first difference decides |
| ExtractionRunner.SortByName | extract_links_osti_xml.py:47 | `sorted(...)`: the result is ordered by name and is a permutation of the listing |
| ExtractionRunner.ProcessingOrder | extract_links_osti_xml.py:47 | the order a mode visits the listing: always a permutation of it; sorted by name in identifiers mode (line 47); the listing as given in the other modes (lines 60 and 76) |
| ExtractionRunner.FirstNoMatch | extract_links_osti_xml.py:50-52 | the index of the first document without a match: every earlier document has one, and the document at that index has none |
| ExtractionRunner.XmlNamesHaveDistinctStems | extract_links_osti_xml.py:60 | distinct names that all end in `.xml` have distinct stems, so no two documents share a per-document file |
| ExtractionRunner.ProcessingOrderDistinctStems | extract_links_osti_xml.py:47 | a listing of distinct `*.xml` names has distinct stems in the order each mode visits it, sorted order included |
| ExtractionRunner.PermutationKeepsDistinctNames | extract_links_osti_xml.py:47 | sorting a listing of distinct names keeps the names distinct |
| ExtractionRunner.SaveMatches | extract_links_osti_xml.py:82-83 | the inner loop leaves the disk as saving each match, or each derived link, in order |
| ExtractionRunner.ProcessDocument | extract_links_osti_xml.py:61-70 | one outer iteration reports whether the document had a match, and saves exactly that document's values |
| ExtractionRunner.RunSpec | extract_links_osti_xml.py:44-84 | a run ends `Ok` exactly when every listed document has a match, and otherwise names a listed document without one |
| ExtractionRunner.EveryDocumentMatches | extract_links_osti_xml.py:47-52 | reordering the listing changes neither whether every document has a match nor the set of documents in which one can be missing |
| ExtractionRunner.Run | extract_links_osti_xml.py:44-84 | the runner loop returns the outcome and leaves the disk exactly as `RunSpec` gives for the same listing |
| ExtractionRunner.ModeFilesDiffer | extract_links_osti_xml.py:91-95 | in every mode the per-document file and the `_all` file are two files |
| ExtractionRunner.ProcessedAppends | extract_links_osti_xml.py:76-84 | processing documents appends the same text to a file whatever it held before; it creates no file outside the mode directory, and none inside it other than the `_all` file and the processed documents' own files; it adds the mode directory exactly when some value was saved |
| ExtractionRunner.AppendedOnlyUnderModeDir | extract_links_osti_xml.py:88-96 | nothing is appended to a file outside the mode directory |
| ExtractionRunner.AppendedUntouched | extract_links_osti_xml.py:91-95 | a file that is neither the `_all` file nor any processed document's own file receives nothing |
| ExtractionRunner.AppendedToAllFile | extract_links_osti_xml.py:94-96 | the `_all` file receives every value of every document, one per line, in processing order |
| ExtractionRunner.AppendedToPerDocFile | extract_links_osti_xml.py:91-93 | each document's own file receives that document's values, one per line, in order |
| ExtractionRunner.RunStopsAtFirstEmptyDocument | extract_links_osti_xml.py:50-52 | fail-fast: a run ends in `NoMatch` if and only if some document has no match; it names the first such document; the disk is then what a successful run over only the earlier documents leaves |
| ExtractionRunner.RunAppendsOnly | extract_links_osti_xml.py:91-96 | a run only appends: every file keeps its earlier text, the appended text depends on the listing alone, nothing outside the mode directory changes, no file other than the `_all` file and the listed documents' own files comes into existence, and the mode directory is the only one that can be added |
| ExtractionRunner.SuccessfulRunOutput | extract_links_osti_xml.py:53-55 | after a successful run each per-document file has gained that document's values in order, the `_all` file has gained all values in processing order, and the mode directory exists |
| ExtractionRunner.RerunAppendsAgain | extract_links_osti_xml.py:92-95 | running twice over the same listing ends the same way and appends the same text a second time: no truncation and no deduplication |

## Left out

- The command line in `main` (lines 98-113) is not modelled. This covers the argument-count check, the option strings and the usage messages. `Run` takes the mode as a `Mode` value.
- `print`, `sys.stderr.write` and `sys.exit(1)` are not modelled. `Run` returns `NoMatch(index, name)` for the first document without a match, and `Ok` otherwise.
- `os.chdir` into the folder is not modelled. Paths are relative to the target folder: a `Path` is a directory and a file name, not a joined string.
- The `glob.glob("*.xml")` listing is an input sequence of documents, in whatever order the listing gives. Identifiers mode sorts it by name.
- `file_opener` (lines 36-42), which reads and decodes UTF-8, is not modelled. A document's content is given as already-decoded text.
- The `folder` parameter of `save_file` is never used by the script, so it has no counterpart.
- I/O errors are not modelled. For example, a plain file named like the mode directory passes the `os.path.exists` check, and then opening a file inside it fails.
- Writing a unicode value into a file opened with `"ab"` uses Python 2's implicit ASCII encoding. A link whose wildcard position holds a non-ASCII character would make that write fail. The model writes the text as it is. A newline at a wildcard position would likewise split the saved line, and the model keeps the newline inside the text.
- `Extract`: its own contract states only the number of values. What each value is is stated by `ExtractedValue`.
- `SuccessfulRunOutput`: requires that the documents have distinct stems in processing order. `ProcessingOrderDistinctStems` proves this for every listing of distinct names that end in `.xml`, which is what `glob.glob("*.xml")` provides.
- `SortByName`: compares names character by character, which is how Python 2 orders byte-string file names. Equal names never arise in a directory listing, so ties are not considered.
