/** The naming and output logic of `zip_splitter.py`: title normalisation,
    the directory fan-out, page naming in `find_pages`, the SQL-mode commit
    batching and the XML-mode rename loop.

    `unidecode` is the parameter `translit`; where a property needs it, it is
    assumed to leave ASCII text unchanged. */
module ZipSplitter {
  import opened Wrappers
  import opened Strings
  import opened XmlTree
  import LegacySplitter
  import DiskCache

  // ----- normalize_title -----

  /** The characters the `cleaner` pattern leaves alone past position 0:
      `(`, `)`, `-`, `_`, `.`, whitespace and word characters. */
  predicate Allowed(c: char) {
    c in "()-_." || IsSpace(c) || IsWordChar(c)
  }

  /** One position of `cleaner.sub("_", s)`: at the start of the string the
      alternative `^[^\w\d]` also fires, so only a word character survives
      there; elsewhere every character outside `Allowed` becomes `_`. */
  function CleanChar(c: char, atStart: bool): char {
    if atStart then (if IsWordChar(c) then c else '_')
    else if Allowed(c) then c else '_'
  }

  /** `cleaner.sub("_", s)`: each match is exactly one character and is
      replaced by exactly one `_`. */
  function Clean(s: string): (r: string)
    ensures |r| == |s|
    ensures forall i :: 0 <= i < |s| ==> r[i] == CleanChar(s[i], i == 0)
  {
    seq(|s|, i requires 0 <= i < |s| => CleanChar(s[i], i == 0))
  }

  /** `normalize_title(title)`: transliterate, strip, then clean. */
  function NormalizeTitle(translit: string -> string, title: string): (r: string)
    ensures |r| == |Strip(translit(title))|
    ensures forall i :: 0 <= i < |r| ==> Allowed(r[i])
    ensures |r| > 0 ==> IsWordChar(r[0])
  {
    Clean(Strip(translit(title)))
  }

  lemma AllowedIsAscii(s: string)
    requires forall i :: 0 <= i < |s| ==> Allowed(s[i])
    ensures IsAscii(s)
  {
  }

  /** With a transliteration that leaves ASCII text unchanged, normalising
      twice is normalising once: the result is already stripped and every
      character of it passes the cleaner. */
  lemma NormalizeTitleIdempotent(translit: string -> string, title: string)
    requires forall s :: IsAscii(s) ==> translit(s) == s
    ensures NormalizeTitle(translit, NormalizeTitle(translit, title)) == NormalizeTitle(translit, title)
  {
    var s := Strip(translit(title));
    var r := NormalizeTitle(translit, title);
    AllowedIsAscii(r);
    assert translit(r) == r;
    NormalizedIsStripped(s);
    CleanFixesSafe(r);
  }

  /** Cleaning a stripped string leaves it stripped. */
  lemma NormalizedIsStripped(s: string)
    requires |s| == 0 || (!IsSpace(s[0]) && !IsSpace(s[|s| - 1]))
    ensures Strip(Clean(s)) == Clean(s)
  {
    var r := Clean(s);
    if |r| > 0 {
      assert r[0] == CleanChar(s[0], true);
      assert !IsSpace(r[0]);
      assert r[|r| - 1] == CleanChar(s[|s| - 1], |s| - 1 == 0);
      assert !IsSpace(r[|r| - 1]);
    }
  }

  /** The cleaner leaves a safe name unchanged. */
  lemma CleanFixesSafe(r: string)
    requires forall i :: 0 <= i < |r| ==> Allowed(r[i])
    requires |r| > 0 ==> IsWordChar(r[0])
    ensures Clean(r) == r
  {
  }

  // ----- get_sub_directory -----

  /** The title's `[\w\d]` characters, upper-cased, in order. */
  function WordCharsUpper(title: string): (r: seq<char>)
    ensures |r| <= |title|
    ensures forall i :: 0 <= i < |r| ==> exists j :: 0 <= j < |title| && IsWordChar(title[j]) && r[i] == UpperChar(title[j])
    ensures |title| == 1 ==> r == if IsWordChar(title[0]) then [UpperChar(title[0])] else []
  {
    if |title| == 0 then []
    else
      var rest := WordCharsUpper(title[1..]);
      assert forall j :: 0 <= j < |title| - 1 ==> title[1..][j] == title[j + 1];
      if IsWordChar(title[0]) then [UpperChar(title[0])] + rest else rest
  }

  /** Scanning a title in two pieces finds the first piece's word
      characters followed by the second's: together with the one-character
      case this pins the result down to "every word character, in order". */
  lemma {:induction false} WordCharsUpperAppend(a: string, b: string)
    ensures WordCharsUpper(a + b) == WordCharsUpper(a) + WordCharsUpper(b)
    decreases |a|
  {
    if |a| == 0 {
      assert a + b == b;
    } else {
      assert (a + b)[1..] == a[1..] + b;
      assert (a + b)[0] == a[0];
      WordCharsUpperAppend(a[1..], b);
    }
  }

  /** Python's `xs[:n]`: a negative `n` counts from the end. */
  function SliceTo<T>(xs: seq<T>, n: int): (r: seq<T>)
    ensures n >= 0 ==> |r| == if n <= |xs| then n else |xs|
    ensures n < 0 ==> |r| == if |xs| + n >= 0 then |xs| + n else 0
    ensures r == xs[..|r|]
  {
    if n >= 0 then (if n <= |xs| then xs[..n] else xs)
    else if |xs| + n >= 0 then xs[..|xs| + n]
    else []
  }

  /** `get_sub_directory(title, depth)`: one single-character directory
      name per leading word character of the title, upper-cased. */
  function GetSubDirectory(title: string, depth: int): (r: seq<string>)
    ensures depth >= 0 ==> |r| <= depth
    ensures |r| <= |WordCharsUpper(title)|
    ensures depth >= 0 && depth <= |WordCharsUpper(title)| ==> |r| == depth
    ensures depth >= 0 && depth > |WordCharsUpper(title)| ==> |r| == |WordCharsUpper(title)|
    ensures depth < 0 ==> |r| == if |WordCharsUpper(title)| + depth >= 0 then |WordCharsUpper(title)| + depth else 0
    ensures forall i :: 0 <= i < |r| ==> r[i] == [WordCharsUpper(title)[i]]
  {
    var chars := SliceTo(WordCharsUpper(title), depth);
    seq(|chars|, i requires 0 <= i < |chars| => [chars[i]])
  }

  // ----- page naming in find_pages -----

  /** The `namer` of `zip_splitter.py`: `normalize_title(el.text)`; a title
      element without text makes `unidecode(None)` raise. */
  function ZipNamer(translit: string -> string): Option<string> -> Option<string> {
    (text: Option<string>) => if text.None? then None else Some(NormalizeTitle(translit, text.value))
  }

  /** Every character of a page name is safe for the output layout, and a
      non-empty name starts with a word character. */
  predicate SafeName(name: string) {
    (forall i :: 0 <= i < |name| ==> Allowed(name[i])) && (|name| > 0 ==> IsWordChar(name[0]))
  }

  lemma UnknownTitleSafe(n: nat)
    ensures SafeName(UnknownTitle(n))
  {
    var t := UnknownTitle(n);
    var d := NatToDecimal(n);
    NatToDecimalSpec(n);
    assert forall i :: 8 <= i < |t| ==> t[i] == d[i - 8];
  }

  /** Every page name `zip_splitter.py` yields is safe: either a
      normalised title or `UNKNOWN_n`. The run stops at the first titled
      page whose title element has no text. */
  lemma ZipNamesSafe(events: seq<Element>, translit: string -> string)
    ensures var r := LegacySplitter.FindPages(events, ZipNamer(translit));
            forall k :: 0 <= k < |r.records| ==> SafeName(r.records[k].title)
    ensures var r := LegacySplitter.FindPages(events, ZipNamer(translit));
            var pages := Pages(events, false);
            r.aborted ==> |r.records| < |pages|
                          && FindElByTag(pages[|r.records|], "title", false).Some?
                          && FindElByTag(pages[|r.records|], "title", false).value.text.None?
  {
    var namer := ZipNamer(translit);
    LegacySplitter.FindPagesSpec(events, namer);
    var r := LegacySplitter.FindPages(events, namer);
    var pages := Pages(events, false);
    forall k | 0 <= k < |r.records|
      ensures SafeName(r.records[k].title)
    {
      assert LegacySplitter.RecordAsExpected(pages, k, 0, namer, r.records[k]);
      var el := FindElByTag(pages[k], "title", false);
      if el.None? {
        UnknownTitleSafe(TitlelessCount(pages[..k], false) + 1);
      }
    }
  }

  // ----- SQL output: output_page / dump -----

  datatype Row = Row(title: string, page: string)

  /** The SQL worker's state: the rows waiting in `to_commit`, the
      `num_runs` counter and the rows already inserted. */
  datatype Batch = Batch(toCommit: seq<Row>, numRuns: int, inserted: seq<Row>)

  predicate BatchInv(b: Batch) {
    |b.toCommit| == b.numRuns
  }

  /** `dump()`: insert the waiting rows in order and clear the buffer. */
  function Dump(b: Batch): (r: Batch)
    ensures r.toCommit == [] && r.numRuns == b.numRuns
    ensures r.inserted + r.toCommit == b.inserted + b.toCommit
  {
    Batch([], b.numRuns, b.inserted + b.toCommit)
  }

  /** `output_page(title, page)` in SQL mode, with `commit` the `--commit`
      argument (not checked to be positive). */
  function OutputPage(b: Batch, row: Row, commit: int): (r: Batch)
    requires BatchInv(b)
    ensures BatchInv(r)
    ensures r.inserted + r.toCommit == b.inserted + b.toCommit + [row]
    ensures b.numRuns + 1 >= commit ==> r.toCommit == [] && r.inserted == b.inserted + b.toCommit + [row]
    ensures b.numRuns + 1 < commit ==> r.inserted == b.inserted
  {
    var appended := Batch(b.toCommit + [row], b.numRuns + 1, b.inserted);
    if appended.numRuns >= commit then
      var d := Dump(appended);
      Batch(d.toCommit, 0, d.inserted)
    else appended
  }

  /** The SQL worker fed every row in stream order. */
  function OutputAll(b: Batch, rows: seq<Row>, commit: int): (r: Batch)
    requires BatchInv(b)
    ensures BatchInv(r)
    ensures r.inserted + r.toCommit == b.inserted + b.toCommit + rows
    decreases |rows|
  {
    if |rows| == 0 then b
    else
      var next := OutputPage(b, rows[0], commit);
      var r := OutputAll(next, rows[1..], commit);
      assert b.inserted + b.toCommit + rows == b.inserted + b.toCommit + [rows[0]] + rows[1..];
      r
  }

  /** Starting from an empty worker, the buffer never holds `commit` rows
      once a row has been processed, every insert adds a full batch, and
      the `atexit` dump leaves exactly the rows, in stream order, in the
      table. */
  lemma {:induction false} OutputAllBatches(b: Batch, rows: seq<Row>, commit: int)
    requires BatchInv(b)
    requires commit >= 1 && b.numRuns < commit && WholeBatches(|b.inserted|, commit)
    ensures var r := OutputAll(b, rows, commit);
            r.numRuns < commit && WholeBatches(|r.inserted|, commit)
    decreases |rows|
  {
    if |rows| > 0 {
      var next := OutputPage(b, rows[0], commit);
      if b.numRuns + 1 >= commit {
        assert |next.inserted| == |b.inserted| + commit;
      }
      OutputAllBatches(next, rows[1..], commit);
    }
  }

  /** `n` is a whole number of batches of `k` rows. */
  predicate WholeBatches(n: nat, k: nat)
    requires k >= 1
    decreases n
  {
    n == 0 || (n >= k && WholeBatches(n - k, k))
  }

  /** The whole SQL run, `atexit` dump included. */
  lemma SqlRunStoresAllRows(rows: seq<Row>, commit: int)
    ensures Dump(OutputAll(Batch([], 0, []), rows, commit)).inserted == rows
  {
  }

  // ----- XML output: the rename loop -----

  /** `path_generator(n)`: `<dir>/<title>.<n>.xml`, plus `.bz2` when
      compressing. */
  function OutputPath(dir: string, title: string, n: nat, compress: bool): string {
    DiskCache.PathJoin(dir, title + "." + NatToDecimal(n) + ".xml" + (if compress then ".bz2" else ""))
  }

  /** The directory `output_page` writes into. */
  function OutputDir(outputDirectory: string, title: string, depth: int): string {
    DiskCache.JoinAll(outputDirectory, GetSubDirectory(title, depth))
  }

  /** A candidate name is taken when the file does not exist yet and saving
      to it succeeds. */
  predicate Usable(existing: set<string>, saves: string -> bool, path: string) {
    path !in existing && saves(path)
  }

  /** The XML-mode rename loop: try `title.0.xml`, `title.1.xml`, ... and
      keep the first name that does not exist and saves. A save is only
      attempted when the name is free. The source loop has no bound; the
      model stops after `attempts` names. */
  method PickOutputName(dir: string, title: string, compress: bool, existing: set<string>,
                        saves: string -> bool, attempts: nat)
    returns (chosen: Option<nat>, tried: seq<string>)
    ensures chosen.Some? ==> chosen.value < attempts
                             && Usable(existing, saves, OutputPath(dir, title, chosen.value, compress))
    ensures chosen.Some? ==> forall j :: 0 <= j < chosen.value ==>
                               !Usable(existing, saves, OutputPath(dir, title, j, compress))
    ensures chosen.None? ==> forall j :: 0 <= j < attempts ==>
                               !Usable(existing, saves, OutputPath(dir, title, j, compress))
    ensures forall p :: p in tried ==> p !in existing
  {
    chosen := None;
    tried := [];
    var n := 0;
    while n < attempts
      invariant n <= attempts
      invariant forall j :: 0 <= j < n ==> !Usable(existing, saves, OutputPath(dir, title, j, compress))
      invariant forall p :: p in tried ==> p !in existing
    {
      var path := OutputPath(dir, title, n, compress);
      if path !in existing {
        tried := tried + [path];
        if saves(path) {
          chosen := Some(n);
          return;
        }
      }
      forall j | 0 <= j < n + 1 ensures !Usable(existing, saves, OutputPath(dir, title, j, compress)) {
        if j == n { assert OutputPath(dir, title, j, compress) == path; }
      }
      n := n + 1;
    }
  }
}
