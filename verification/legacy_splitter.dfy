/** The page extraction shared by the two older splitters (`wikisplitter.py`
    and `zip_splitter.py`): tags are compared by their exact local name,
    every `page` element yields one record holding the element itself, and
    there is no redirect filtering.

    The two differ only in how a title child's text becomes the page name,
    which is the `namer` parameter: `str(text)` in `wikisplitter.py`, and
    `normalize_title(text)` in `zip_splitter.py`, which raises on a title
    element without text. `None` from `namer` stands for that exception. */
module LegacySplitter {
  import opened Wrappers
  import opened Strings
  import opened XmlTree
  import ArchiveCache
  import DiskCache

  /** One yielded `(page_name, page)` pair; the page is kept as the element
      that `ET.tostring` serialises. */
  datatype Record = Record(title: string, page: Element)

  /** The records yielded, and whether the generator raised after them. */
  datatype Run = Run(records: seq<Record>, aborted: bool)

  /** The named text of the first child tagged exactly `title`, or
      `UNKNOWN_n` when there is none. */
  function NameOr(page: Element, n: nat, namer: Option<string> -> Option<string>): Option<string> {
    match FindElByTag(page, "title", false)
    case Some(el) => namer(el.text)
    case None => Some(UnknownTitle(n))
  }

  /** `title_finder`, with the number of titleless pages seen so far;
      `None` when naming raises. */
  function TitleFinder(page: Element, unknown: nat, namer: Option<string> -> Option<string>)
    : Option<(string, nat)>
  {
    var next := if HasTitle(page, false) then unknown else unknown + 1;
    match NameOr(page, unknown + 1, namer)
    case Some(name) => Some((name, next))
    case None => None
  }

  /** `find_pages` with the `unknown_index` counter threaded through. */
  function FindPagesFrom(events: seq<Element>, namer: Option<string> -> Option<string>, unknown: nat)
    : Run
  {
    if |events| == 0 then Run([], false)
    else if !IsPage(events[0], false) then FindPagesFrom(events[1..], namer, unknown)
    else
      match TitleFinder(events[0], unknown, namer)
      case None => Run([], true)
      case Some((title, next)) =>
        var rest := FindPagesFrom(events[1..], namer, next);
        Run([Record(title, events[0])] + rest.records, rest.aborted)
  }

  function FindPages(events: seq<Element>, namer: Option<string> -> Option<string>): Run {
    FindPagesFrom(events, namer, 0)
  }

  /** The name the `k`-th page should get: its named title, or `UNKNOWN_n`
      with `n` counting the titleless pages up to and including it. */
  function ExpectedTitle(pages: seq<Element>, k: nat, unknown: nat,
                         namer: Option<string> -> Option<string>): Option<string>
    requires k < |pages|
  {
    NameOr(pages[k], unknown + TitlelessCount(pages[..k], false) + 1, namer)
  }

  /** The `k`-th record carries the `k`-th page under its expected name. */
  predicate RecordAsExpected(pages: seq<Element>, k: nat, unknown: nat,
                             namer: Option<string> -> Option<string>, rec: Record)
    requires k < |pages|
  {
    ExpectedTitle(pages, k, unknown, namer) == Some(rec.title) && rec.page == pages[k]
  }

  lemma ExpectedTitleHead(pages: seq<Element>, unknown: nat, namer: Option<string> -> Option<string>)
    requires |pages| > 0
    ensures ExpectedTitle(pages, 0, unknown, namer).Some? <==> TitleFinder(pages[0], unknown, namer).Some?
    ensures ExpectedTitle(pages, 0, unknown, namer).Some? ==>
              ExpectedTitle(pages, 0, unknown, namer).value == TitleFinder(pages[0], unknown, namer).value.0
  {
    assert pages[..0] == [];
  }

  /** Dropping the first page shifts the positions by one and starts the
      counter after it. */
  lemma ExpectedTitleShift(pages: seq<Element>, k: nat, unknown: nat,
                           namer: Option<string> -> Option<string>)
    requires 1 <= k < |pages|
    ensures ExpectedTitle(pages, k, unknown, namer)
            == ExpectedTitle(pages[1..], k - 1, unknown + (if HasTitle(pages[0], false) then 0 else 1), namer)
  {
    var h := if HasTitle(pages[0], false) then 0 else 1;
    TitlelessCountStep(pages, k, false);
    ExpectedTitleShiftBy(pages, k, unknown, namer, h);
  }

  lemma ExpectedTitleShiftBy(pages: seq<Element>, k: nat, unknown: nat,
                             namer: Option<string> -> Option<string>, h: nat)
    requires 1 <= k < |pages|
    requires TitlelessCount(pages[..k], false) == h + TitlelessCount(pages[1..][..k - 1], false)
    ensures ExpectedTitle(pages, k, unknown, namer) == ExpectedTitle(pages[1..], k - 1, unknown + h, namer)
  {
    var n := unknown + TitlelessCount(pages[..k], false) + 1;
    ExpectedTitleIs(pages, k, unknown, namer, n);
    ExpectedTitleIs(pages[1..], k - 1, unknown + h, namer, n);
    assert pages[1..][k - 1] == pages[k];
  }

  lemma ExpectedTitleIs(pages: seq<Element>, k: nat, unknown: nat,
                        namer: Option<string> -> Option<string>, n: nat)
    requires k < |pages| && n == unknown + TitlelessCount(pages[..k], false) + 1
    ensures ExpectedTitle(pages, k, unknown, namer) == NameOr(pages[k], n, namer)
  {
  }

  lemma TitleFinderNext(page: Element, unknown: nat, namer: Option<string> -> Option<string>)
    requires TitleFinder(page, unknown, namer).Some?
    ensures TitleFinder(page, unknown, namer).value.1 == unknown + (if HasTitle(page, false) then 0 else 1)
  {
  }

  lemma {:induction false} FindPagesCount(events: seq<Element>, namer: Option<string> -> Option<string>,
                                          unknown: nat)
    ensures |FindPagesFrom(events, namer, unknown).records| <= |Pages(events, false)|
    ensures FindPagesFrom(events, namer, unknown).aborted
            <==> |FindPagesFrom(events, namer, unknown).records| < |Pages(events, false)|
    ensures FindPagesFrom(events, namer, unknown).aborted ==>
              ExpectedTitle(Pages(events, false), |FindPagesFrom(events, namer, unknown).records|,
                            unknown, namer).None?
  {
    if |events| == 0 {
    } else if !IsPage(events[0], false) {
      FindPagesCount(events[1..], namer, unknown);
      assert Pages(events, false) == Pages(events[1..], false);
      assert FindPagesFrom(events, namer, unknown) == FindPagesFrom(events[1..], namer, unknown);
    } else {
      var pages := Pages(events, false);
      assert pages[0] == events[0] && pages[1..] == Pages(events[1..], false);
      ExpectedTitleHead(pages, unknown, namer);
      var t := TitleFinder(events[0], unknown, namer);
      if t.Some? {
        var next := t.value.1;
        FindPagesCount(events[1..], namer, next);
        var r := FindPagesFrom(events, namer, unknown);
        var rest := FindPagesFrom(events[1..], namer, next);
        assert r == Run([Record(t.value.0, events[0])] + rest.records, rest.aborted);
        assert |r.records| == |rest.records| + 1;
        if r.aborted {
          TitleFinderNext(events[0], unknown, namer);
          ExpectedTitleShift(pages, |r.records|, unknown, namer);
        }
      } else {
        assert FindPagesFrom(events, namer, unknown) == Run([], true);
      }
    }
  }

  lemma {:induction false} FindPagesRecords(events: seq<Element>, namer: Option<string> -> Option<string>,
                                            unknown: nat)
    ensures |FindPagesFrom(events, namer, unknown).records| <= |Pages(events, false)|
    ensures forall k :: 0 <= k < |FindPagesFrom(events, namer, unknown).records| ==>
              RecordAsExpected(Pages(events, false), k, unknown, namer,
                               FindPagesFrom(events, namer, unknown).records[k])
  {
    FindPagesCount(events, namer, unknown);
    if |events| == 0 {
    } else if !IsPage(events[0], false) {
      FindPagesRecords(events[1..], namer, unknown);
    } else {
      var pages := Pages(events, false);
      assert pages[0] == events[0] && pages[1..] == Pages(events[1..], false);
      ExpectedTitleHead(pages, unknown, namer);
      var t := TitleFinder(events[0], unknown, namer);
      if t.Some? {
        var next := t.value.1;
        TitleFinderNext(events[0], unknown, namer);
        FindPagesRecords(events[1..], namer, next);
        var r := FindPagesFrom(events, namer, unknown);
        var rest := FindPagesFrom(events[1..], namer, next);
        assert r.records == [Record(t.value.0, events[0])] + rest.records;
        forall k | 0 <= k < |r.records|
          ensures RecordAsExpected(pages, k, unknown, namer, r.records[k])
        {
          if k > 0 {
            ExpectedTitleShift(pages, k, unknown, namer);
            assert r.records[k] == rest.records[k - 1];
            assert RecordAsExpected(pages[1..], k - 1, next, namer, rest.records[k - 1]);
          }
        }
      }
    }
  }

  /** Every page yields one record, in document order, named as
      `ExpectedTitle` says, until the first page whose naming raises; the
      run is cut short exactly there. */
  lemma FindPagesSpec(events: seq<Element>, namer: Option<string> -> Option<string>)
    ensures var r := FindPages(events, namer);
            var pages := Pages(events, false);
            |r.records| <= |pages|
            && (r.aborted <==> |r.records| < |pages|)
            && (forall k :: 0 <= k < |r.records| ==> RecordAsExpected(pages, k, 0, namer, r.records[k]))
            && (r.aborted ==> ExpectedTitle(pages, |r.records|, 0, namer).None?)
  {
    FindPagesCount(events, namer, 0);
    FindPagesRecords(events, namer, 0);
  }

  /** `namer` of `wikisplitter.py`: `str(el.text)`. */
  function StrNamer(text: Option<string>): Option<string> {
    Some(PyStr(text))
  }

  /** In `wikisplitter.py` naming never raises, so every page yields a
      record. */
  lemma StrNamerNeverAborts(events: seq<Element>)
    ensures !FindPages(events, StrNamer).aborted
    ensures |FindPages(events, StrNamer).records| == |Pages(events, false)|
  {
    FindPagesCount(events, StrNamer, 0);
  }

  /** The outcome of the `split_xml` loop of `wikisplitter.py`. */
  datatype WriteRun = WriteRun(files: DiskCache.Files, written: nat, aborted: bool)

  /** The `split_xml` loop of `wikisplitter.py`: every record is written
      through `write_wikitext` in stream order, with no exception handler,
      so the first failing write ends the run. `serialise` is
      `ET.tostring`. */
  function SplitXml(files: DiskCache.Files, recs: seq<Record>, layout: DiskCache.Layout,
                    translit: string -> string, serialise: Element -> string): (r: WriteRun)
    ensures r.written <= |recs|
    ensures r.aborted <==> r.written < |recs|
    ensures r.written == 0 ==> r.files == files
    decreases |recs|
  {
    if |recs| == 0 then WriteRun(files, 0, false)
    else
      var w := DiskCache.WritePage(files, layout, translit, recs[0].title, ArchiveCache.WIKITEXT, serialise(recs[0].page));
      if w.Failure? then WriteRun(files, 0, true)
      else
        var rest := SplitXml(w.value, recs[1..], layout, translit, serialise);
        WriteRun(rest.files, rest.written + 1, rest.aborted)
  }

  /** The run writes the records with a usable path, in order, and stops
      at the first record whose path cannot be built. */
  lemma {:induction false} SplitXmlStopsAtFirstFailure(files: DiskCache.Files, recs: seq<Record>,
      layout: DiskCache.Layout, translit: string -> string, serialise: Element -> string)
    ensures var r := SplitXml(files, recs, layout, translit, serialise);
            (forall k :: 0 <= k < r.written ==> DiskCache.PathDefined(layout, translit, recs[k].title))
            && (r.aborted ==> !DiskCache.PathDefined(layout, translit, recs[r.written].title))
    decreases |recs|
  {
    if |recs| > 0 {
      var w := DiskCache.WritePage(files, layout, translit, recs[0].title, ArchiveCache.WIKITEXT,
                                   serialise(recs[0].page));
      if w.Success? {
        SplitXmlStopsAtFirstFailure(w.value, recs[1..], layout, translit, serialise);
        var rest := SplitXml(w.value, recs[1..], layout, translit, serialise);
        var r := SplitXml(files, recs, layout, translit, serialise);
        assert r == WriteRun(rest.files, rest.written + 1, rest.aborted);
        StopsShift(recs, rest, r, layout, translit);
      }
    }
  }

  /** The claim for the records after the first, shifted by one. */
  lemma StopsShift(recs: seq<Record>, rest: WriteRun, r: WriteRun, layout: DiskCache.Layout,
                   translit: string -> string)
    requires |recs| > 0 && DiskCache.PathDefined(layout, translit, recs[0].title)
    requires r == WriteRun(rest.files, rest.written + 1, rest.aborted)
    requires rest.written < |recs| && (rest.aborted ==> rest.written + 1 < |recs|)
    requires forall k :: 0 <= k < rest.written ==> DiskCache.PathDefined(layout, translit, recs[1..][k].title)
    requires rest.aborted ==> !DiskCache.PathDefined(layout, translit, recs[1..][rest.written].title)
    ensures forall k :: 0 <= k < r.written ==> DiskCache.PathDefined(layout, translit, recs[k].title)
    ensures r.aborted ==> !DiskCache.PathDefined(layout, translit, recs[r.written].title)
  {
    forall k | 1 <= k < r.written ensures DiskCache.PathDefined(layout, translit, recs[k].title) {
      assert recs[k] == recs[1..][k - 1];
    }
    if rest.aborted {
      assert recs[rest.written + 1] == recs[1..][rest.written];
    }
  }

  /** After the loop, the file of the last record written holds that
      record's page. */
  lemma {:induction false} SplitXmlLastWriteReadable(files: DiskCache.Files, recs: seq<Record>,
      layout: DiskCache.Layout, translit: string -> string, serialise: Element -> string)
    ensures var r := SplitXml(files, recs, layout, translit, serialise);
            r.written > 0 ==>
              DiskCache.ReadPage(r.files, layout, translit, recs[r.written - 1].title, ArchiveCache.WIKITEXT)
              == Success(Some(serialise(recs[r.written - 1].page)))
    decreases |recs|
  {
    if |recs| > 0 {
      var w := DiskCache.WritePage(files, layout, translit, recs[0].title, ArchiveCache.WIKITEXT, serialise(recs[0].page));
      if w.Success? {
        SplitXmlLastWriteReadable(w.value, recs[1..], layout, translit, serialise);
        var rest := SplitXml(w.value, recs[1..], layout, translit, serialise);
        if rest.written == 0 {
          DiskCache.WriteThenRead(files, layout, translit, recs[0].title, ArchiveCache.WIKITEXT, serialise(recs[0].page));
        } else {
          assert recs[rest.written] == recs[1..][rest.written - 1];
        }
      }
    }
  }

  /** The reference time the throttle compares against before record
      `j`: the clock reading of the last record that printed a line, or 0
      when none has. */
  function LastLine(times: seq<real>, printed: seq<bool>, j: nat): real
    requires j <= |printed| <= |times|
  {
    if j == 0 then 0.0
    else if printed[j - 1] then times[j - 1]
    else LastLine(times, printed, j - 1)
  }

  lemma {:induction false} LastLineAppend(times: seq<real>, printed: seq<bool>, b: bool, j: nat)
    requires j <= |printed| < |times|
    ensures LastLine(times, printed + [b], j) == LastLine(times, printed, j)
  {
    if j > 0 {
      assert (printed + [b])[j - 1] == printed[j - 1];
      LastLineAppend(times, printed, b, j - 1);
    }
  }

  /** The progress throttle of `split_xml`: given the clock reading at
      each record, whether a progress line is written before that record's
      write. A line is written exactly when at least 0.1 s have passed since
      the last line. */
  method ProgressLines(times: seq<real>) returns (printed: seq<bool>)
    ensures |printed| == |times|
    ensures forall j :: 0 <= j < |times| ==>
              (printed[j] <==> times[j] - LastLine(times, printed, j) >= 0.1)
  {
    printed := [];
    var prev := 0.0;
    for i := 0 to |times|
      invariant |printed| == i
      invariant prev == LastLine(times, printed, i)
      invariant forall j :: 0 <= j < i ==> (printed[j] <==> times[j] - LastLine(times, printed, j) >= 0.1)
    {
      var line := times[i] - prev >= 0.1;
      forall j | 0 <= j <= i
        ensures LastLine(times, printed + [line], j) == LastLine(times, printed, j)
      {
        LastLineAppend(times, printed, line, j);
      }
      printed := printed + [line];
      if line {
        prev := times[i];
      }
    }
  }
}
