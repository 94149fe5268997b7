/** The packaged dump splitter (`wikiparse/wikisplitter.py`): page records
    extracted from the completed elements of a streaming parse, and the
    loop that writes each record into the page archive.

    The streaming parse itself is not modelled: the input is the sequence of
    elements in the order their end events arrive. */
module PageSplitter {
  import opened Wrappers
  import opened Strings
  import opened XmlTree
  import opened ArchiveCache

  /** One yielded `(page_name, wikitext)` pair. */
  datatype Record = Record(title: string, wikitext: Option<string>)

  /** How the redirect filter reads `find_el_by_tag(page, "redirect")`:
      `AsWritten` is the Python truth value of the found element (an
      `xml.etree` element is true only when it has children); `ChildPresent`
      is the documented intent, "the page has a redirect child". */
  datatype RedirectTest = AsWritten | ChildPresent

  /** The page's title text, or `UNKNOWN_n` when it has no `title` child. */
  function TitleOr(page: Element, n: nat): string {
    match FindElByTag(page, "title", true)
    case Some(el) => PyStr(el.text)
    case None => UnknownTitle(n)
  }

  /** `title_finder`, with the number of titleless pages seen so far. */
  function TitleFinder(page: Element, unknown: nat): (string, nat) {
    if HasTitle(page, true) then (TitleOr(page, unknown + 1), unknown)
    else (TitleOr(page, unknown + 1), unknown + 1)
  }

  /** Child `i` of `e` is the first whose `no_ns` tag is `tag`. */
  predicate FirstChild(e: Element, tag: string, i: int) {
    0 <= i < |e.children| && NoNs(e.children[i].tag) == tag
    && forall h :: 0 <= h < i ==> NoNs(e.children[h].tag) != tag
  }

  /** Without a child named `tag` there is no first one; otherwise the
      search finds the first. */
  lemma FindFirstChild(e: Element, tag: string)
    ensures FindElByTag(e, tag, true).None? <==> forall i :: 0 <= i < |e.children| ==> NoNs(e.children[i].tag) != tag
    ensures forall i :: FirstChild(e, tag, i) ==> FindElByTag(e, tag, true) == Some(e.children[i])
    ensures FindElByTag(e, tag, true).Some? ==> exists i :: FirstChild(e, tag, i)
  {
    FindElByTagSpec(e, tag, true);
    forall i | FirstChild(e, tag, i) ensures FindElByTag(e, tag, true) == Some(e.children[i]) {
      var j :| 0 <= j < |e.children| && FindElByTag(e, tag, true).value == e.children[j]
               && NoNs(e.children[j].tag) == tag && forall h :: 0 <= h < j ==> NoNs(e.children[h].tag) != tag;
      assert !(i < j) && !(j < i);
    }
  }

  /** `wikitext_finder`: the text of the first `text` child of the first
      `revision` child, or `None` when either is missing. */
  function WikitextFinder(page: Element): (r: Option<string>)
    ensures forall i, j :: FirstChild(page, "revision", i) && FirstChild(page.children[i], "text", j) ==>
              r == page.children[i].children[j].text
    ensures (forall i :: 0 <= i < |page.children| ==> NoNs(page.children[i].tag) != "revision") ==> r.None?
    ensures forall i :: FirstChild(page, "revision", i)
                        && (forall j :: 0 <= j < |page.children[i].children| ==> NoNs(page.children[i].children[j].tag) != "text")
                        ==> r.None?
    ensures r.Some? ==> exists i, j :: FirstChild(page, "revision", i) && FirstChild(page.children[i], "text", j)
  {
    FindFirstChild(page, "revision");
    match FindElByTag(page, "revision", true)
    case None => None
    case Some(rev) =>
      FindFirstChild(rev, "text");
      match FindElByTag(rev, "text", true)
      case None => None
      case Some(t) => t.text
  }

  predicate RedirectFlag(page: Element, test: RedirectTest) {
    match FindElByTag(page, "redirect", true)
    case None => false
    case Some(el) => test.ChildPresent? || |el.children| > 0
  }

  predicate Skipped(page: Element, noRedirects: bool, test: RedirectTest) {
    noRedirects && RedirectFlag(page, test)
  }

  /** `find_pages`, threading the `unknown_index` counter. */
  function FindPagesFrom(events: seq<Element>, noRedirects: bool, test: RedirectTest,
                         unknown: nat): seq<Record>
  {
    if |events| == 0 then []
    else if !IsPage(events[0], true) then FindPagesFrom(events[1..], noRedirects, test, unknown)
    else
      var (title, next) := TitleFinder(events[0], unknown);
      var rest := FindPagesFrom(events[1..], noRedirects, test, next);
      if Skipped(events[0], noRedirects, test) then rest
      else [Record(title, WikitextFinder(events[0]))] + rest
  }

  function FindPages(events: seq<Element>, noRedirects: bool, test: RedirectTest): seq<Record> {
    FindPagesFrom(events, noRedirects, test, 0)
  }

  // ----- reference definitions -----

  /** The record the `k`-th page should produce: its title text, or
      `UNKNOWN_n` where `n` counts the titleless pages up to this one. */
  function ExpectedRecord(pages: seq<Element>, k: nat, unknown: nat): Record
    requires k < |pages|
  {
    Record(TitleOr(pages[k], unknown + TitlelessCount(pages[..k], true) + 1), WikitextFinder(pages[k]))
  }

  /** The records whose page is not skipped. */
  function KeptRecords(recs: seq<Record>, pages: seq<Element>, noRedirects: bool,
                       test: RedirectTest): seq<Record>
    requires |recs| == |pages|
  {
    if |recs| == 0 then []
    else
      var rest := KeptRecords(recs[1..], pages[1..], noRedirects, test);
      if Skipped(pages[0], noRedirects, test) then rest else [recs[0]] + rest
  }

  /** The first page's expected record is what `title_finder` and
      `wikitext_finder` give for it. */
  lemma ExpectedRecordHead(pages: seq<Element>, unknown: nat)
    requires |pages| > 0
    ensures ExpectedRecord(pages, 0, unknown)
            == Record(TitleFinder(pages[0], unknown).0, WikitextFinder(pages[0]))
  {
    assert pages[..0] == [];
  }

  /** Dropping the first page shifts positions by one and advances the
      counter past it when it is titleless. */
  lemma ExpectedRecordShift(pages: seq<Element>, k: nat, unknown: nat)
    requires 1 <= k < |pages|
    ensures ExpectedRecord(pages, k, unknown)
            == ExpectedRecord(pages[1..], k - 1, TitleFinder(pages[0], unknown).1)
  {
    TitlelessCountStep(pages, k, true);
    assert pages[k] == pages[1..][k - 1];
    assert unknown + TitlelessCount(pages[..k], true)
           == TitleFinder(pages[0], unknown).1 + TitlelessCount(pages[1..][..k - 1], true);
  }

  /** Without redirect filtering every page yields exactly one record, in
      document order, and the `n`-th titleless page is `UNKNOWN_n`. */
  lemma {:induction false} FindPagesAllRecords(events: seq<Element>, test: RedirectTest, unknown: nat)
    ensures |FindPagesFrom(events, false, test, unknown)| == |Pages(events, true)|
    ensures forall k :: 0 <= k < |Pages(events, true)| ==>
              FindPagesFrom(events, false, test, unknown)[k] == ExpectedRecord(Pages(events, true), k, unknown)
  {
    if |events| == 0 {
    } else if !IsPage(events[0], true) {
      FindPagesAllRecords(events[1..], test, unknown);
    } else {
      var pages := Pages(events, true);
      var next := TitleFinder(events[0], unknown).1;
      FindPagesAllRecords(events[1..], test, next);
      var out := FindPagesFrom(events, false, test, unknown);
      var rest := FindPagesFrom(events[1..], false, test, next);
      assert pages[0] == events[0] && pages[1..] == Pages(events[1..], true);
      assert out == [Record(TitleFinder(events[0], unknown).0, WikitextFinder(events[0]))] + rest;
      ExpectedRecordHead(pages, unknown);
      forall k | 1 <= k < |pages|
        ensures out[k] == ExpectedRecord(pages, k, unknown)
      {
        ExpectedRecordShift(pages, k, unknown);
      }
    }
  }

  /** With filtering on, the output is the unfiltered output minus the
      skipped pages: titles, and `UNKNOWN` numbers, are assigned before the
      redirect decision, so skipped pages still consume counter values. */
  lemma {:induction false} RedirectFilterDropsOnlySkipped(events: seq<Element>, noRedirects: bool,
                                                         test: RedirectTest, unknown: nat)
    ensures |FindPagesFrom(events, false, test, unknown)| == |Pages(events, true)|
    ensures FindPagesFrom(events, noRedirects, test, unknown)
            == KeptRecords(FindPagesFrom(events, false, test, unknown), Pages(events, true), noRedirects, test)
  {
    FindPagesAllRecords(events, test, unknown);
    if |events| == 0 {
    } else if !IsPage(events[0], true) {
      RedirectFilterDropsOnlySkipped(events[1..], noRedirects, test, unknown);
    } else {
      var next := TitleFinder(events[0], unknown).1;
      RedirectFilterDropsOnlySkipped(events[1..], noRedirects, test, next);
      var all := FindPagesFrom(events, false, test, unknown);
      assert all[1..] == FindPagesFrom(events[1..], false, test, next);
      assert Pages(events, true)[1..] == Pages(events[1..], true);
    }
  }

  /** A lower-case tag without a namespace is its own key. */
  lemma NoNsPlain(tag: string)
    requires '}' !in tag
    requires forall i :: 0 <= i < |tag| ==> !IsUpper(tag[i])
    ensures NoNs(tag) == tag
  {
    NoNsSpec("", tag);
  }

  /** A page titled "A" whose only other child is an empty `redirect`. */
  function EmptyRedirectPage(): Element {
    Element("page", None, [Element("title", Some("A"), []), Element("redirect", None, [])])
  }

  /** Child lookup in a page with two children of different keys. */
  lemma FindInPair(page: Element, tag: string)
    requires |page.children| == 2
    requires TagKey(page.children[0].tag, true) != TagKey(page.children[1].tag, true)
    ensures tag == TagKey(page.children[0].tag, true) ==> FindElByTag(page, tag, true) == Some(page.children[0])
    ensures tag == TagKey(page.children[1].tag, true) ==> FindElByTag(page, tag, true) == Some(page.children[1])
    ensures tag != TagKey(page.children[0].tag, true) && tag != TagKey(page.children[1].tag, true) ==>
              FindElByTag(page, tag, true) == None
  {
    var r := FindChild(page.children, tag, true);
    FindChildSpec(page.children, tag, true);
    assert r.Some? ==> r.value == 0 || r.value == 1;
  }

  lemma EmptyRedirectPageLookups()
    ensures IsPage(EmptyRedirectPage(), true)
    ensures FindElByTag(EmptyRedirectPage(), "title", true) == Some(Element("title", Some("A"), []))
    ensures FindElByTag(EmptyRedirectPage(), "redirect", true) == Some(Element("redirect", None, []))
    ensures FindElByTag(EmptyRedirectPage(), "revision", true) == None
  {
    var page := EmptyRedirectPage();
    NoNsPlain("page");
    NoNsPlain("title");
    NoNsPlain("redirect");
    assert |"title"| != |"redirect"| && |"title"| != |"revision"|;
    assert "redirect"[2] != "revision"[2];
    FindInPair(page, "title");
    FindInPair(page, "redirect");
    FindInPair(page, "revision");
  }

  /** The redirect test as written keeps a page whose `redirect` child is
      empty -- the shape MediaWiki exports use (`<redirect title="X" />`);
      the intended test drops it. */
  lemma AsWrittenKeepsEmptyRedirect()
    ensures FindPages([EmptyRedirectPage()], true, AsWritten) == [Record("A", None)]
    ensures FindPages([EmptyRedirectPage()], true, ChildPresent) == []
  {
    var page := EmptyRedirectPage();
    EmptyRedirectPageLookups();
    assert TitleFinder(page, 0).0 == "A";
    assert WikitextFinder(page) == None;
    assert !RedirectFlag(page, AsWritten) && RedirectFlag(page, ChildPresent);
    assert [page][1..] == [];
  }

  /** With the intended test, a page is dropped exactly when it has a
      `redirect` child. */
  lemma ChildPresentDropsRedirectPages(page: Element)
    ensures Skipped(page, true, ChildPresent)
            <==> exists j :: 0 <= j < |page.children| && NoNs(page.children[j].tag) == "redirect"
  {
    FindElByTagSpec(page, "redirect", true);
  }

  /** The as-written test drops a page only when its first `redirect` child
      itself has children. */
  lemma AsWrittenDropsNonEmptyRedirectOnly(page: Element)
    ensures Skipped(page, true, AsWritten)
            <==> exists j :: 0 <= j < |page.children| && NoNs(page.children[j].tag) == "redirect"
                             && |page.children[j].children| > 0
                             && forall i :: 0 <= i < j ==> NoNs(page.children[i].tag) != "redirect"
  {
    var cs := page.children;
    var keys := ChildKeys(cs, true);
    SkippedByKeys(page);
    FirstKeyHasChildren(cs, keys, "redirect");
    KeysAreNoNs(cs, keys, "redirect");
  }

  lemma SkippedByKeys(page: Element)
    ensures var keys := ChildKeys(page.children, true);
            Skipped(page, true, AsWritten)
            <==> (FirstIndex(keys, "redirect").Some? && FirstIndex(keys, "redirect").value < |page.children|
                  && |page.children[FirstIndex(keys, "redirect").value].children| > 0)
  {
    var cs := page.children;
    FindChildSpec(cs, "redirect", true);
    assert FindElByTag(page, "redirect", true)
           == if FindChild(cs, "redirect", true).Some? then Some(cs[FindChild(cs, "redirect", true).value]) else None;
  }

  /** Matching on the computed keys is matching on `no_ns` of the tags. */
  lemma KeysAreNoNs(cs: seq<Element>, keys: seq<string>, tag: string)
    requires keys == ChildKeys(cs, true)
    ensures (exists j :: 0 <= j < |cs| && keys[j] == tag && |cs[j].children| > 0
                         && forall i :: 0 <= i < j ==> keys[i] != tag)
            <==> exists j :: 0 <= j < |cs| && NoNs(cs[j].tag) == tag && |cs[j].children| > 0
                             && forall i :: 0 <= i < j ==> NoNs(cs[i].tag) != tag
  {
    assert forall m :: 0 <= m < |cs| ==> keys[m] == NoNs(cs[m].tag);
  }

  /** The child at the first position whose key is `tag` has children
      exactly when some child with that key, none before it, has children. */
  lemma FirstKeyHasChildren(cs: seq<Element>, keys: seq<string>, tag: string)
    requires |keys| == |cs|
    ensures (FirstIndex(keys, tag).Some? && FirstIndex(keys, tag).value < |cs|
             && |cs[FirstIndex(keys, tag).value].children| > 0)
            <==> exists j :: 0 <= j < |cs| && keys[j] == tag && |cs[j].children| > 0
                             && forall i :: 0 <= i < j ==> keys[i] != tag
  {
    var r := FirstIndex(keys, tag);
    FirstIndexSpec(keys, tag);
    if r.Some? {
      forall j | 0 <= j < |cs| && keys[j] == tag && forall i :: 0 <= i < j ==> keys[i] != tag
        ensures j == r.value
      {
      }
    } else {
      forall j | 0 <= j < |cs| ensures keys[j] != tag {
        assert keys[j] in keys;
      }
    }
  }

  /** The outcome of `split_xml`: the archive and the titles whose write
      raised (reported, then skipped). */
  datatype SplitOutcome = SplitOutcome(archive: Archive, failed: seq<string>)

  /** The loop of `split_xml`: each record goes through `write_wikitext`;
      an exception is reported and swallowed, and later records are still
      written. */
  function SplitXml(a: Archive, recs: seq<Record>, overwrite: bool): (r: SplitOutcome)
    decreases |recs|
    ensures forall n :: n in NameList(a) ==> n in NameList(r.archive)
    ensures forall k :: 0 <= k < |recs| && recs[k].wikitext.Some? ==>
              PickPath(recs[k].title, WIKITEXT) in NameList(r.archive)
    ensures forall t :: t in r.failed ==>
              exists k :: 0 <= k < |recs| && recs[k].title == t && recs[k].wikitext.None?
    ensures |r.failed| <= |recs|
  {
    if |recs| == 0 then SplitOutcome(a, [])
    else
      var w := WritePage(a, recs[0].title, WIKITEXT, recs[0].wikitext, overwrite);
      var next := if w.Success? then w.value else a;
      var rest := SplitXml(next, recs[1..], overwrite);
      assert forall k :: 1 <= k < |recs| ==> recs[k] == recs[1..][k - 1];
      if w.Success? then rest else SplitOutcome(rest.archive, [recs[0].title] + rest.failed)
  }

  /** The archive after one record has gone through `output_page`. */
  function Next(a: Archive, rec: Record, overwrite: bool): Archive {
    var w := WritePage(a, rec.title, WIKITEXT, rec.wikitext, overwrite);
    if w.Success? then w.value else a
  }

  /** What one record does to the archive: it adds at most its own name,
      stores its wikitext when the write goes through, and raises exactly
      when it has no wikitext and the write is not suppressed. */
  lemma NextFacts(a: Archive, rec: Record, overwrite: bool)
    ensures var name := PickPath(rec.title, WIKITEXT);
            forall n :: n in NameList(Next(a, rec, overwrite)) <==> n in NameList(a) || (rec.wikitext.Some? && n == name)
    ensures forall n :: n != PickPath(rec.title, WIKITEXT) ==> Lookup(Next(a, rec, overwrite), n) == Lookup(a, n)
    ensures var name := PickPath(rec.title, WIKITEXT);
            rec.wikitext.Some? && (overwrite || name !in NameList(a)) ==> Lookup(Next(a, rec, overwrite), name) == rec.wikitext
    ensures !overwrite && PickPath(rec.title, WIKITEXT) in NameList(a) ==> Next(a, rec, overwrite) == a
    ensures WritePage(a, rec.title, WIKITEXT, rec.wikitext, overwrite).Failure?
            <==> rec.wikitext.None? && (overwrite || PickPath(rec.title, WIKITEXT) !in NameList(a))
  {
    var w := WritePage(a, rec.title, WIKITEXT, rec.wikitext, overwrite);
    if w.Success? {
      WritePageFrame(a, rec.title, WIKITEXT, rec.wikitext, overwrite);
    }
  }

  /** Two records name the same member exactly when they have the same title. */
  lemma SameMember(t1: string, t2: string)
    ensures PickPath(t1, WIKITEXT) == PickPath(t2, WIKITEXT) <==> t1 == t2
  {
    if PickPath(t1, WIKITEXT) == PickPath(t2, WIKITEXT) {
      PickPathInjective(t1, t2, WIKITEXT, WIKITEXT);
    }
  }

  /** Before record `k` is written, its member name is present: it was in
      the archive already, or an earlier record with the same title had
      wikitext (every such write either stores it or finds it present). */
  predicate Present(a: Archive, recs: seq<Record>, k: nat)
    requires k < |recs|
  {
    PickPath(recs[k].title, WIKITEXT) in NameList(a) ||
    exists j :: 0 <= j < k && recs[j].wikitext.Some? && recs[j].title == recs[k].title
  }

  /** Record `k`'s write raises: it has no wikitext and is not suppressed. */
  predicate Raises(a: Archive, recs: seq<Record>, k: nat, overwrite: bool)
    requires k < |recs|
  {
    recs[k].wikitext.None? && (overwrite || !Present(a, recs, k))
  }

  /** A reference for the report: the titles of the records from `k` on
      whose write raises, in record order, judged against the archive the
      loop started from. */
  function FailedFrom(a: Archive, recs: seq<Record>, overwrite: bool, k: nat): (r: seq<string>)
    requires k <= |recs|
    ensures |r| <= |recs| - k
    decreases |recs| - k
  {
    if k == |recs| then []
    else (if Raises(a, recs, k, overwrite) then [recs[k].title] else []) + FailedFrom(a, recs, overwrite, k + 1)
  }

  /** A title is reported exactly when some record with that title raises. */
  lemma {:induction false} FailedFromMembers(a: Archive, recs: seq<Record>, overwrite: bool, k: nat, t: string)
    requires k <= |recs|
    ensures t in FailedFrom(a, recs, overwrite, k)
            <==> exists i :: k <= i < |recs| && Raises(a, recs, i, overwrite) && recs[i].title == t
    decreases |recs| - k
  {
    if k < |recs| {
      FailedFromMembers(a, recs, overwrite, k + 1, t);
    }
  }

  /** After the first record, presence of the later ones reads the same
      against the updated archive. */
  lemma RaisesShift(a: Archive, recs: seq<Record>, overwrite: bool, k: nat)
    requires 1 <= k < |recs|
    ensures Raises(Next(a, recs[0], overwrite), recs[1..], k - 1, overwrite) == Raises(a, recs, k, overwrite)
  {
    var next := Next(a, recs[0], overwrite);
    var tl := recs[1..];
    NextFacts(a, recs[0], overwrite);
    SameMember(recs[0].title, recs[k].title);
    assert tl[k - 1] == recs[k];
    assert (exists j :: 0 <= j < k - 1 && tl[j].wikitext.Some? && tl[j].title == tl[k - 1].title)
           <==> (exists j :: 1 <= j < k && recs[j].wikitext.Some? && recs[j].title == recs[k].title) by {
      forall j | 1 <= j < k ensures tl[j - 1] == recs[j] { }
    }
  }

  lemma {:induction false} FailedShift(a: Archive, recs: seq<Record>, overwrite: bool, k: nat)
    requires 1 <= k <= |recs|
    ensures FailedFrom(Next(a, recs[0], overwrite), recs[1..], overwrite, k - 1) == FailedFrom(a, recs, overwrite, k)
    decreases |recs| - k
  {
    if k < |recs| {
      RaisesShift(a, recs, overwrite, k);
      FailedShift(a, recs, overwrite, k + 1);
      assert recs[1..][k - 1] == recs[k];
    }
  }

  /** The loop reports exactly the records whose write raises, in record
      order: those without wikitext whose write is not suppressed because
      overwriting is off and the name is already present. */
  lemma {:induction false} SplitXmlFailed(a: Archive, recs: seq<Record>, overwrite: bool)
    ensures SplitXml(a, recs, overwrite).failed == FailedFrom(a, recs, overwrite, 0)
    decreases |recs|
  {
    if |recs| > 0 {
      var next := Next(a, recs[0], overwrite);
      SplitXmlFailed(next, recs[1..], overwrite);
      FailedShift(a, recs, overwrite, 1);
      NextFacts(a, recs[0], overwrite);
    }
  }

  /** A member no record writes keeps its content. */
  lemma {:induction false} SplitXmlOthersUnchanged(a: Archive, recs: seq<Record>, overwrite: bool, name: string)
    requires forall k :: 0 <= k < |recs| && recs[k].wikitext.Some? ==> PickPath(recs[k].title, WIKITEXT) != name
    ensures Lookup(SplitXml(a, recs, overwrite).archive, name) == Lookup(a, name)
    decreases |recs|
  {
    if |recs| > 0 {
      var next := Next(a, recs[0], overwrite);
      NextFacts(a, recs[0], overwrite);
      assert Lookup(next, name) == Lookup(a, name);
      assert forall k :: 0 <= k < |recs| - 1 ==> recs[1..][k] == recs[k + 1];
      SplitXmlOthersUnchanged(next, recs[1..], overwrite, name);
    }
  }

  /** With overwriting off, a member already present keeps its content. */
  lemma {:induction false} SplitXmlKeepsPresent(a: Archive, recs: seq<Record>, name: string)
    requires name in NameList(a)
    ensures Lookup(SplitXml(a, recs, false).archive, name) == Lookup(a, name)
    decreases |recs|
  {
    if |recs| > 0 {
      var next := Next(a, recs[0], false);
      NextFacts(a, recs[0], false);
      assert Lookup(next, name) == Lookup(a, name) && name in NameList(next);
      SplitXmlKeepsPresent(next, recs[1..], name);
    }
  }

  /** With overwriting on, the last record with wikitext for a title decides
      the content of its member. */
  lemma {:induction false} SplitXmlLastWriteWins(a: Archive, recs: seq<Record>, k: nat)
    requires k < |recs| && recs[k].wikitext.Some?
    requires forall j :: k < j < |recs| && recs[j].title == recs[k].title ==> recs[j].wikitext.None?
    ensures Lookup(SplitXml(a, recs, true).archive, PickPath(recs[k].title, WIKITEXT)) == recs[k].wikitext
    decreases |recs|
  {
    var next := Next(a, recs[0], true);
    var name := PickPath(recs[k].title, WIKITEXT);
    var tl := recs[1..];
    assert forall j :: 0 <= j < |tl| ==> tl[j] == recs[j + 1];
    if k == 0 {
      NextFacts(a, recs[0], true);
      forall j | 0 <= j < |tl| && tl[j].wikitext.Some? ensures PickPath(tl[j].title, WIKITEXT) != name {
        SameMember(tl[j].title, recs[0].title);
      }
      SplitXmlOthersUnchanged(next, tl, true, name);
    } else {
      SplitXmlLastWriteWins(next, tl, k - 1);
    }
  }

  /** With overwriting off, the first record with wikitext for a title not
      yet in the archive decides the content of its member. */
  lemma {:induction false} SplitXmlFirstWriteKept(a: Archive, recs: seq<Record>, k: nat)
    requires k < |recs| && recs[k].wikitext.Some?
    requires PickPath(recs[k].title, WIKITEXT) !in NameList(a)
    requires forall j :: 0 <= j < k && recs[j].title == recs[k].title ==> recs[j].wikitext.None?
    ensures Lookup(SplitXml(a, recs, false).archive, PickPath(recs[k].title, WIKITEXT)) == recs[k].wikitext
    decreases |recs|
  {
    var next := Next(a, recs[0], false);
    var name := PickPath(recs[k].title, WIKITEXT);
    var tl := recs[1..];
    NextFacts(a, recs[0], false);
    if k == 0 {
      SplitXmlKeepsPresent(next, tl, name);
    } else {
      SameMember(recs[0].title, recs[k].title);
      assert name !in NameList(next);
      assert forall j :: 0 <= j < |tl| ==> tl[j] == recs[j + 1];
      SplitXmlFirstWriteKept(next, tl, k - 1);
    }
  }
}
