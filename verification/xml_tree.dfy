/** A completed element of an `xml.etree` parse, the child lookups the
    three page splitters perform on it, and the page stream they share.

    `folded` selects the matching rule: the packaged splitter compares
    lower-cased local names, the two older splitters compare local names
    exactly. */
module XmlTree {
  import opened Wrappers
  import opened Strings

  /** `text` is `None` for an element with no character data (`<title/>`). */
  datatype Element = Element(tag: string, text: Option<string>, children: seq<Element>)

  /** `tag.rpartition('}')[2]`: the tag without its `{namespace}` prefix. */
  function LocalName(tag: string): string {
    AfterLast(tag, '}')
  }

  /** `no_ns` of the packaged splitter: the local name, lower-cased. */
  function NoNs(tag: string): string {
    Lower(LocalName(tag))
  }

  /** Local names are the text after the last `}`, or the whole tag. */
  lemma NoNsSpec(ns: string, local: string)
    requires '}' !in local
    ensures NoNs(local) == Lower(local)
    ensures NoNs(ns + "}" + local) == Lower(local)
  {
    AfterLastAppend(ns + "}", local, '}');
    AfterLastAppend("", local, '}');
    assert "" + local == local;
  }

  /** The key a child is matched on: `no_ns(tag)` when `folded`, otherwise
      the exact local name (the older splitters). */
  function TagKey(tag: string, folded: bool): string {
    if folded then NoNs(tag) else LocalName(tag)
  }

  /** Position of the first key equal to `tag`. */
  function FirstIndex(keys: seq<string>, tag: string): Option<nat> {
    if |keys| == 0 then None
    else if keys[0] == tag then Some(0)
    else
      var rest := FirstIndex(keys[1..], tag);
      if rest.None? then None else Some(rest.value + 1)
  }

  lemma {:induction false} FirstIndexSpec(keys: seq<string>, tag: string)
    ensures FirstIndex(keys, tag).Some? ==>
              FirstIndex(keys, tag).value < |keys| && keys[FirstIndex(keys, tag).value] == tag
    ensures FirstIndex(keys, tag).Some? ==>
              forall j :: 0 <= j < FirstIndex(keys, tag).value ==> keys[j] != tag
    ensures FirstIndex(keys, tag).None? ==> tag !in keys
  {
    if |keys| > 0 && keys[0] != tag {
      FirstIndexSpec(keys[1..], tag);
      assert keys == [keys[0]] + keys[1..];
    }
  }

  function ChildKeys(children: seq<Element>, folded: bool): seq<string> {
    seq(|children|, j requires 0 <= j < |children| => TagKey(children[j].tag, folded))
  }

  /** Position of the first child, in document order, whose key is `tag`. */
  function FindChild(children: seq<Element>, tag: string, folded: bool): Option<nat> {
    FirstIndex(ChildKeys(children, folded), tag)
  }

  /** The position found holds a child with the key and no earlier child
      has it; no position means no child has it. */
  lemma FindChildSpec(children: seq<Element>, tag: string, folded: bool)
    ensures FindChild(children, tag, folded).Some? ==>
              FindChild(children, tag, folded).value < |children|
              && TagKey(children[FindChild(children, tag, folded).value].tag, folded) == tag
    ensures FindChild(children, tag, folded).Some? ==>
              forall j :: 0 <= j < FindChild(children, tag, folded).value ==> TagKey(children[j].tag, folded) != tag
    ensures FindChild(children, tag, folded).None? ==>
              forall j :: 0 <= j < |children| ==> TagKey(children[j].tag, folded) != tag
  {
    var keys := ChildKeys(children, folded);
    FirstIndexSpec(keys, tag);
    var r := FirstIndex(keys, tag);
    if r.Some? {
      assert keys[r.value] == TagKey(children[r.value].tag, folded);
      forall j | 0 <= j < r.value ensures TagKey(children[j].tag, folded) != tag {
        assert keys[j] == TagKey(children[j].tag, folded);
      }
    } else {
      forall j | 0 <= j < |children| ensures TagKey(children[j].tag, folded) != tag {
        assert keys[j] == TagKey(children[j].tag, folded);
        assert keys[j] in keys;
      }
    }
  }

  /** `find_el_by_tag(element, tag)`: the first matching child or `None`. */
  function FindElByTag(e: Element, tag: string, folded: bool): Option<Element> {
    FindChildSpec(e.children, tag, folded);
    match FindChild(e.children, tag, folded)
    case None => None
    case Some(k) => Some(e.children[k])
  }

  /** A child is found exactly when some child has the key, and the one
      found is a child with the key that no earlier child has. */
  lemma FindElByTagSpec(e: Element, tag: string, folded: bool)
    ensures FindElByTag(e, tag, folded).Some?
            <==> exists j :: 0 <= j < |e.children| && TagKey(e.children[j].tag, folded) == tag
    ensures FindElByTag(e, tag, folded).Some? ==>
              exists j :: 0 <= j < |e.children| && FindElByTag(e, tag, folded).value == e.children[j]
                          && TagKey(e.children[j].tag, folded) == tag
                          && forall i :: 0 <= i < j ==> TagKey(e.children[i].tag, folded) != tag
  {
    var r := FindChild(e.children, tag, folded);
    FindChildSpec(e.children, tag, folded);
    if r.Some? {
      assert TagKey(e.children[r.value].tag, folded) == tag;
    }
  }

  /** `str(el.text)`: an element without text renders as the string "None". */
  function PyStr(text: Option<string>): string {
    match text
    case Some(s) => s
    case None => "None"
  }

  /** `"UNKNOWN_%d" % n`. */
  function UnknownTitle(n: nat): string {
    "UNKNOWN_" + NatToDecimal(n)
  }

  lemma UnknownTitleInjective(m: nat, n: nat)
    requires UnknownTitle(m) == UnknownTitle(n)
    ensures m == n
  {
    assert NatToDecimal(m) == UnknownTitle(m)[8..];
    assert NatToDecimal(n) == UnknownTitle(n)[8..];
    NatToDecimalInjective(m, n);
  }

  predicate IsPage(e: Element, folded: bool) {
    TagKey(e.tag, folded) == "page"
  }

  predicate HasTitle(page: Element, folded: bool) {
    FindElByTag(page, "title", folded).Some?
  }

  /** The `page` elements of the stream, in document order. */
  function Pages(events: seq<Element>, folded: bool): (pages: seq<Element>)
    ensures |pages| <= |events|
  {
    if |events| == 0 then []
    else if IsPage(events[0], folded) then [events[0]] + Pages(events[1..], folded)
    else Pages(events[1..], folded)
  }

  /** How many of `pages` have no `title` child. */
  function TitlelessCount(pages: seq<Element>, folded: bool): nat {
    if |pages| == 0 then 0
    else (if HasTitle(pages[0], folded) then 0 else 1) + TitlelessCount(pages[1..], folded)
  }

  lemma TitlelessCountStep(pages: seq<Element>, k: nat, folded: bool)
    requires 1 <= k <= |pages|
    ensures TitlelessCount(pages[..k], folded)
            == (if HasTitle(pages[0], folded) then 0 else 1) + TitlelessCount(pages[1..][..k - 1], folded)
  {
    assert pages[..k][1..] == pages[1..][..k - 1];
  }
}
