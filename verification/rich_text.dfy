/** `RichText` of the root page loader: the text segments under an element,
    collected depth-first, and character indexing over them. Elements form a
    graph (a pointer can make an element reachable twice, or from itself), so
    the flattening carries the set of visited elements. */
module RichText {
  import opened Wrappers
  import opened Strings
  import opened PropLabels

  /** What iterating an element yields: a `Text` yields its one string,
      any other element yields its sub-elements (a `Redirection` or an
      `Image` yields none). */
  datatype Item = Leaf(text: string, props: seq<Prop>) | Inner(kids: seq<nat>)

  type Graph = map<nat, Item>

  /** Every sub-element named is itself an element of the page. */
  predicate Closed(g: Graph) {
    forall id, k :: id in g && g[id].Inner? && k in g[id].kids ==> k in g
  }

  /** `ids` lists distinct text elements, each first visited between
      `before` and `after`. */
  predicate Fresh(g: Graph, ids: seq<nat>, before: set<nat>, after: set<nat>) {
    (forall i :: 0 <= i < |ids| ==> ids[i] in after && ids[i] !in before) &&
    (forall i :: 0 <= i < |ids| ==> ids[i] in g && g[ids[i]].Leaf?) &&
    (forall i, j :: 0 <= i < j < |ids| ==> ids[i] != ids[j])
  }

  /** Every text element first visited between `before` and `after` is
      listed in `ids`. */
  predicate Covered(g: Graph, ids: seq<nat>, before: set<nat>, after: set<nat>)
    requires after <= g.Keys
  {
    forall k :: k in after && k !in before && g[k].Leaf? ==> k in ids
  }

  /** Every element first visited between `before` and `after` had all its
      sub-elements visited by `after`. */
  predicate KidsVisited(g: Graph, before: set<nat>, after: set<nat>)
    requires after <= g.Keys
  {
    forall k, c :: k in after && k !in before && g[k].Inner? && c in g[k].kids ==> c in after
  }

  /** `_flatten(element, visited)`: the text elements whose strings are
      appended, in order, and the visited set afterwards. An element not yet
      visited contributes its sub-elements' texts in order; the walk lists
      every text element it visits and leaves no sub-element of a visited
      element unvisited. */
  function Flatten(g: Graph, id: nat, visited: set<nat>): (r: (seq<nat>, set<nat>))
    requires Closed(g) && id in g && visited <= g.Keys
    ensures visited <= r.1 <= g.Keys && id in r.1
    ensures Fresh(g, r.0, visited, r.1)
    ensures Covered(g, r.0, visited, r.1) && KidsVisited(g, visited, r.1)
    ensures id in visited ==> r == ([], visited)
    ensures id !in visited && g[id].Leaf? ==> r == ([id], visited + {id})
    ensures id !in visited && g[id].Inner? ==> r == FlattenList(g, g[id].kids, visited + {id})
    decreases g.Keys - visited, 0, 0
  {
    if id in visited then ([], visited)
    else match g[id]
      case Leaf(_, _) => ([id], visited + {id})
      case Inner(kids) => FlattenList(g, kids, visited + {id})
  }

  /** The loop `for sub_el in element` of `_flatten`. */
  function FlattenList(g: Graph, kids: seq<nat>, visited: set<nat>): (r: (seq<nat>, set<nat>))
    requires Closed(g) && (forall k :: k in kids ==> k in g) && visited <= g.Keys
    ensures visited <= r.1 <= g.Keys
    ensures forall k :: k in kids ==> k in r.1
    ensures Fresh(g, r.0, visited, r.1)
    ensures Covered(g, r.0, visited, r.1) && KidsVisited(g, visited, r.1)
    decreases g.Keys - visited, 1, |kids|
  {
    if |kids| == 0 then ([], visited)
    else
      var a := Flatten(g, kids[0], visited);
      var b := FlattenList(g, kids[1..], a.1);
      (a.0 + b.0, b.1)
  }

  /** The loop visits the sub-elements left to right: walking `xs + ys` is
      walking `xs`, then walking `ys` from where `xs` left the visited set. */
  lemma {:induction false} FlattenListAppend(g: Graph, xs: seq<nat>, ys: seq<nat>, visited: set<nat>)
    requires Closed(g) && (forall k :: k in xs ==> k in g) && (forall k :: k in ys ==> k in g)
    requires visited <= g.Keys
    ensures var a := FlattenList(g, xs, visited);
            FlattenList(g, xs + ys, visited) == (a.0 + FlattenList(g, ys, a.1).0, FlattenList(g, ys, a.1).1)
    decreases |xs|
  {
    if |xs| == 0 {
      assert xs + ys == ys;
      var c := FlattenList(g, ys, visited);
      assert FlattenList(g, xs, visited) == ([], visited);
      assert [] + c.0 == c.0;
    } else {
      ConsAppendTail(xs, ys);
      var f := Flatten(g, xs[0], visited);
      FlattenListAppend(g, xs[1..], ys, f.1);
      var a := FlattenList(g, xs[1..], f.1);
      var c := FlattenList(g, ys, a.1);
      assert f.0 + (a.0 + c.0) == (f.0 + a.0) + c.0;
    }
  }

  /** One entry of `_flat`: a string and the properties of its `Text`. */
  datatype Segment = Segment(text: string, props: seq<Prop>)

  /** `RichText(element)._flat`. */
  function Segments(g: Graph, root: nat): (segs: seq<Segment>)
    requires Closed(g) && root in g
    ensures forall i :: 0 <= i < |segs| ==>
              exists id :: id in g && g[id] == Leaf(segs[i].text, segs[i].props)
  {
    var ids := Flatten(g, root, {}).0;
    seq(|ids|, i requires 0 <= i < |ids| => Segment(g[ids[i]].text, g[ids[i]].props))
  }

  /** `p` walks from element to sub-element. */
  predicate IsPath(g: Graph, p: seq<nat>) {
    |p| > 0 && (forall i :: 0 <= i < |p| ==> p[i] in g) &&
    (forall i :: 0 <= i < |p| - 1 ==> g[p[i]].Inner? && p[i + 1] in g[p[i]].kids)
  }

  /** The walk from the root visits every element reachable from it. */
  lemma {:induction false} PathVisited(g: Graph, root: nat, p: seq<nat>)
    requires Closed(g) && root in g && IsPath(g, p) && p[0] == root
    ensures p[|p| - 1] in Flatten(g, root, {}).1
    decreases |p|
  {
    if |p| > 1 {
      var q := p[..|p| - 1];
      assert IsPath(g, q) by {
        assert forall i :: 0 <= i < |q| ==> q[i] == p[i];
      }
      PathVisited(g, root, q);
      var r := Flatten(g, root, {});
      assert KidsVisited(g, {}, r.1);
      assert p[|p| - 2] in r.1 && g[p[|p| - 2]].Inner? && p[|p| - 1] in g[p[|p| - 2]].kids;
    }
  }

  /** Every `Text` reachable from the root gives a segment, and no text
      element gives two. */
  lemma SegmentsComplete(g: Graph, root: nat, p: seq<nat>)
    requires Closed(g) && root in g && IsPath(g, p) && p[0] == root && g[p[|p| - 1]].Leaf?
    ensures Segment(g[p[|p| - 1]].text, g[p[|p| - 1]].props) in Segments(g, root)
    ensures var ids := Flatten(g, root, {}).0;
            |Segments(g, root)| == |ids| && forall i, j :: 0 <= i < j < |ids| ==> ids[i] != ids[j]
  {
    PathVisited(g, root, p);
    var r := Flatten(g, root, {});
    var last := p[|p| - 1];
    assert Covered(g, r.0, {}, r.1);
    assert last in r.0;
    var i :| 0 <= i < |r.0| && r.0[i] == last;
    assert Segments(g, root)[i] == Segment(g[last].text, g[last].props);
  }

  function Texts(segs: seq<Segment>): (r: seq<string>)
    ensures |r| == |segs| && forall i :: 0 <= i < |r| ==> r[i] == segs[i].text
  {
    if |segs| == 0 then [] else [segs[0].text] + Texts(segs[1..])
  }

  /** `str(rich_text)`: the segments' strings joined in flattening order. */
  function Str(segs: seq<Segment>): string {
    Concat(Texts(segs))
  }

  /** The sum of the segment lengths: what `sum(self._lens)` gives once the
      segments are known. */
  function TotalLen(segs: seq<Segment>): nat {
    if |segs| == 0 then 0 else |segs[0].text| + TotalLen(segs[1..])
  }

  /** A reference view: every character with the properties of the segment
      that holds it. */
  function Expand(segs: seq<Segment>): seq<(char, seq<Prop>)> {
    if |segs| == 0 then []
    else
      var s := segs[0];
      seq(|s.text|, i requires 0 <= i < |s.text| => (s.text[i], s.props)) + Expand(segs[1..])
  }

  /** The per-character view spells out `str()` and has `TotalLen` entries. */
  lemma {:induction false} ExpandSpellsStr(segs: seq<Segment>)
    ensures |Expand(segs)| == |Str(segs)| == TotalLen(segs)
    ensures forall i :: 0 <= i < |Str(segs)| ==> Expand(segs)[i].0 == Str(segs)[i]
  {
    if |segs| > 0 {
      ExpandSpellsStr(segs[1..]);
      assert Texts(segs) == [segs[0].text] + Texts(segs[1..]);
      assert Str(segs) == segs[0].text + Str(segs[1..]);
    }
  }

  /** The segment walk of `__getitem__` once `item` is adjusted: the first
      segment longer than what is left of `item` is indexed with Python's
      `str` indexing, so a negative `item` indexes the first segment from its
      end. */
  function Locate(segs: seq<Segment>, item: int): (r: Result<(char, seq<Prop>)>)
    ensures r.Failure? ==> r.error == "IndexError"
    decreases |segs|
  {
    if |segs| == 0 then Failure("IndexError")
    else
      var t := segs[0].text;
      if item < |t| then
        if 0 <= item then Success((t[item], segs[0].props))
        else if -|t| <= item then Success((t[|t| + item], segs[0].props))
        else Failure("IndexError")
      else Locate(segs[1..], item - |t|)
  }

  /** For an index from the front, the walk finds the character at that
      position of the concatenation, with its segment's properties, and
      raises past the end. */
  lemma {:induction false} LocateMatchesExpand(segs: seq<Segment>, item: int)
    requires item >= 0
    ensures Locate(segs, item)
            == if item < |Expand(segs)| then Success(Expand(segs)[item]) else Failure("IndexError")
    decreases |segs|
  {
    if |segs| > 0 && item >= |segs[0].text| {
      LocateMatchesExpand(segs[1..], item - |segs[0].text|);
    }
  }

  /** `RichText.__getitem__` as written: `_total_len` is summed before the
      segments exist, so it is 0 and a negative `item` is left as it is. */
  function GetItem(segs: seq<Segment>, item: int): (r: Result<(char, seq<Prop>)>)
    ensures 0 <= item < LenFixed(segs) ==> r.Success? && r.value.0 == Str(segs)[item]
    ensures item >= LenFixed(segs) ==> r == Failure("IndexError")
  {
    ExpandSpellsStr(segs);
    if item >= 0 then
      LocateMatchesExpand(segs, item);
      Locate(segs, item)
    else Locate(segs, 0 + item)
  }

  /** `RichText.__len__` as written: always `_total_len`, which is 0. */
  function Len(segs: seq<Segment>): (n: nat)
    ensures n == 0
  {
    0
  }

  /** As written, a negative index addresses the first segment only: `-1`
      is the last character of the first segment, not of the text. */
  lemma GetItemNegativeFirstSegment(segs: seq<Segment>, item: int)
    requires |segs| > 0 && -|segs[0].text| <= item < 0
    ensures GetItem(segs, item) == Success((segs[0].text[|segs[0].text| + item], segs[0].props))
  {
  }

  /** A two-segment text on which the as-written and the intended readings
      of index `-1` and of `len()` differ. */
  lemma GetItemCounterexample()
    ensures GetItem([Segment("ab", []), Segment("cd", [])], -1) == Success(('b', []))
    ensures GetItemFixed([Segment("ab", []), Segment("cd", [])], -1) == Success(('d', []))
    ensures Len([Segment("ab", []), Segment("cd", [])]) == 0
    ensures LenFixed([Segment("ab", []), Segment("cd", [])]) == 4
  {
    var segs := [Segment("ab", []), Segment("cd", [])];
    assert TotalLen(segs) == 4;
    assert Locate(segs, 3) == Locate(segs[1..], 1);
  }

  /** `__len__` with `_total_len` summed after flattening. */
  function LenFixed(segs: seq<Segment>): (n: nat)
    ensures n == |Str(segs)| == |Expand(segs)|
  {
    ExpandSpellsStr(segs);
    TotalLen(segs)
  }

  /** `__getitem__` with `_total_len` summed after flattening and an index
      still negative after adjustment refused: Python sequence indexing over
      the whole text. */
  function GetItemFixed(segs: seq<Segment>, item: int): (r: Result<(char, seq<Prop>)>)
    ensures 0 <= item + LenFixed(segs) && item < LenFixed(segs) ==> r.Success?
    ensures 0 <= item < LenFixed(segs) ==> r.value.0 == Str(segs)[item]
    ensures 0 <= item + LenFixed(segs) && item < 0 ==> r.value.0 == Str(segs)[LenFixed(segs) + item]
    ensures (item + LenFixed(segs) < 0 || LenFixed(segs) <= item) ==> r == Failure("IndexError")
  {
    ExpandSpellsStr(segs);
    var k := if item < 0 then TotalLen(segs) + item else item;
    if k >= 0 then
      LocateMatchesExpand(segs, k);
      Locate(segs, k)
    else Failure("IndexError")
  }

  /** Without the refusal, an index below minus the length would, once
      adjusted, still be negative and index the first segment from its end:
      with the total summed, `-5` on `"ab" + "cd"` would give `'b'`. */
  lemma AdjustedNegativeStillWraps()
    ensures Locate([Segment("ab", []), Segment("cd", [])], 4 + -5) == Success(('b', []))
    ensures GetItemFixed([Segment("ab", []), Segment("cd", [])], -5) == Failure("IndexError")
  {
    assert TotalLen([Segment("ab", []), Segment("cd", [])]) == 4;
  }

  /** The corrected indexing agrees with the per-character view in both
      directions: every in-range index, from either end, returns that
      character with its segment's properties. */
  lemma GetItemFixedMatchesExpand(segs: seq<Segment>, item: int)
    requires 0 <= item + LenFixed(segs) && item < LenFixed(segs)
    ensures GetItemFixed(segs, item)
            == Success(Expand(segs)[if item < 0 then LenFixed(segs) + item else item])
  {
    ExpandSpellsStr(segs);
    LocateMatchesExpand(segs, if item < 0 then TotalLen(segs) + item else item);
  }

  /** For indexes from the front the as-written and corrected versions
      agree; they part only on negative indexes. */
  lemma GetItemAgreesFromFront(segs: seq<Segment>, item: int)
    requires item >= 0
    ensures GetItem(segs, item) == GetItemFixed(segs, item)
  {
  }
}
