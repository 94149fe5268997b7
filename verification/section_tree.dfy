/** `WikiPage.section_tree` of the root page loader: a worklist that places
    each section under the node recorded for its parent's title, deferring
    sections whose parent is not placed yet. */
module SectionTree {
  import opened Wrappers
  import opened Strings

  /** The title of the fake root section, `str(root_section.title)`. */
  const RootTitle := "__ROOT"

  /** A section as the loop sees it: `str(section.title)` and the title of
      its enclosing section, `str(section.section.title)`, both unstripped. */
  datatype Sec = Sec(title: string, parentTitle: string)

  /** One assignment `flat[title] = cur; flat[parent_title][1][title] = cur`:
      the section, its key in `flat` (the stripped title), and the node it
      went under -- the root node, or the node of an earlier (or this same)
      placement. */
  datatype Placed = Placed(sec: Sec, key: string, under: Option<nat>)

  function Key(p: Placed): string {
    p.key
  }

  function Secs(placed: seq<Placed>): (r: seq<Sec>)
    ensures |r| == |placed| && forall i :: 0 <= i < |r| ==> r[i] == placed[i].sec
  {
    if |placed| == 0 then [] else Secs(placed[..|placed| - 1]) + [placed[|placed| - 1].sec]
  }

  /** The placement `flat[key]` currently holds: the last one recorded with
      that key, since a later assignment replaces the value. */
  function LastKey(placed: seq<Placed>, key: string): (r: Option<nat>)
    ensures r.Some? ==> r.value < |placed| && Key(placed[r.value]) == key
    ensures r.Some? ==> forall j :: r.value < j < |placed| ==> Key(placed[j]) != key
    ensures r.None? ==> forall j :: 0 <= j < |placed| ==> Key(placed[j]) != key
  {
    if |placed| == 0 then None
    else if Key(placed[|placed| - 1]) == key then Some(|placed| - 1)
    else LastKey(placed[..|placed| - 1], key)
  }

  /** `parent_title in flat`: the root's title, or the key of a placement. */
  predicate InFlat(placed: seq<Placed>, title: string) {
    title == RootTitle || LastKey(placed, title).Some?
  }

  /** Placement `i` went under the node `flat` held for its parent title
      right after `flat[title]` was assigned, and that title was in `flat`
      before. */
  predicate WellPlacedAt(placed: seq<Placed>, i: nat)
    requires i < |placed|
  {
    var t := placed[i].sec.parentTitle;
    placed[i].key == Strip(placed[i].sec.title) &&
    (t == RootTitle || exists h :: 0 <= h < i && Key(placed[h]) == t) &&
    match placed[i].under
    case Some(j) => j <= i && Key(placed[j]) == t && forall h :: j < h <= i ==> Key(placed[h]) != t
    case None => t == RootTitle && forall h :: 0 <= h <= i ==> Key(placed[h]) != t
  }

  predicate WellPlaced(placed: seq<Placed>) {
    forall i :: 0 <= i < |placed| ==> WellPlacedAt(placed, i)
  }

  /** No section is lost or duplicated between the worklist and `flat`. */
  predicate Conserves(work: seq<Sec>, placed: seq<Placed>, work0: seq<Sec>, placed0: seq<Placed>) {
    multiset(work) + multiset(Secs(placed)) == multiset(work0) + multiset(Secs(placed0))
  }

  /** Appending a placement that is well placed keeps the rest so. */
  lemma AppendWellPlaced(placed: seq<Placed>, x: Placed)
    requires WellPlaced(placed) && WellPlacedAt(placed + [x], |placed|)
    ensures WellPlaced(placed + [x])
  {
    var p := placed + [x];
    forall i | 0 <= i < |placed| ensures WellPlacedAt(p, i) {
      assert WellPlacedAt(placed, i);
      assert forall h :: 0 <= h <= i ==> p[h] == placed[h];
    }
  }

  /** The placement recorded for `sec` when its parent title is in `flat`. */
  function Place(placed: seq<Placed>, sec: Sec): (x: Placed)
    requires InFlat(placed, sec.parentTitle)
    ensures x.sec == sec && WellPlacedAt(placed + [x], |placed|)
  {
    var key := Strip(sec.title);
    var under := if key == sec.parentTitle then Some(|placed|) else LastKey(placed, sec.parentTitle);
    var x := Placed(sec, key, under);
    var p := placed + [x];
    assert forall h :: 0 <= h < |placed| ==> p[h] == placed[h];
    assert sec.parentTitle != RootTitle ==> p[LastKey(placed, sec.parentTitle).value].key == sec.parentTitle;
    x
  }

  /** One iteration of the inner loop: take the first section; place it if
      its parent title is in `flat`, otherwise append it to the worklist.
      The parent node is looked up after `flat[title]` is assigned, so a
      section whose stripped title equals its parent title goes under its
      own node. */
  function Step(work: seq<Sec>, placed: seq<Placed>): (r: (seq<Sec>, seq<Placed>))
    requires |work| > 0
    ensures InFlat(placed, work[0].parentTitle) ==> r == (work[1..], placed + [Place(placed, work[0])])
    ensures !InFlat(placed, work[0].parentTitle) ==> r == (work[1..] + [work[0]], placed)
    ensures placed <= r.1 && |r.0| + |r.1| == |work| + |placed|
    ensures WellPlaced(placed) ==> WellPlaced(r.1)
  {
    var sec := work[0];
    if !InFlat(placed, sec.parentTitle) then
      (work[1..] + [sec], placed)
    else
      var x := Place(placed, sec);
      var p := placed + [x];
      if WellPlaced(placed) then
        AppendWellPlaced(placed, x);
        (work[1..], p)
      else (work[1..], p)
  }

  /** A step moves one section from the worklist to `flat` or back to the
      end of the worklist, and loses none. */
  lemma StepConserves(work: seq<Sec>, placed: seq<Placed>)
    requires |work| > 0
    ensures var r := Step(work, placed); Conserves(r.0, r.1, work, placed)
  {
    var sec := work[0];
    assert work == [sec] + work[1..];
    if InFlat(placed, sec.parentTitle) {
      var p := placed + [Place(placed, sec)];
      assert Secs(p) == Secs(placed) + [sec];
    }
  }

  /** One pass of the inner `for` loop, `n` iterations long, carrying
      `prev_len`, which each iteration resets to the worklist length before
      it takes a section. */
  function Pass(work: seq<Sec>, placed: seq<Placed>, n: nat, prevLen: nat): (r: (seq<Sec>, seq<Placed>, nat))
    requires n <= |work|
    ensures placed <= r.1 && |r.0| + |r.1| == |work| + |placed|
    ensures WellPlaced(placed) ==> WellPlaced(r.1)
    ensures n == 0 ==> r == (work, placed, prevLen)
    ensures n > 0 ==> |r.0| <= r.2 <= |work|
    decreases n
  {
    if n == 0 then (work, placed, prevLen)
    else
      var s := Step(work, placed);
      Pass(s.0, s.1, n - 1, |work|)
  }

  /** A pass loses no section. */
  lemma {:induction false} PassConserves(work: seq<Sec>, placed: seq<Placed>, n: nat, prevLen: nat)
    requires n <= |work|
    ensures var r := Pass(work, placed, n, prevLen); Conserves(r.0, r.1, work, placed)
    decreases n
  {
    if n > 0 {
      var s := Step(work, placed);
      var r := Pass(s.0, s.1, n - 1, |work|);
      assert Pass(work, placed, n, prevLen) == r;
      StepConserves(work, placed);
      PassConserves(s.0, s.1, n - 1, |work|);
      ConservesTrans(r.0, r.1, s.0, s.1, work, placed);
    }
  }

  lemma ConservesTrans(w2: seq<Sec>, p2: seq<Placed>, w1: seq<Sec>, p1: seq<Placed>,
                       w0: seq<Sec>, p0: seq<Placed>)
    requires Conserves(w2, p2, w1, p1) && Conserves(w1, p1, w0, p0)
    ensures Conserves(w2, p2, w0, p0)
  {
  }

  /** In a pass that places nothing the first section was deferred. */
  lemma FirstDeferred(work: seq<Sec>, placed: seq<Placed>, n: nat, prevLen: nat)
    requires 0 < n <= |work| && |Pass(work, placed, n, prevLen).1| == |placed|
    ensures !InFlat(placed, work[0].parentTitle)
    ensures |Pass(work[1..] + [work[0]], placed, n - 1, |work|).1| == |placed|
    ensures Pass(work, placed, n, prevLen) == Pass(work[1..] + [work[0]], placed, n - 1, |work|)
  {
    var s := Step(work, placed);
    var r := Pass(s.0, s.1, n - 1, |work|);
    assert Pass(work, placed, n, prevLen) == r;
  }

  /** A pass that places nothing has deferred every section it examined,
      and has rotated them to the back. */
  lemma {:induction false} PassNonePlaced(work: seq<Sec>, placed: seq<Placed>, n: nat, prevLen: nat)
    requires n <= |work| && |Pass(work, placed, n, prevLen).1| == |placed|
    ensures Pass(work, placed, n, prevLen).0 == work[n..] + work[..n]
    ensures AllDeferred(placed, work, n)
    decreases n
  {
    if n > 0 {
      var w := work[1..] + [work[0]];
      FirstDeferred(work, placed, n, prevLen);
      PassNonePlaced(w, placed, n - 1, |work|);
      RotatedTail(work, n, Pass(w, placed, n - 1, |work|).0);
      forall k | 0 <= k < n ensures !InFlat(placed, work[k].parentTitle) {
        if k > 0 {
          assert work[k] == w[k - 1];
        }
      }
    }
  }

  /** None of the first `n` sections has its parent title in `flat`. */
  predicate AllDeferred(placed: seq<Placed>, work: seq<Sec>, n: nat)
    requires n <= |work|
  {
    forall k :: 0 <= k < n ==> !InFlat(placed, work[k].parentTitle)
  }

  /** The `prev_len` a pass leaves equals the final worklist length exactly
      when its last iteration deferred its section. */
  lemma {:induction false} PassPrevLen(work: seq<Sec>, placed: seq<Placed>, n: nat, prevLen: nat)
    requires 0 < n <= |work|
    ensures var r := Pass(work, placed, n, prevLen); r.2 == |r.0| <==> LastDeferred(work, placed, n)
    decreases n
  {
    var s := Step(work, placed);
    assert Pass(work, placed, n, prevLen) == Pass(s.0, s.1, n - 1, |work|);
    if n == 1 {
      assert LastDeferred(work, placed, n) == (s.1 == placed);
      assert |s.1| == |placed| ==> s.1 == placed;
    } else {
      assert LastDeferred(work, placed, n) == LastDeferred(s.0, s.1, n - 1);
      PassPrevLen(s.0, s.1, n - 1, |work|);
    }
  }

  /** `n` deferrals rotate the first `n` sections to the back. */
  /** The rotation of the tail after one more rotation is the rotation by
      `n`. */
  lemma RotatedTail(work: seq<Sec>, n: nat, x: seq<Sec>)
    requires 0 < n <= |work|
    requires var s := work[1..] + [work[0]]; x == s[n - 1..] + s[..n - 1]
    ensures x == work[n..] + work[..n]
  {
    RotateOnce(work, n);
  }

  lemma RotateOnce(work: seq<Sec>, n: nat)
    requires 0 < n <= |work|
    ensures var s := work[1..] + [work[0]];
            s[n - 1..] + s[..n - 1] == work[n..] + work[..n] &&
            forall k :: 1 <= k < n ==> work[k] == s[k - 1]
  {
    var s := work[1..] + [work[0]];
    assert s[n - 1..] == work[n..] + [work[0]];
    assert s[..n - 1] == work[1..n];
    assert work[..n] == [work[0]] + work[1..n];
  }

  /** The last of `n` iterations starting from this state deferred its
      section. */
  predicate LastDeferred(work: seq<Sec>, placed: seq<Placed>, n: nat)
    requires 0 < n <= |work|
    decreases n
  {
    var s := Step(work, placed);
    if n == 1 then s.1 == placed else LastDeferred(s.0, s.1, n - 1)
  }

  /** The result: the placements, in order, and the sections left over,
      which become top-level entries of the tree. */
  datatype Tree = Tree(placed: seq<Placed>, remaining: seq<Sec>)

  /** The `while 0 < len(tmp_sections) < prev_len` loop as written. */
  function Loop(work: seq<Sec>, placed: seq<Placed>, prevLen: nat): (r: Tree)
    ensures placed <= r.placed && Conserves(r.remaining, r.placed, work, placed)
    ensures WellPlaced(placed) ==> WellPlaced(r.placed)
    decreases prevLen
  {
    if 0 < |work| < prevLen then
      var p := Pass(work, placed, |work|, prevLen);
      PassConserves(work, placed, |work|, prevLen);
      Loop(p.0, p.1, p.2)
    else Tree(placed, work)
  }

  /** `section_tree()` as written. */
  function SectionTreeOf(secs: seq<Sec>): (r: Tree)
    ensures multiset(r.remaining) + multiset(Secs(r.placed)) == multiset(secs)
    ensures WellPlaced(r.placed)
  {
    assert Secs([]) == [];
    Loop(secs, [], |secs| + 1)
  }

  /** As written the loop ends after any pass whose last section was
      deferred, even when that pass placed others: the section that waited
      for `A` stays unplaced although `A` was placed. */
  lemma SectionTreeStopsEarly()
    ensures SectionTreeOf([Sec("B", "A"), Sec("A", RootTitle), Sec("C", "X")])
            == Tree([Placed(Sec("A", RootTitle), "A", None)], [Sec("B", "A"), Sec("C", "X")])
    ensures InFlat([Placed(Sec("A", RootTitle), "A", None)], "A")
  {
    var b, a, c := Sec("B", "A"), Sec("A", RootTitle), Sec("C", "X");
    var pa := Placed(a, "A", None);
    StopsEarlyPass();
    assert Loop([b, a, c], [], 4) == Loop([b, c], [pa], 2);
    assert Loop([b, c], [pa], 2) == Tree([pa], [b, c]);
  }

  lemma StopsEarlyPass()
    ensures Pass([Sec("B", "A"), Sec("A", RootTitle), Sec("C", "X")], [], 3, 4)
            == ([Sec("B", "A"), Sec("C", "X")], [Placed(Sec("A", RootTitle), "A", None)], 2)
  {
    var b, a, c := Sec("B", "A"), Sec("A", RootTitle), Sec("C", "X");
    var pa := Placed(a, "A", None);
    StopsEarlyFirst();
    StopsEarlySecond();
    StopsEarlyThird();
    assert Pass([c, b], [pa], 1, 3) == Pass([b, c], [pa], 0, 2);
    assert Pass([a, c, b], [], 2, 3) == Pass([c, b], [pa], 1, 3);
    assert Pass([b, a, c], [], 3, 4) == Pass([a, c, b], [], 2, 3);
  }

  lemma StopsEarlyFirst()
    ensures Step([Sec("B", "A"), Sec("A", RootTitle), Sec("C", "X")], [])
            == ([Sec("A", RootTitle), Sec("C", "X"), Sec("B", "A")], [])
  {
    var b, a, c := Sec("B", "A"), Sec("A", RootTitle), Sec("C", "X");
    assert !InFlat([], "A");
    assert [b, a, c][1..] + [b] == [a, c, b];
  }

  lemma StopsEarlySecond()
    ensures Step([Sec("A", RootTitle), Sec("C", "X"), Sec("B", "A")], [])
            == ([Sec("C", "X"), Sec("B", "A")], [Placed(Sec("A", RootTitle), "A", None)])
  {
    var b, a, c := Sec("B", "A"), Sec("A", RootTitle), Sec("C", "X");
    var pa := Placed(a, "A", None);
    assert Strip("A") == "A";
    assert Place([], a) == pa;
    assert [a, c, b][1..] == [c, b];
    assert InFlat([], RootTitle);
    var empty: seq<Placed> := [];
    assert empty + [pa] == [pa];
  }

  lemma StopsEarlyThird()
    ensures Step([Sec("C", "X"), Sec("B", "A")], [Placed(Sec("A", RootTitle), "A", None)])
            == ([Sec("B", "A"), Sec("C", "X")], [Placed(Sec("A", RootTitle), "A", None)])
  {
    var b, a, c := Sec("B", "A"), Sec("A", RootTitle), Sec("C", "X");
    var pa := Placed(a, "A", None);
    assert Strip("A") == "A";
    assert LastKey([pa], "X") == None;
    assert !InFlat([pa], "X");
    assert [c, b][1..] + [c] == [b, c];
  }

  /** The loop as intended: repeat passes while a pass places something. */
  function LoopFixed(work: seq<Sec>, placed: seq<Placed>): (r: Tree)
    ensures placed <= r.placed && Conserves(r.remaining, r.placed, work, placed)
    ensures WellPlaced(placed) ==> WellPlaced(r.placed)
    ensures forall i :: 0 <= i < |r.remaining| ==> !InFlat(r.placed, r.remaining[i].parentTitle)
    decreases |work|
  {
    if |work| == 0 then Tree(placed, work)
    else
      var p := Pass(work, placed, |work|, 0);
      if |p.1| == |placed| then
        PassNonePlaced(work, placed, |work|, 0);
        Tree(placed, work)
      else
        PassConserves(work, placed, |work|, 0);
        LoopFixed(p.0, p.1)
  }

  /** The corrected `section_tree()`: no section that could still be placed
      is left over. */
  function SectionTreeFixed(secs: seq<Sec>): (r: Tree)
    ensures multiset(r.remaining) + multiset(Secs(r.placed)) == multiset(secs)
    ensures WellPlaced(r.placed)
    ensures forall i :: 0 <= i < |r.remaining| ==> !InFlat(r.placed, r.remaining[i].parentTitle)
  {
    assert Secs([]) == [];
    LoopFixed(secs, [])
  }
}

