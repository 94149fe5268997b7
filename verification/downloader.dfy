/** The pure pieces of the interactive dump-link finder, shared by its two
    versions (the packaged one and the older top-level script): the menu's
    command completion and result handling, `unique`, the URL and file-prefix
    builders, regex escaping, the type-name extraction of the type menu and
    the extension grouping of the extension menu. Console input is a
    sequence of lines; what a chosen entry does is a parameter. */
module Downloader {
  import opened Wrappers
  import opened Strings

  const DlBase := "https://dumps.wikimedia.org"

  // The menu result codes; `True` compares equal to `Quit`.
  const Back := 0
  const Quit := 1
  const Loop := 2

  /** The key the menu constructor adds: `'BACK'` in the packaged version,
      `'back'` in the older one. */
  const PackagedBackKey := "BACK"
  const LegacyBackKey := "back"

  /** `generator unique(list)`: each element at its first occurrence. */
  function Unique<T(==, !new)>(xs: seq<T>): (r: seq<T>)
    ensures forall i, j :: 0 <= i < j < |r| ==> r[i] != r[j]
    ensures forall x :: x in r <==> x in xs
    ensures |r| <= |xs|
    decreases |xs|
  {
    if |xs| == 0 then []
    else
      var u := Unique(xs[..|xs| - 1]);
      var x := xs[|xs| - 1];
      assert xs == xs[..|xs| - 1] + [x];
      if x in xs[..|xs| - 1] then u else u + [x]
  }

  /** The position of the first `x` in `xs`, or `|xs|`. */
  function FirstIndex<T(==, !new)>(xs: seq<T>, x: T): (r: nat)
    ensures r <= |xs| && x !in xs[..r]
    ensures r < |xs| ==> xs[r] == x
    ensures x in xs ==> r < |xs|
  {
    if |xs| == 0 then 0
    else if xs[0] == x then 0
    else
      var k := 1 + FirstIndex(xs[1..], x);
      assert xs[..k] == [xs[0]] + xs[1..][..k - 1];
      assert x in xs ==> x in xs[1..] by {
        if x in xs { var i :| 0 <= i < |xs| && xs[i] == x; assert xs[1..][i - 1] == x; }
      }
      k
  }

  /** Extending a sequence does not move the first occurrence of an element
      already in it. */
  lemma FirstIndexPrefix<T(!new)>(xs: seq<T>, n: nat, y: T)
    requires n <= |xs| && y in xs[..n]
    ensures FirstIndex(xs, y) == FirstIndex(xs[..n], y)
  {
    var r, r' := FirstIndex(xs, y), FirstIndex(xs[..n], y);
    assert r' < n && xs[r'] == y by {
      assert xs[..n][r'] == xs[r'];
    }
    assert forall h :: 0 <= h < r ==> xs[h] != y by {
      forall h | 0 <= h < r ensures xs[h] != y { assert xs[..r][h] == xs[h]; }
    }
    assert forall h :: 0 <= h < r' ==> xs[h] != y by {
      forall h | 0 <= h < r' ensures xs[h] != y { assert xs[..n][..r'][h] == xs[h]; }
    }
    assert r < |xs| && xs[r] == y;
  }

  /** The elements of `r` appear in the order of their first occurrence in `xs`. */
  predicate InFirstOrder<T(==, !new)>(xs: seq<T>, r: seq<T>) {
    forall i, j :: 0 <= i < j < |r| ==> FirstIndex(xs, r[i]) < FirstIndex(xs, r[j])
  }

  /** `unique` keeps the order of first occurrences. */
  lemma {:induction false} UniqueKeepsFirstOrder<T(!new)>(xs: seq<T>)
    ensures InFirstOrder(xs, Unique(xs))
    decreases |xs|
  {
    if |xs| > 0 {
      var n := |xs| - 1;
      var pre := xs[..n];
      var x := xs[n];
      var u := Unique(pre);
      UniqueKeepsFirstOrder(pre);
      forall y | y in u ensures FirstIndex(xs, y) == FirstIndex(pre, y) < n {
        FirstIndexPrefix(xs, n, y);
      }
      var r := Unique(xs);
      if x in pre {
        assert r == u;
        forall i, j | 0 <= i < j < |r| ensures FirstIndex(xs, r[i]) < FirstIndex(xs, r[j]) {
          assert r[i] in u && r[j] in u;
        }
      } else {
        assert r == u + [x];
        assert FirstIndex(xs, x) == n by {
          assert forall k :: 0 <= k < n ==> pre[k] == xs[k];
        }
        forall i, j | 0 <= i < j < |r| ensures FirstIndex(xs, r[i]) < FirstIndex(xs, r[j]) {
          assert r[i] == u[i] && r[i] in u;
          if j < |u| {
            assert r[j] == u[j] && r[j] in u;
          }
        }
      }
    }
  }

  // ---------------------------------------------------------------- URLs

  /** The parts that are not empty, in order. */
  function NonEmpty(parts: seq<string>): (r: seq<string>)
    ensures forall i :: 0 <= i < |r| ==> |r[i]| > 0
    ensures forall x :: x in r <==> x in parts && |x| > 0
    ensures |r| <= |parts|
  {
    if |parts| == 0 then []
    else if |parts[0]| > 0 then [parts[0]] + NonEmpty(parts[1..])
    else NonEmpty(parts[1..])
  }

  /** `DL_ROOT_URL()`: the non-empty of base, language and date joined by `/`. */
  function RootUrl(base: string, lang: string, date: string): string {
    Join(NonEmpty([base, lang, date]), "/")
  }

  /** `DL_FILE_PREFIX()`: each non-empty of language and date, followed by `-`. */
  function FilePrefix(lang: string, date: string): string {
    Dashed(NonEmpty([lang, date]))
  }

  /** Splitting at a separator distributes over a concatenation around it. */
  lemma {:induction false} SplitAround(a: string, b: string, c: char)
    ensures Split(a + [c] + b, c) == Split(a, c) + Split(b, c)
    decreases |a|
  {
    if |a| == 0 {
      SplitAroundEmpty(b, c);
      assert a + [c] + b == [c] + b;
    } else {
      SplitAround(a[1..], b, c);
      SplitAroundStep(a, b, c);
    }
  }

  lemma SplitAroundEmpty(b: string, c: char)
    ensures Split([c] + b, c) == Split("", c) + Split(b, c)
  {
    SplitCons([c] + b, c);
    assert ([c] + b)[1..] == b;
  }

  /** The inductive step of `SplitAround`, from the claim for `a[1..]`. */
  lemma SplitAroundStep(a: string, b: string, c: char)
    requires |a| > 0
    requires Split(a[1..] + [c] + b, c) == Split(a[1..], c) + Split(b, c)
    ensures Split(a + [c] + b, c) == Split(a, c) + Split(b, c)
  {
    var s := a + [c] + b;
    assert s[0] == a[0] && s[1..] == a[1..] + [c] + b;
    SplitCons(s, c);
    SplitCons(a, c);
    if a[0] == c {
      SepStep(Split(s, c), Split(a, c), Split(a[1..], c), Split(b, c));
    } else {
      CharStep(Split(s, c), Split(a, c), Split(a[1..], c), Split(b, c), a[0]);
    }
  }

  lemma SepStep(rs: seq<string>, r: seq<string>, ra: seq<string>, sb: seq<string>)
    requires rs == [""] + (ra + sb) && r == [""] + ra
    ensures rs == r + sb
  {
  }

  lemma CharStep(rs: seq<string>, r: seq<string>, ra: seq<string>, sb: seq<string>, x: char)
    requires |ra| > 0
    requires rs == [[x] + (ra + sb)[0]] + (ra + sb)[1..] && r == [[x] + ra[0]] + ra[1..]
    ensures rs == r + sb
  {
    assert (ra + sb)[1..] == ra[1..] + sb;
  }

  lemma {:induction false} SplitNoSep(s: string, c: char)
    requires c !in s
    ensures Split(s, c) == [s]
    decreases |s|
  {
    if |s| > 0 {
      SplitNoSep(s[1..], c);
      assert s == [s[0]] + s[1..];
    }
  }

  /** Joining separator-free parts and splitting again gives the parts back. */
  lemma {:induction false} SplitJoin(parts: seq<string>, c: char)
    requires |parts| > 0 && forall i :: 0 <= i < |parts| ==> c !in parts[i]
    ensures Split(Join(parts, [c]), c) == parts
    decreases |parts|
  {
    if |parts| == 1 {
      SplitNoSep(parts[0], c);
    } else {
      SplitNoSep(parts[0], c);
      SplitJoin(parts[1..], c);
      SplitAround(parts[0], Join(parts[1..], [c]), c);
      assert Join(parts, [c]) == parts[0] + [c] + Join(parts[1..], [c]);
      assert parts == [parts[0]] + parts[1..];
    }
  }

  lemma NonEmptyPair(lang: string, date: string)
    ensures NonEmpty([lang, date])
            == (if lang != "" then [lang] else []) + (if date != "" then [date] else [])
  {
    assert [lang, date][1..] == [date];
    assert [date][1..] == [];
  }

  lemma NonEmptyTriple(base: string, lang: string, date: string)
    requires base != ""
    ensures NonEmpty([base, lang, date]) == [base] + NonEmpty([lang, date])
  {
    assert [base, lang, date][1..] == [lang, date];
  }

  lemma JoinCons(p: string, ps: seq<string>, c: char)
    requires |ps| > 0
    ensures Join([p] + ps, [c]) == p + [c] + Join(ps, [c])
  {
    assert ([p] + ps)[1..] == ps;
  }

  lemma JoinSplitAfter(base: string, ne: seq<string>, c: char)
    requires forall x :: x in ne ==> c !in x
    ensures Split(Join([base] + ne, [c]), c) == Split(base, c) + ne
  {
    if |ne| == 0 {
      assert [base] + ne == [base];
    } else {
      forall i | 0 <= i < |ne| ensures c !in ne[i] {
        assert ne[i] in ne;
      }
      SplitJoin(ne, c);
      JoinCons(base, ne, c);
      SplitAround(base, Join(ne, [c]), c);
    }
  }

  lemma NonEmptyFree(lang: string, date: string, c: char)
    requires c !in lang && c !in date
    ensures forall x :: x in NonEmpty([lang, date]) ==> c !in x
  {
  }

  /** The root URL splits at `/` into the base's own pieces followed by the
      non-empty language and date: empty parts leave no empty piece. */
  lemma RootUrlRoundTrip(base: string, lang: string, date: string)
    requires |base| > 0 && '/' !in lang && '/' !in date
    ensures Split(RootUrl(base, lang, date), '/') == Split(base, '/') + NonEmpty([lang, date])
  {
    NonEmptyTriple(base, lang, date);
    NonEmptyFree(lang, date, '/');
    JoinSplitAfter(base, NonEmpty([lang, date]), '/');
  }

  /** `Concat` of the parts each followed by `-`. */
  function Dashed(ps: seq<string>): string {
    Concat(seq(|ps|, i requires 0 <= i < |ps| => ps[i] + "-"))
  }

  lemma {:induction false} DashedSplit(ps: seq<string>)
    requires forall i :: 0 <= i < |ps| ==> '-' !in ps[i]
    ensures Split(Dashed(ps), '-') == ps + [""]
    decreases |ps|
  {
    if |ps| == 0 {
      assert Dashed(ps) == "";
    } else {
      DashedSplit(ps[1..]);
      DashedCons(ps);
      SplitAround(ps[0], Dashed(ps[1..]), '-');
      SplitNoSep(ps[0], '-');
      assert ps == [ps[0]] + ps[1..];
    }
  }

  lemma DashedCons(ps: seq<string>)
    requires |ps| > 0
    ensures Dashed(ps) == ps[0] + ['-'] + Dashed(ps[1..])
  {
    var ss := seq(|ps|, i requires 0 <= i < |ps| => ps[i] + "-");
    assert ss[1..] == seq(|ps| - 1, i requires 0 <= i < |ps| - 1 => ps[1..][i] + "-");
  }

  /** The file prefix splits at `-` into the non-empty language and date and
      a final empty piece, so it always ends in `-` unless it is empty. */
  lemma FilePrefixRoundTrip(lang: string, date: string)
    requires '-' !in lang && '-' !in date
    ensures FilePrefix(lang, date) == "" <==> lang == "" && date == ""
    ensures Split(FilePrefix(lang, date), '-') == NonEmpty([lang, date]) + [""]
  {
    var ne := NonEmpty([lang, date]);
    NonEmptyPair(lang, date);
    forall i | 0 <= i < |ne| ensures '-' !in ne[i] {
      assert ne[i] in ne;
    }
    assert FilePrefix(lang, date) == Dashed(ne);
    DashedSplit(ne);
    if lang != "" || date != "" {
      assert |Split(FilePrefix(lang, date), '-')| >= 2;
    }
  }

  // ------------------------------------------------------------ escaping

  /** The escaping in the file menu: a backslash before every
      non-alphanumeric character. */
  function Escape(s: string): (r: string)
    ensures |r| >= |s|
  {
    if |s| == 0 then ""
    else (if IsAlnum(s[0]) then [s[0]] else ['\\', s[0]]) + Escape(s[1..])
  }

  /** Reading an escaped pattern literally: a backslash takes the next
      character as it is. */
  function Unescape(r: string): string
    decreases |r|
  {
    if |r| == 0 then ""
    else if r[0] == '\\' && |r| >= 2 then [r[1]] + Unescape(r[2..])
    else [r[0]] + Unescape(r[1..])
  }

  function CountNonAlnum(s: string): nat {
    if |s| == 0 then 0 else (if IsAlnum(s[0]) then 0 else 1) + CountNonAlnum(s[1..])
  }

  /** The escaped pattern spells the original string, with one backslash
      per non-alphanumeric character and none before alphanumerics. */
  lemma {:induction false} EscapeRoundTrip(s: string)
    ensures Unescape(Escape(s)) == s
    ensures |Escape(s)| == |s| + CountNonAlnum(s)
    decreases |s|
  {
    if |s| > 0 {
      EscapeRoundTrip(s[1..]);
      var e := Escape(s);
      if IsAlnum(s[0]) {
        assert e[0] == s[0] && e[1..] == Escape(s[1..]);
      } else {
        assert e[0] == '\\' && e[1] == s[0] && e[2..] == Escape(s[1..]);
      }
      assert s == [s[0]] + s[1..];
    }
  }

  /** Alphanumeric text needs no escaping. */
  lemma {:induction false} EscapeAlnumUnchanged(s: string)
    requires forall i :: 0 <= i < |s| ==> IsAlnum(s[i])
    ensures Escape(s) == s
    decreases |s|
  {
    if |s| > 0 {
      EscapeAlnumUnchanged(s[1..]);
      assert s == [s[0]] + s[1..];
    }
  }

  // ----------------------------------------------------------- type names

  /** `lnk.partition(prefix)[2 if prefix in lnk else 0]`: the text after the
      first occurrence of the prefix, or the whole link; an empty prefix
      makes `partition` raise `ValueError`. */
  function AfterPrefix(lnk: string, prefix: string): (r: Result<string>)
    ensures prefix == "" <==> r == Failure("ValueError")
    ensures prefix != "" && (forall i: nat :: !OccursAt(lnk, prefix, i)) ==> r == Success(lnk)
    ensures r.Success? && r.value != lnk ==>
              exists i: nat :: OccursAt(lnk, prefix, i) && r.value == lnk[i + |prefix|..]
                               && forall j: nat :: j < i ==> !OccursAt(lnk, prefix, j)
    ensures prefix != "" && (exists i: nat :: OccursAt(lnk, prefix, i)) ==>
              exists i: nat :: OccursAt(lnk, prefix, i) && r == Success(lnk[i + |prefix|..])
                               && forall j: nat :: j < i ==> !OccursAt(lnk, prefix, j)
  {
    if prefix == "" then Failure("ValueError")
    else match Find(lnk, prefix)
      case None => Success(lnk)
      case Some(i) => Success(lnk[i + |prefix|..])
  }

  /** A prefix that occurs twice splits at its first occurrence. */
  lemma AfterPrefixTakesFirst()
    ensures AfterPrefix("enwiki-enwiki-x", "enwiki-") == Success("enwiki-x")
  {
    assert OccursAt("enwiki-enwiki-x", "enwiki-", 0);
  }

  /** The length of the lazy group of `^([^\.]+?)\d*\.` within the text `t`
      before the first dot: `t` minus its trailing digits, but at least one
      character. */
  function LazyGroupLen(t: string): (g: nat)
    requires |t| >= 1
    ensures 1 <= g <= |t| && AllDigits(t[g..])
    ensures forall h :: 1 <= h < g ==> !AllDigits(t[h..])
    decreases |t|
  {
    if |t| > 1 && IsDigit(t[|t| - 1]) then
      var g := LazyGroupLen(t[..|t| - 1]);
      assert t[g..] == t[..|t| - 1][g..] + [t[|t| - 1]];
      assert forall h :: 1 <= h < g ==> t[h..][..|t| - 1 - h] == t[..|t| - 1][h..];
      g
    else
      assert forall h :: 1 <= h < |t| ==> t[h..][|t| - 1 - h] == t[|t| - 1];
      |t|
  }

  /** `re.match(r"^([^\.]+?)\d*\.", s).group(1)`, or `None` without a dot or
      with a dot first. */
  function TypeGroup(s: string): (r: Option<string>)
    ensures r.None? <==> IndexOf(s, '.') == |s| || IndexOf(s, '.') == 0
    ensures r.Some? ==> 1 <= |r.value| <= IndexOf(s, '.') && r.value == s[..|r.value|]
    ensures r.Some? ==> '.' !in r.value && AllDigits(s[|r.value|..IndexOf(s, '.')])
    ensures r.Some? ==> forall h :: 1 <= h < |r.value| ==> !AllDigits(s[h..IndexOf(s, '.')])
  {
    var p := IndexOf(s, '.');
    if p == |s| || p == 0 then None
    else
      var g := LazyGroupLen(s[..p]);
      assert s[..p][g..] == s[g..p];
      assert forall h :: 1 <= h < g ==> s[..p][h..] == s[h..p];
      Some(s[..g])
  }

  /** The type name one link offers: the match of its tail, if any. */
  function LinkGroup(l: string, prefix: string): Option<string> {
    if AfterPrefix(l, prefix).Success? then TypeGroup(AfterPrefix(l, prefix).value) else None
  }

  /** The type names of the type menu, in link order, deduplicated, without
      blank names. */
  function TypeNames(links: seq<string>, prefix: string): (r: Result<seq<string>>)
    ensures prefix == "" && |links| > 0 <==> r.Failure?
    ensures r.Success? ==> forall i, j :: 0 <= i < j < |r.value| ==> r.value[i] != r.value[j]
    ensures r.Success? ==> forall n :: n in r.value ==>
              (|Strip(n)| > 0 && '.' !in n &&
               exists l :: l in links && AfterPrefix(l, prefix).Success? && TypeGroup(AfterPrefix(l, prefix).value) == Some(n))
    ensures r.Success? ==> forall l :: l in links && LinkGroup(l, prefix).Some? && |Strip(LinkGroup(l, prefix).value)| > 0 ==>
              LinkGroup(l, prefix).value in r.value
    ensures r.Success? && prefix != "" ==> InFirstOrder(Groups(Tails(links, prefix)), r.value)
  {
    var tails :- AfterPrefixAll(links, prefix);
    var groups := Groups(tails);
    assert forall l :: l in links && LinkGroup(l, prefix).Some? ==> LinkGroup(l, prefix).value in groups by {
      forall l | l in links && LinkGroup(l, prefix).Some? ensures LinkGroup(l, prefix).value in groups {
        var i :| 0 <= i < |links| && links[i] == l;
        assert TypeGroup(tails[i]) == LinkGroup(l, prefix);
      }
    }
    assert forall n :: n in groups ==>
             exists l :: l in links && AfterPrefix(l, prefix).Success? && TypeGroup(AfterPrefix(l, prefix).value) == Some(n) by {
      forall n | n in groups
        ensures exists l :: l in links && AfterPrefix(l, prefix).Success? && TypeGroup(AfterPrefix(l, prefix).value) == Some(n)
      {
        var i :| 0 <= i < |tails| && TypeGroup(tails[i]) == Some(n);
        assert links[i] in links && AfterPrefix(links[i], prefix) == Success(tails[i]);
      }
    }
    UniqueKeepsFirstOrder(groups);
    NonBlankKeepsOrder(groups, Unique(groups));
    Success(NonBlank(Unique(groups)))
  }

  /** The tails of all links: the first link raises for an empty prefix. */
  function AfterPrefixAll(links: seq<string>, prefix: string): (r: Result<seq<string>>)
    ensures prefix == "" && |links| > 0 <==> r.Failure?
    ensures r.Success? ==>
              (|r.value| == |links| &&
               forall i :: 0 <= i < |links| ==> AfterPrefix(links[i], prefix) == Success(r.value[i]))
  {
    if |links| == 0 then Success([])
    else if prefix == "" then Failure("ValueError")
    else Success(Tails(links, prefix))
  }

  function Tails(links: seq<string>, prefix: string): (r: seq<string>)
    requires prefix != ""
    ensures |r| == |links| && forall i :: 0 <= i < |links| ==> AfterPrefix(links[i], prefix) == Success(r[i])
  {
    if |links| == 0 then [] else [AfterPrefix(links[0], prefix).value] + Tails(links[1..], prefix)
  }

  /** The matched groups, in order, dropping the tails that do not match. */
  function Groups(tails: seq<string>): (r: seq<string>)
    ensures forall n :: n in r ==> '.' !in n && exists i :: 0 <= i < |tails| && TypeGroup(tails[i]) == Some(n)
    ensures forall i :: 0 <= i < |tails| && TypeGroup(tails[i]).Some? ==> TypeGroup(tails[i]).value in r
    ensures |tails| == 1 ==> r == if TypeGroup(tails[0]).Some? then [TypeGroup(tails[0]).value] else []
  {
    if |tails| == 0 then []
    else
      var rest := Groups(tails[1..]);
      assert forall i :: 0 < i < |tails| ==> tails[i] == tails[1..][i - 1];
      match TypeGroup(tails[0])
      case None => rest
      case Some(n) => [n] + rest
  }

  /** The matches are listed in link order: the groups of two runs of tails
      are the first run's groups followed by the second's. */
  lemma {:induction false} GroupsAppend(t1: seq<string>, t2: seq<string>)
    ensures Groups(t1 + t2) == Groups(t1) + Groups(t2)
    decreases |t1|
  {
    if |t1| == 0 {
      assert t1 + t2 == t2;
    } else {
      ConsAppendTail(t1, t2);
      GroupsAppend(t1[1..], t2);
    }
  }

  /** `names` climb strictly in `rank`. */
  predicate RankIncreasing<T>(names: seq<T>, rank: T -> int) {
    forall i, j :: 0 <= i < j < |names| ==> rank(names[i]) < rank(names[j])
  }

  lemma RankTail<T>(xs: seq<T>, rank: T -> int)
    requires |xs| > 0 && RankIncreasing(xs, rank)
    ensures RankIncreasing(xs[1..], rank)
    ensures forall y :: y in xs[1..] ==> rank(xs[0]) < rank(y)
  {
    var tl := xs[1..];
    forall i, j | 0 <= i < j < |tl| ensures rank(tl[i]) < rank(tl[j]) {
      assert tl[i] == xs[i + 1] && tl[j] == xs[j + 1];
    }
    forall y | y in tl ensures rank(xs[0]) < rank(y) {
      var k :| 0 <= k < |tl| && tl[k] == y;
      assert xs[k + 1] == y;
    }
  }

  lemma RankCons<T>(x: T, xs: seq<T>, rank: T -> int)
    requires RankIncreasing(xs, rank) && forall y :: y in xs ==> rank(x) < rank(y)
    ensures RankIncreasing([x] + xs, rank)
  {
    var nb := [x] + xs;
    forall i, j | 0 <= i < j < |nb| ensures rank(nb[i]) < rank(nb[j]) {
      assert nb[j] == xs[j - 1] && nb[j] in xs;
      if i > 0 { assert nb[i] == xs[i - 1]; }
    }
  }

  lemma {:induction false} NonBlankKeepsRank(names: seq<string>, rank: string -> int)
    requires RankIncreasing(names, rank)
    ensures RankIncreasing(NonBlank(names), rank)
    decreases |names|
  {
    if |names| > 0 {
      RankTail(names, rank);
      NonBlankKeepsRank(names[1..], rank);
      if |Strip(names[0])| > 0 {
        RankCons(names[0], NonBlank(names[1..]), rank);
      }
    }
  }

  /** Dropping blank names keeps the remaining names in their order. */
  lemma NonBlankKeepsOrder(xs: seq<string>, names: seq<string>)
    requires InFirstOrder(xs, names)
    ensures InFirstOrder(xs, NonBlank(names))
  {
    var rank := (x: string) => FirstIndex(xs, x);
    assert RankIncreasing(names, rank);
    NonBlankKeepsRank(names, rank);
    assert RankIncreasing(NonBlank(names), rank);
  }

  /** `[el for el in names if len(el.strip()) > 0]`. */
  function NonBlank(names: seq<string>): (r: seq<string>)
    ensures forall n :: n in r <==> n in names && |Strip(n)| > 0
    ensures Distinct(names) ==> Distinct(r)
  {
    if |names| == 0 then []
    else
      var rest := NonBlank(names[1..]);
      assert forall n :: n in names[1..] ==> n in names;
      DistinctTail(names);
      if |Strip(names[0])| > 0 then
        DistinctCons(names[0], rest);
        [names[0]] + rest
      else rest
  }

  predicate Distinct<T(==)>(xs: seq<T>) {
    forall i, j :: 0 <= i < j < |xs| ==> xs[i] != xs[j]
  }

  lemma DistinctTail<T>(xs: seq<T>)
    requires |xs| > 0
    ensures Distinct(xs) ==> Distinct(xs[1..]) && xs[0] !in xs[1..]
  {
    if Distinct(xs) {
      forall i, j | 0 <= i < j < |xs| - 1 ensures xs[1..][i] != xs[1..][j] {
        assert xs[1..][i] == xs[i + 1] && xs[1..][j] == xs[j + 1];
      }
      forall i | 0 <= i < |xs| - 1 ensures xs[1..][i] != xs[0] {
        assert xs[1..][i] == xs[i + 1];
      }
    }
  }

  lemma DistinctCons<T>(x: T, xs: seq<T>)
    ensures Distinct(xs) && x !in xs ==> Distinct([x] + xs)
  {
    if Distinct(xs) && x !in xs {
      forall i, j | 0 <= i < j < |xs| + 1 ensures ([x] + xs)[i] != ([x] + xs)[j] {
        assert ([x] + xs)[j] == xs[j - 1];
        if i > 0 { assert ([x] + xs)[i] == xs[i - 1]; }
      }
    }
  }

  // ----------------------------------------------------------- extensions

  /** The number of leading ASCII digits. */
  function LeadingDigits(s: string): (r: nat)
    ensures r <= |s| && AllDigits(s[..r])
    ensures r < |s| ==> !IsDigit(s[r])
  {
    if |s| > 0 && IsDigit(s[0]) then
      var r := 1 + LeadingDigits(s[1..]);
      assert s[..r] == [s[0]] + s[1..][..r - 1];
      r
    else 0
  }

  const PartialFlag := "xml-PART"

  /** `re.match(r'xml-p\d+p\d+', ext)`: the part starts with `xml-p`, digits,
      `p`, digits; anything may follow. */
  predicate IsPartial(ext: string) {
    StartsWith(ext, "xml-p") &&
    var r := ext[5..];
    var d := LeadingDigits(r);
    1 <= d < |r| && r[d] == 'p' && LeadingDigits(r[d + 1..]) >= 1
  }

  function GroupPart(ext: string): string {
    if IsPartial(ext) then PartialFlag else ext
  }

  /** The extension shown for a link: the dot-separated parts after the
      first, with partial-dump parts replaced by `xml-PART`. */
  function ExtensionOf(lnk: string): (r: string) {
    var parts := Split(lnk, '.')[1..];
    Join(seq(|parts|, i requires 0 <= i < |parts| => GroupPart(parts[i])), ".")
  }

  /** The extension menu's entries: the links' extensions, deduplicated in
      first-occurrence order. */
  function Extensions(links: seq<string>): (r: seq<string>)
    ensures forall i, j :: 0 <= i < j < |r| ==> r[i] != r[j]
    ensures forall e :: e in r <==> exists l :: l in links && ExtensionOf(l) == e
    ensures |r| <= |links|
  {
    var exts := seq(|links|, i requires 0 <= i < |links| => ExtensionOf(links[i]));
    assert forall e :: e in exts <==> exists l :: l in links && ExtensionOf(l) == e by {
      forall e | (exists l :: l in links && ExtensionOf(l) == e) ensures e in exts {
        var l :| l in links && ExtensionOf(l) == e;
        var i :| 0 <= i < |links| && links[i] == l;
        assert exts[i] == e;
      }
    }
    Unique(exts)
  }

  /** The numbered part of a split dump is grouped, whatever its numbers. */
  lemma PartialNumbersGrouped(a: string, b: string)
    requires |a| > 0 && |b| > 0 && AllDigits(a) && AllDigits(b)
    ensures IsPartial("xml-p" + a + "p" + b)
    ensures GroupPart("xml-p" + a + "p" + b) == PartialFlag
  {
    var ext := "xml-p" + a + "p" + b;
    var r := ext[5..];
    assert r == a + "p" + b;
    assert LeadingDigits(r) == |a| by {
      var d := LeadingDigits(r);
      assert forall k :: 0 <= k < |a| ==> r[k] == a[k];
      assert r[|a|] == 'p';
    }
    assert r[|a| + 1..] == b;
  }

  /** A link without dots has an empty extension; one whose parts are not
      partial-dump parts shows everything after its first dot. */
  lemma {:induction false} ExtensionKeepsPlainParts(lnk: string)
    requires forall i :: 1 <= i < |Split(lnk, '.')| ==> !IsPartial(Split(lnk, '.')[i])
    ensures IndexOf(lnk, '.') < |lnk| ==> ExtensionOf(lnk) == lnk[IndexOf(lnk, '.') + 1..]
    ensures IndexOf(lnk, '.') == |lnk| ==> ExtensionOf(lnk) == ""
  {
    var ps := Split(lnk, '.');
    var parts := ps[1..];
    var mapped := seq(|parts|, i requires 0 <= i < |parts| => GroupPart(parts[i]));
    assert mapped == parts;
    if |ps| == 1 {
      assert lnk == ps[0];
      assert '.' !in lnk;
      assert IndexOf(lnk, '.') == |lnk|;
    } else {
      assert Join(ps, ".") == ps[0] + "." + Join(parts, ".");
      var p0 := ps[0];
      assert lnk[..|p0|] == p0 && lnk[|p0|] == '.';
      assert IndexOf(lnk, '.') == |p0| by {
        var k := IndexOf(lnk, '.');
        assert forall h :: 0 <= h < |p0| ==> lnk[h] == p0[h];
      }
      assert lnk[|p0| + 1..] == Join(parts, ".");
    }
  }

  // --------------------------------------------------------------- menus

  /** What a menu entry does: the added back option, or a named choice. */
  datatype Action = BackOption | Choice(name: string)

  /** The menu's `OrderedDict`: keys in insertion order, each once. */
  type Options = seq<(string, Action)>

  predicate KeysDistinct(opts: Options) {
    forall i, j :: 0 <= i < j < |opts| ==> opts[i].0 != opts[j].0
  }

  /** The position of `key`, if present. */
  function FindKey(opts: Options, key: string): (r: Option<nat>)
    ensures r.Some? ==> r.value < |opts| && opts[r.value].0 == key
    ensures r.None? ==> forall i :: 0 <= i < |opts| ==> opts[i].0 != key
  {
    if |opts| == 0 then None
    else if opts[0].0 == key then Some(0)
    else match FindKey(opts[1..], key)
      case None => None
      case Some(i) => Some(i + 1)
  }

  /** `options[key] = action`: an existing key keeps its position and takes
      the new action; a new key goes last. */
  function SetOption(opts: Options, key: string, act: Action): (r: Options)
    requires KeysDistinct(opts)
    ensures KeysDistinct(r)
    ensures (forall i :: 0 <= i < |opts| ==> opts[i].0 != key) ==> r == opts + [(key, act)]
    ensures forall i :: 0 <= i < |opts| && opts[i].0 == key ==> r == opts[i := (key, act)]
  {
    match FindKey(opts, key)
    case None => opts + [(key, act)]
    case Some(i) => opts[i := (key, act)]
  }

  /** `Menu.__init__`: the given entries with the back option set under the
      version's back key. */
  function MakeMenu(items: Options, backKey: string): (r: Options)
    requires KeysDistinct(items)
    ensures KeysDistinct(r)
    ensures exists i :: 0 <= i < |r| && r[i] == (backKey, BackOption)
    ensures forall i :: 0 <= i < |r| && r[i].0 != backKey ==> r[i] in items
  {
    var r := SetOption(items, backKey, BackOption);
    match FindKey(items, backKey)
    case None =>
      assert r[|items|] == (backKey, BackOption);
      r
    case Some(i) =>
      assert r[i] == (backKey, BackOption);
      r
  }

  predicate ExactMatch(key: string, sel: string) {
    Lower(key) == Lower(sel)
  }

  predicate PrefixMatch(key: string, sel: string) {
    StartsWith(Lower(key), Lower(sel))
  }

  /** The entries whose key equals the selection, ignoring case, in order. */
  function Exact(opts: Options, sel: string): (r: Options)
    ensures forall x :: x in r <==> x in opts && ExactMatch(x.0, sel)
    ensures |r| <= |opts|
  {
    if |opts| == 0 then []
    else
      var rest := Exact(opts[1..], sel);
      assert forall x :: x in opts <==> x == opts[0] || x in opts[1..];
      if ExactMatch(opts[0].0, sel) then [opts[0]] + rest else rest
  }

  /** The entries whose key starts with the selection, ignoring case. */
  function Prefixed(opts: Options, sel: string): (r: Options)
    ensures forall x :: x in r <==> x in opts && PrefixMatch(x.0, sel)
    ensures |r| <= |opts|
  {
    if |opts| == 0 then []
    else
      var rest := Prefixed(opts[1..], sel);
      assert forall x :: x in opts <==> x == opts[0] || x in opts[1..];
      if PrefixMatch(opts[0].0, sel) then [opts[0]] + rest else rest
  }

  /** `possibilities`: exact case-insensitive matches; prefix matches only
      when there is no exact one. */
  function Candidates(opts: Options, sel: string): (r: Options)
    ensures (exists x :: x in opts && ExactMatch(x.0, sel)) ==>
              forall x :: x in r <==> x in opts && ExactMatch(x.0, sel)
    ensures (forall x :: x in opts ==> !ExactMatch(x.0, sel)) ==>
              forall x :: x in r <==> x in opts && PrefixMatch(x.0, sel)
  {
    var e := Exact(opts, sel);
    if |e| == 0 then Prefixed(opts, sel)
    else
      assert e[0] in e;
      e
  }

  /** Keys that are distinct ignoring case. */
  predicate LowerKeysDistinct(opts: Options) {
    forall i, j :: 0 <= i < j < |opts| ==> Lower(opts[i].0) != Lower(opts[j].0)
  }

  /** With case-distinct keys, typing a key in any case selects exactly that
      entry, even when other keys start with it. */
  lemma {:induction false} ExactSelectsOne(opts: Options, i: nat, sel: string)
    requires LowerKeysDistinct(opts) && i < |opts| && ExactMatch(opts[i].0, sel)
    ensures Candidates(opts, sel) == [opts[i]]
  {
    ExactOnly(opts, i, sel);
  }

  lemma {:induction false} ExactOnly(opts: Options, i: nat, sel: string)
    requires LowerKeysDistinct(opts) && i < |opts| && ExactMatch(opts[i].0, sel)
    ensures Exact(opts, sel) == [opts[i]]
    decreases |opts|
  {
    assert LowerKeysDistinct(opts[1..]) by {
      forall a, b | 0 <= a < b < |opts[1..]| ensures Lower(opts[1..][a].0) != Lower(opts[1..][b].0) {
        assert opts[1..][a] == opts[a + 1] && opts[1..][b] == opts[b + 1];
      }
    }
    if i == 0 {
      NoneExact(opts[1..], sel);
    } else {
      assert opts[1..][i - 1] == opts[i];
      ExactOnly(opts[1..], i - 1, sel);
    }
  }

  lemma {:induction false} NoneExact(opts: Options, sel: string)
    requires forall k :: 0 <= k < |opts| ==> !ExactMatch(opts[k].0, sel)
    ensures Exact(opts, sel) == []
    decreases |opts|
  {
    if |opts| > 0 {
      assert forall k :: 0 <= k < |opts[1..]| ==> opts[1..][k] == opts[k + 1];
      NoneExact(opts[1..], sel);
    }
  }

  /** What the loop ended with: a returned code, or still waiting for a line
      of input when the lines ran out. */
  datatype Outcome = Returned(code: int) | AwaitingInput

  /** What running an entry gives: the result (`None` for a callable that
      returns nothing) and the input lines left. The back option returns
      `True`. */
  function Perform(act: Action, run: (string, seq<string>) -> (Option<int>, seq<string>), ins: seq<string>)
    : (r: (Option<int>, seq<string>))
  {
    match act
    case BackOption => (Some(1), ins)
    case Choice(n) => run(n, ins)
  }

  /** `Menu.handle_loop` over the given input lines: one candidate is run,
      and a `Quit` result returns `Quit`, a `Back` result returns `Loop`, any
      other result reads the next line; an ambiguous or unmatched line reads
      the next line. */
  function HandleLoop(opts: Options, run: (string, seq<string>) -> (Option<int>, seq<string>),
                      inputs: seq<string>): (r: Outcome)
    requires forall n, ins :: |run(n, ins).1| <= |ins|
    ensures r.Returned? ==> r.code == Quit || r.code == Loop
    decreases |inputs|
  {
    if |inputs| == 0 then AwaitingInput
    else
      var c := Candidates(opts, inputs[0]);
      if |c| == 1 then
        var res := Perform(c[0].1, run, inputs[1..]);
        if res.0 == Some(Quit) then Returned(Quit)
        else if res.0 == Some(Back) then Returned(Loop)
        else HandleLoop(opts, run, res.1)
      else HandleLoop(opts, run, inputs[1..])
  }

  /** A line with exactly one candidate runs it: a `Quit` result ends the
      menu with `Quit`, a `Back` result ends it with `Loop`, and any other
      result (`Loop`, `None`) goes on with the input the entry left. */
  lemma ChildResultCodes(opts: Options, run: (string, seq<string>) -> (Option<int>, seq<string>),
                         inputs: seq<string>)
    requires forall n, ins :: |run(n, ins).1| <= |ins|
    requires |inputs| > 0 && |Candidates(opts, inputs[0])| == 1
    ensures var res := Perform(Candidates(opts, inputs[0])[0].1, run, inputs[1..]);
            (res.0 == Some(Quit) ==> HandleLoop(opts, run, inputs) == Returned(Quit))
            && (res.0 == Some(Back) ==> HandleLoop(opts, run, inputs) == Returned(Loop))
            && (res.0 != Some(Quit) && res.0 != Some(Back) ==>
                  HandleLoop(opts, run, inputs) == HandleLoop(opts, run, res.1))
  {
  }

  /** Choosing the back option ends the menu with `Quit`, not `Back`:
      `True == 1`. */
  lemma BackOptionQuits(items: Options, backKey: string, sel: string,
                        run: (string, seq<string>) -> (Option<int>, seq<string>), rest: seq<string>)
    requires KeysDistinct(items) && LowerKeysDistinct(MakeMenu(items, backKey))
    requires ExactMatch(backKey, sel)
    requires forall n, ins :: |run(n, ins).1| <= |ins|
    ensures HandleLoop(MakeMenu(items, backKey), run, [sel] + rest) == Returned(Quit)
  {
    var opts := MakeMenu(items, backKey);
    var i :| 0 <= i < |opts| && opts[i] == (backKey, BackOption);
    ExactSelectsOne(opts, i, sel);
    assert ([sel] + rest)[1..] == rest;
  }

  /** The packaged and the older menus answer the back command the same
      way whatever case it is typed in. */
  lemma BackKeysAgree(sel: string)
    ensures ExactMatch(PackagedBackKey, sel) <==> ExactMatch(LegacyBackKey, sel)
  {
    assert Lower(PackagedBackKey) == LegacyBackKey;
    assert Lower(LegacyBackKey) == LegacyBackKey;
  }

  /** A line that matches several entries or none is answered with a
      message and the loop reads the next line. */
  lemma AmbiguousOrUnmatchedRepeats(opts: Options, run: (string, seq<string>) -> (Option<int>, seq<string>),
                                    inputs: seq<string>)
    requires forall n, ins :: |run(n, ins).1| <= |ins|
    requires |inputs| > 0 && |Candidates(opts, inputs[0])| != 1
    ensures HandleLoop(opts, run, inputs) == HandleLoop(opts, run, inputs[1..])
  {
  }
}
