/** Text property labels. The converter tags text with labels of the form
    `"<name>(<n>)"`, and the page loader splits each label back with the
    pattern `^(.+)\((\d+)\)$`. Under `re.match` the pattern is anchored at
    the start, `.` matches anything but a newline, `\d` matches an ASCII
    digit, and `$` matches at the end or just before a final newline. */
module PropLabels {
  import opened Wrappers
  import opened Strings

  /** `String.format("%s(%d)", property, num)` in `textProperty`. */
  function FormatLabel(name: string, n: nat): string {
    name + "(" + NatToDecimal(n) + ")"
  }

  /** `rest` matches `\((\d+)\)$`. */
  predicate IsSuffix(rest: string) {
    |rest| >= 3 && rest[0] == '(' &&
    ((rest[|rest| - 1] == ')' && AllDigits(rest[1..|rest| - 1])) ||
     (|rest| >= 4 && rest[|rest| - 2..] == ")\n" && AllDigits(rest[1..|rest| - 2])))
  }

  /** The text captured by `(\d+)` in a suffix. */
  function SuffixDigits(rest: string): (d: string)
    requires IsSuffix(rest)
    ensures |d| > 0 && AllDigits(d)
    ensures rest == "(" + d + ")" || rest == "(" + d + ")\n"
  {
    if rest[|rest| - 1] == ')' then rest[1..|rest| - 1] else rest[1..|rest| - 2]
  }

  /** The first group `(.+)` can end at `k` and the pattern then matches. */
  predicate SplitsAt(lbl: string, k: nat) {
    0 < k < |lbl| && '\n' !in lbl[..k] && IsSuffix(lbl[k..])
  }

  /** Backtracking of the greedy `.+`: the longest first group ending at or
      before `k` for which the rest of the pattern matches. */
  function GreedySplit(lbl: string, k: nat): (r: Option<nat>)
    requires k <= |lbl|
    ensures r.Some? ==> r.value <= k && SplitsAt(lbl, r.value)
    ensures r.Some? ==> forall j: nat :: r.value < j <= k ==> !SplitsAt(lbl, j)
    ensures r.None? ==> forall j: nat :: j <= k ==> !SplitsAt(lbl, j)
  {
    if k == 0 then None
    else if SplitsAt(lbl, k) then Some(k)
    else GreedySplit(lbl, k - 1)
  }

  /** A second `(` cannot start a suffix inside the digit run of another. */
  lemma SplitUniqueOrdered(lbl: string, j: nat, k: nat)
    requires j < k && SplitsAt(lbl, j)
    ensures !SplitsAt(lbl, k)
  {
    if k < |lbl| {
      assert lbl[k..][0] == lbl[j..][k - j];
    }
  }

  /** There is at most one split point, so greediness never matters: the
      label splits at its final parenthesised digit run. */
  lemma SplitUnique(lbl: string, j: nat, k: nat)
    requires SplitsAt(lbl, j) && SplitsAt(lbl, k)
    ensures j == k
  {
    if j < k {
      SplitUniqueOrdered(lbl, j, k);
    } else if k < j {
      SplitUniqueOrdered(lbl, k, j);
    }
  }

  /** `property_splitter.match(label)`: the two groups, or no match. */
  function MatchLabel(lbl: string): (m: Option<(string, string)>)
    ensures m.Some? ==> |m.value.0| > 0 && '\n' !in m.value.0
    ensures m.Some? ==> |m.value.1| > 0 && AllDigits(m.value.1)
    ensures m.Some? ==> lbl == m.value.0 + "(" + m.value.1 + ")"
                        || lbl == m.value.0 + "(" + m.value.1 + ")\n"
    ensures m.Some? ==> SplitsAt(lbl, |m.value.0|) && m.value.1 == SuffixDigits(lbl[|m.value.0|..])
    ensures m.None? <==> forall k: nat :: !SplitsAt(lbl, k)
  {
    match GreedySplit(lbl, |lbl|)
    case None => None
    case Some(k) =>
      var d := SuffixDigits(lbl[k..]);
      assert lbl == lbl[..k] + lbl[k..];
      Some((lbl[..k], d))
  }

  /** The Python values stored in a `Prop`: an `int`, a `str`, or the
      tuple `(name, digits)` that `Match.groups()` returns. */
  datatype Value = Int(i: int) | Str(s: string) | Groups(name: string, digits: string)

  /** `Prop(id, type)`. */
  datatype Prop = Prop(id: Value, kind: Value)

  /** The entry for a label that does not match. */
  function ErrorProp(lbl: string): Prop {
    Prop(Str("ERROR PARSING: " + lbl), Int(-1))
  }

  /** The packaged loader: `Prop(int(group 2), group 1)`. */
  function ParseLabel(lbl: string): (p: Prop)
    ensures p.id.Int? ==> p.id.i >= 0 && p.kind.Str? && SplitsAt(lbl, |p.kind.s|)
    ensures p.id.Int? ==> p.id.i == DecimalValue(SuffixDigits(lbl[|p.kind.s|..]))
    ensures !p.id.Int? <==> p == ErrorProp(lbl)
    ensures p == ErrorProp(lbl) <==> forall k: nat :: !SplitsAt(lbl, k)
  {
    match MatchLabel(lbl)
    case None => ErrorProp(lbl)
    case Some((name, digits)) =>
      assert lbl[|name|..] == "(" + digits + ")" || lbl[|name|..] == "(" + digits + ")\n";
      Prop(Int(DecimalValue(digits)), Str(name))
  }

  /** The root loader: both fields receive `mtch.groups(...)`, the whole
      tuple of groups. */
  function ParseLabelRoot(lbl: string): (p: Prop)
    ensures p.id.Groups? <==> MatchLabel(lbl).Some?
    ensures p.id.Groups? ==> p.kind == p.id && p.id == Groups(MatchLabel(lbl).value.0, MatchLabel(lbl).value.1)
    ensures p.id.Str? <==> p == ErrorProp(lbl)
  {
    match MatchLabel(lbl)
    case None => ErrorProp(lbl)
    case Some((name, digits)) => Prop(Groups(name, digits), Groups(name, digits))
  }

  /** A label built from a newline-free name and a digit run, optionally
      followed by one newline, splits right after the name. */
  lemma ShapeSplits(name: string, digits: string, nl: string)
    requires |name| > 0 && '\n' !in name
    requires |digits| > 0 && AllDigits(digits)
    requires nl == "" || nl == "\n"
    ensures MatchLabel(name + "(" + digits + ")" + nl) == Some((name, digits))
  {
    var lbl := name + "(" + digits + ")" + nl;
    var rest := "(" + digits + ")" + nl;
    assert lbl[..|name|] == name;
    assert lbl[|name|..] == rest;
    SuffixShape(rest, digits, nl);
    assert SplitsAt(lbl, |name|);
    var m := MatchLabel(lbl);
    SplitUnique(lbl, |m.value.0|, |name|);
    assert m.value.0 == lbl[..|name|];
  }

  /** `(digits)` with an optional newline is a suffix whose group is `digits`. */
  lemma SuffixShape(rest: string, digits: string, nl: string)
    requires |digits| > 0 && AllDigits(digits)
    requires nl == "" || nl == "\n"
    requires rest == "(" + digits + ")" + nl
    ensures IsSuffix(rest) && SuffixDigits(rest) == digits
  {
    if nl == "" {
      assert rest[1..|rest| - 1] == digits;
    } else {
      assert rest[|rest| - 2..] == ")\n";
      assert rest[1..|rest| - 2] == digits;
    }
  }

  /** Round trip: what the converter writes for a non-empty, newline-free
      name and counter `n`, the packaged loader reads back as `(n, name)`. */
  lemma ParseFormatRoundTrip(name: string, n: nat)
    requires |name| > 0 && '\n' !in name
    ensures ParseLabel(FormatLabel(name, n)) == Prop(Int(n), Str(name))
  {
    NatToDecimalSpec(n);
    ShapeSplits(name, NatToDecimal(n), "");
    assert FormatLabel(name, n) == name + "(" + NatToDecimal(n) + ")" + "";
  }

  /** The root loader on the same label stores the tuple of groups in both
      fields, so the numeric id is lost. */
  lemma RootParseKeepsGroups(name: string, n: nat)
    requires |name| > 0 && '\n' !in name
    ensures ParseLabelRoot(FormatLabel(name, n))
            == Prop(Groups(name, NatToDecimal(n)), Groups(name, NatToDecimal(n)))
    ensures ParseLabelRoot(FormatLabel(name, n)).id != Int(n)
  {
    NatToDecimalSpec(n);
    ShapeSplits(name, NatToDecimal(n), "");
    assert FormatLabel(name, n) == name + "(" + NatToDecimal(n) + ")" + "";
  }

  /** A label without `(` never matches. */
  lemma NoParenIsError(lbl: string)
    requires '(' !in lbl
    ensures ParseLabel(lbl) == ErrorProp(lbl)
    ensures ParseLabelRoot(lbl) == ErrorProp(lbl)
  {
    forall k: nat ensures !SplitsAt(lbl, k) {
      if 0 < k < |lbl| && IsSuffix(lbl[k..]) {
        assert lbl[k] == lbl[k..][0];
      }
    }
  }

  /** The labels the converter pushes without a counter -- `redirection`,
      `magic`, `url` and `tag_extension_<name>` -- all become error
      entries (for a tag name without `(`). */
  lemma UnnumberedLabelsAreErrors(tagName: string)
    requires '(' !in tagName
    ensures forall l :: l in ["redirection", "magic", "url", "tag_extension_" + tagName] ==>
              ParseLabel(l) == ErrorProp(l)
  {
    var t := "tag_extension_" + tagName;
    TagExtensionNoParen(tagName);
    forall l | l in ["redirection", "magic", "url", t] ensures ParseLabel(l) == ErrorProp(l) {
      assert l == "redirection" || l == "magic" || l == "url" || l == t;
      assert '(' !in l;
      NoParenIsError(l);
    }
  }

  lemma TagExtensionNoParen(tagName: string)
    requires '(' !in tagName
    ensures '(' !in "tag_extension_" + tagName
  {
    var t := "tag_extension_" + tagName;
    forall i | 0 <= i < |t| ensures t[i] != '(' {
      if i >= 14 { assert t[i] == tagName[i - 14]; }
    }
  }
}
