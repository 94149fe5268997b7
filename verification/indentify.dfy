/** The bracket indenter used to read the converter's JSON: every `[`
    raises the indent by two and is followed by a newline and the new
    indent, every `]` lowers it by two and is followed by a newline and the
    lowered indent, and every other character is copied. */
module Indentify {
  const Increment := 2

  /** `' ' * k`: no spaces for `k <= 0`. */
  function Spaces(k: int): (r: string)
    ensures |r| == if k <= 0 then 0 else k
    ensures forall i :: 0 <= i < |r| ==> r[i] == ' '
    decreases if k <= 0 then 0 else k
  {
    if k <= 0 then "" else [' '] + Spaces(k - 1)
  }

  /** What is written after a bracket character. */
  function Break(c: char, indent: int): string {
    [c] + "\n" + Spaces(indent)
  }

  /** The indent after `s`, starting from `indent`. */
  function IndentAfter(s: string, indent: int): int
    decreases |s|
  {
    if |s| == 0 then indent
    else if s[0] == '[' then IndentAfter(s[1..], indent + Increment)
    else if s[0] == ']' then IndentAfter(s[1..], indent - Increment)
    else IndentAfter(s[1..], indent)
  }

  /** What the loop writes for `s`, starting from `indent`. */
  function Emit(s: string, indent: int): (r: string)
    ensures |r| >= |s|
    decreases |s|
  {
    if |s| == 0 then ""
    else if s[0] == '[' then Break('[', indent + Increment) + Emit(s[1..], indent + Increment)
    else if s[0] == ']' then Break(']', indent - Increment) + Emit(s[1..], indent - Increment)
    else [s[0]] + Emit(s[1..], indent)
  }

  /** The file transform: the output for the whole input from indent 0. */
  function Indentify(input: string): string {
    Emit(input, 0)
  }

  function Count(s: string, c: char): nat {
    if |s| == 0 then 0 else (if s[0] == c then 1 else 0) + Count(s[1..], c)
  }

  /** The indent is twice the number of `[` minus the number of `]` seen. */
  lemma {:induction false} IndentCounts(s: string, indent: int)
    ensures IndentAfter(s, indent) == indent + Increment * (Count(s, '[') - Count(s, ']'))
    decreases |s|
  {
    if |s| > 0 {
      IndentCounts(s[1..], if s[0] == '[' then indent + Increment
                           else if s[0] == ']' then indent - Increment else indent);
    }
  }

  /** Input with as many `[` as `]` ends at the indent it started from. */
  lemma BalancedEndsAtZero(s: string)
    requires Count(s, '[') == Count(s, ']')
    ensures IndentAfter(s, 0) == 0
  {
    IndentCounts(s, 0);
  }

  /** The inverse: drop the newline and the exact number of spaces the
      indenter wrote after each bracket, tracking the indent the same way. */
  function Dedent(out: string, indent: int): string
    decreases |out|
  {
    if |out| == 0 then ""
    else if out[0] == '[' || out[0] == ']' then
      var next := if out[0] == '[' then indent + Increment else indent - Increment;
      var skip := 2 + |Spaces(next)|;
      if skip <= |out| then [out[0]] + Dedent(out[skip..], next) else [out[0]]
    else [out[0]] + Dedent(out[1..], indent)
  }

  /** Removing the inserted whitespace recovers the input exactly, so every
      other character is copied unchanged and in order. */
  lemma {:induction false} DedentEmit(s: string, indent: int)
    ensures Dedent(Emit(s, indent), indent) == s
    decreases |s|
  {
    if |s| > 0 {
      var c := s[0];
      if c == '[' || c == ']' {
        var next := if c == '[' then indent + Increment else indent - Increment;
        var o := Emit(s, indent);
        assert o == Break(c, next) + Emit(s[1..], next);
        assert o[2 + |Spaces(next)|..] == Emit(s[1..], next);
        DedentEmit(s[1..], next);
      } else {
        assert Emit(s, indent)[1..] == Emit(s[1..], indent);
        DedentEmit(s[1..], indent);
      }
      assert s == [c] + s[1..];
    }
  }

  /** A closing bracket below indent 0 is followed by the newline alone. */
  lemma NegativeIndentNoSpaces(s: string)
    ensures Indentify("]" + s) == "]\n" + Emit(s, -Increment)
  {
    assert ("]" + s)[1..] == s;
  }

  /** A text without brackets is written unchanged. */
  lemma {:induction false} NoBracketsUnchanged(s: string, indent: int)
    requires '[' !in s && ']' !in s
    ensures Emit(s, indent) == s
    decreases |s|
  {
    if |s| > 0 {
      NoBracketsUnchanged(s[1..], indent);
      assert s == [s[0]] + s[1..];
    }
  }
}
