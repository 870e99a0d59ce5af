/** Padding a rendered value to a signed width (`alignString`, `repeatStr`,
    `abs`, `sign` in lib/string-format.js). */
module Align {
  import opened Values

  /** `ALIGN_LEFT` and `ALIGN_RIGHT`. */
  const AlignLeft: int := -1
  const AlignRight: int := 1

  /** `abs(value)`. */
  function Abs(value: int): (r: nat)
    ensures r == value || r == -value
  {
    if value < 0 then -1 * value else value
  }

  /** `sign(value)`: -1 for a negative number, 1 for zero and positive ones. */
  function Sign(value: int): (r: int)
    ensures r == AlignLeft <==> value < 0
    ensures r == AlignRight <==> value >= 0
  {
    if value < 0 then -1 else 1
  }

  /** The width and the direction together give the alignment back. */
  lemma {:induction false} SignAbs(value: int)
    ensures Sign(value) * Abs(value) == value
  {
  }

  /** `s` concatenated `n` times. */
  function Repeat(s: string, n: nat): (r: string)
    ensures |r| == n * |s|
  {
    if n == 0 then [] else Repeat(s, n - 1) + s
  }

  lemma {:induction false} RepeatAdd(s: string, a: nat, b: nat)
    ensures Repeat(s, a) + Repeat(s, b) == Repeat(s, a + b)
    decreases b
  {
    if b == 0 {
      assert Repeat(s, a) + [] == Repeat(s, a);
    } else {
      RepeatAdd(s, a, b - 1);
      AppendAssoc(Repeat(s, a), Repeat(s, b - 1), s);
    }
  }

  /** Repeating a one-character string gives that many copies of the character. */
  lemma {:induction false} RepeatChar(c: char, n: nat)
    ensures |Repeat([c], n)| == n
    ensures forall k :: 0 <= k < n ==> Repeat([c], n)[k] == c
  {
    if n > 0 {
      RepeatChar(c, n - 1);
      assert Repeat([c], n) == Repeat([c], n - 1) + [c];
    }
  }

  /** Halving the count and doubling the block size drops the lowest bit. */
  lemma {:induction false} HalveStep(i: nat, p: nat)
    ensures (i / 2) * (2 * p) == i * p - (i % 2) * p
  {
    calc {
      (i / 2) * (2 * p);
      (2 * (i / 2)) * p;
      (i - i % 2) * p;
    }
  }

  /** `repeatStr(str, times)`: binary doubling. `base` holds `str` repeated
      `p` times for the current power of two `p`; bit `i & 1` of the count
      decides whether that block is appended. */
  method RepeatStr(str: string, times: nat) returns (r: string)
    ensures r == Repeat(str, times)
  {
    var base := str;
    var result := "";
    var i: nat := times;
    ghost var p: nat := 1;
    ghost var done: nat := 0;
    assert Repeat(str, 1) == str;
    while i > 0
      invariant done + i * p == times
      invariant base == Repeat(str, p)
      invariant result == Repeat(str, done)
      decreases i
    {
      HalveStep(i, p);
      if i % 2 == 1 {
        RepeatAdd(str, done, p);
        result := result + base;
        done := done + p;
      }
      RepeatAdd(str, p, p);
      base := base + base;
      i, p := i / 2, 2 * p;
    }
    r := result;
  }

  /** `alignString(str, totalLength, alignment)`: a string shorter than
      `totalLength` is padded with spaces, after it for `ALIGN_LEFT` and
      before it for `ALIGN_RIGHT`. Anything else is returned as it is; a
      non-string value is taken to have no `length` (a number has none), so
      the width test fails and it is returned unchanged. */
  function AlignString(str: Value, totalLength: nat, alignment: int): (r: Value)
    ensures str.NonStr? || totalLength <= |str.text| || (alignment != AlignLeft && alignment != AlignRight)
            ==> r == str
    ensures str.Str? ==> r.Str? && |r.text| >= |str.text|
    ensures str.Str? && |str.text| < totalLength && alignment == AlignLeft ==>
              |r.text| == totalLength && r.text[..|str.text|] == str.text
              && forall k :: |str.text| <= k < totalLength ==> r.text[k] == ' '
    ensures str.Str? && |str.text| < totalLength && alignment == AlignRight ==>
              |r.text| == totalLength && r.text[totalLength - |str.text|..] == str.text
              && forall k :: 0 <= k < totalLength - |str.text| ==> r.text[k] == ' '
  {
    match str
    case NonStr(_, _) => str
    case Str(s) =>
      if totalLength > |s| then
        var pad := Repeat(" ", totalLength - |s|);
        RepeatChar(' ', totalLength - |s|);
        if alignment == AlignLeft then Str(s + pad)
        else if alignment == AlignRight then Str(pad + s)
        else str
      else str
  }
}
