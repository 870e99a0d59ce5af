/** The numeric mask renderer (`formatIntegerPart`, `formatFractionalPart`,
    `customFormatNumber` in lib/string-format.js).

    A value is rendered purely as text. In a mask, `0` (zero placeholder) and
    `#` (digit placeholder) each take one digit; any other character is a
    literal that is copied and takes none. */
module Mask {
  import opened Values
  import JsString

  predicate IsDigitPlaceholder(c: char)
  {
    c == '0' || c == '#'
  }

  /** Number of `0`/`#` positions in a mask. */
  function Placeholders(m: string): nat
  {
    if m == [] then 0
    else Placeholders(m[..|m| - 1]) + (if IsDigitPlaceholder(m[|m| - 1]) then 1 else 0)
  }

  lemma {:induction false} PlaceholdersAppend(a: string, b: string)
    ensures Placeholders(a + b) == Placeholders(a) + Placeholders(b)
    decreases |b|
  {
    if b == [] {
      assert a + b == a;
    } else {
      assert (a + b)[..|a + b| - 1] == a + b[..|b| - 1];
      PlaceholdersAppend(a, b[..|b| - 1]);
    }
  }

  lemma {:induction false} PlaceholdersAll(m: string)
    requires forall k :: 0 <= k < |m| ==> IsDigitPlaceholder(m[k])
    ensures Placeholders(m) == |m|
    decreases |m|
  {
    if m != [] {
      PlaceholdersAll(m[..|m| - 1]);
    }
  }

  /** The mask read positionally: every literal stays where it is and the
      placeholders, left to right, take the digits `ds` in order. */
  function Fill(m: string, ds: string): (r: string)
    requires |ds| == Placeholders(m)
    ensures |r| == |m|
    decreases |m|
  {
    if m == [] then []
    else if IsDigitPlaceholder(m[|m| - 1]) then Fill(m[..|m| - 1], ds[..|ds| - 1]) + [ds[|ds| - 1]]
    else Fill(m[..|m| - 1], ds) + [m[|m| - 1]]
  }

  /** Position `k` of the positional reading is the mask's own character when
      that is a literal, and otherwise the digit whose rank is the number of
      placeholders to its left. */
  lemma {:induction false} FillAt(m: string, ds: string, k: nat)
    requires |ds| == Placeholders(m) && k < |m|
    ensures IsDigitPlaceholder(m[k]) ==> Placeholders(m[..k]) < |ds|
    ensures Fill(m, ds)[k] == if IsDigitPlaceholder(m[k]) then ds[Placeholders(m[..k])] else m[k]
    decreases |m|
  {
    var m' := m[..|m| - 1];
    if k == |m| - 1 {
      assert m[..k] == m';
    } else {
      assert m'[..k] == m[..k];
      if IsDigitPlaceholder(m[|m| - 1]) {
        FillAt(m', ds[..|ds| - 1], k);
      } else {
        FillAt(m', ds, k);
      }
    }
  }

  /** Reading a mask whose every position is a placeholder gives the digits back. */
  lemma {:induction false} FillPlaceholdersOnly(m: string, ds: string)
    requires forall k :: 0 <= k < |m| ==> IsDigitPlaceholder(m[k])
    requires |ds| == Placeholders(m)
    ensures Fill(m, ds) == ds
  {
    PlaceholdersAll(m);
    forall k | 0 <= k < |m|
      ensures Fill(m, ds)[k] == ds[k]
    {
      FillAt(m, ds, k);
      PlaceholdersAll(m[..k]);
    }
  }

  /** The positional reading taken from the left end, at a placeholder: it
      takes the first digit. */
  lemma {:induction false} FillConsDigit(c: char, m: string, ds: string)
    requires IsDigitPlaceholder(c) && |ds| == Placeholders(m) + 1
    ensures Placeholders([c] + m) == |ds|
    ensures Fill([c] + m, ds) == [ds[0]] + Fill(m, ds[1..])
    decreases |m|
  {
    PlaceholdersCons(c, m);
    if m == [] {
      assert [c] + m == [c];
      assert ds[1..] == [];
      assert ds[..0] == [];
    } else {
      var m', e := m[..|m| - 1], m[|m| - 1];
      assert ([c] + m)[..|m|] == [c] + m';
      PlaceholdersCons(c, m');
      if IsDigitPlaceholder(e) {
        var ds' := ds[..|ds| - 1];
        FillConsDigit(c, m', ds');
        assert ds'[1..] == ds[1..][..|ds[1..]| - 1];
        AppendAssoc([ds[0]], Fill(m', ds'[1..]), [ds[|ds| - 1]]);
      } else {
        FillConsDigit(c, m', ds);
        AppendAssoc([ds[0]], Fill(m', ds[1..]), [e]);
      }
    }
  }

  /** The positional reading taken from the left end, at a literal: it is
      copied and takes no digit. */
  lemma {:induction false} FillConsLiteral(c: char, m: string, ds: string)
    requires !IsDigitPlaceholder(c) && |ds| == Placeholders(m)
    ensures Placeholders([c] + m) == |ds|
    ensures Fill([c] + m, ds) == [c] + Fill(m, ds)
    decreases |m|
  {
    PlaceholdersCons(c, m);
    if m == [] {
      assert [c] + m == [c];
    } else {
      var m', e := m[..|m| - 1], m[|m| - 1];
      assert ([c] + m)[..|m|] == [c] + m';
      PlaceholdersCons(c, m');
      if IsDigitPlaceholder(e) {
        var ds' := ds[..|ds| - 1];
        FillConsLiteral(c, m', ds');
        AppendAssoc([c], Fill(m', ds'), [ds[|ds| - 1]]);
      } else {
        FillConsLiteral(c, m', ds);
        AppendAssoc([c], Fill(m', ds), [e]);
      }
    }
  }

  /** The mask without its placeholders: what is left of it when no digit remains. */
  function Literals(m: string): (r: string)
    ensures |r| == |m| - Placeholders(m)
  {
    if m == [] then []
    else if IsDigitPlaceholder(m[|m| - 1]) then Literals(m[..|m| - 1])
    else Literals(m[..|m| - 1]) + [m[|m| - 1]]
  }

  /** A character occurs in a non-empty string when it occurs before the last
      position or is the last character. */
  lemma {:induction false} InLast(u: string, c: char)
    requires u != []
    ensures c in u <==> c in u[..|u| - 1] || u[|u| - 1] == c
  {
    assert u == u[..|u| - 1] + [u[|u| - 1]];
  }

  /** Number of mask positions from the leftmost `0` to the end (0 without a `0`). */
  function ZeroRun(u: string): (n: nat)
    ensures n <= |u|
  {
    if u == [] then 0
    else if '0' in u[..|u| - 1] then ZeroRun(u[..|u| - 1]) + 1
    else if u[|u| - 1] == '0' then 1
    else 0
  }

  /** The zero run is empty exactly when there is no `0`, and otherwise starts
      at the leftmost `0`. */
  lemma {:induction false} ZeroRunLeftmost(u: string)
    ensures ZeroRun(u) == 0 <==> '0' !in u
    ensures ZeroRun(u) > 0 ==> u[|u| - ZeroRun(u)] == '0' && '0' !in u[..|u| - ZeroRun(u)]
    decreases |u|
  {
    if u != [] {
      var u' := u[..|u| - 1];
      InLast(u, '0');
      ZeroRunLeftmost(u');
      if '0' in u' {
        var n := ZeroRun(u);
        assert u[..|u| - n] == u'[..|u'| - (n - 1)];
      }
    }
  }


  // ---------------------------------------------------------------------
  // Integer part (lib/string-format.js:160-207)
  // ---------------------------------------------------------------------

  /** What the right-to-left pass of `formatIntegerPart` produces for the
      part `mask` of the mask still to be read, with the digit cursor at `j`
      (no digit left once `j < 0`) and `pending` unmet `#` positions not yet
      back-filled. A `0` writes the pending count as zeros next to its own
      digit; unmet `#` positions never reached by a `0` are dropped. */
  function IntegerRender(digits: string, mask: string, j: int, pending: nat): string
    requires j < |digits|
    decreases |mask|
  {
    if mask == [] then []
    else
      var c, rest := mask[|mask| - 1], mask[..|mask| - 1];
      if c == '0' then
        IntegerRender(digits, rest, j - 1, 0) + [if j >= 0 then digits[j] else '0'] + Zeros(pending)
      else if c == '#' then
        if j >= 0 then IntegerRender(digits, rest, j - 1, pending) + [digits[j]]
        else IntegerRender(digits, rest, j - 1, pending + 1)
      else
        IntegerRender(digits, rest, j, pending) + [c]
  }

  /** `formatIntegerPart(number, mask)`: a mask no longer than the text of the
      number returns the number itself (not its text: a number stays a number). */
  function IntegerPart(number: Value, mask: string): Value
  {
    if |mask| <= |number.text| then number
    else Str(IntegerRender(number.text, mask, |number.text| - 1, 0))
  }

  /** One step of the right-to-left pass: the last mask character. */
  lemma {:induction false} IntegerRenderSnoc(digits: string, rest: string, c: char, j: int, pending: nat)
    requires j < |digits|
    ensures IntegerRender(digits, rest + [c], j, pending)
         == if c == '0' then
              IntegerRender(digits, rest, j - 1, 0) + [if j >= 0 then digits[j] else '0'] + Zeros(pending)
            else if c == '#' then
              if j >= 0 then IntegerRender(digits, rest, j - 1, pending) + [digits[j]]
              else IntegerRender(digits, rest, j - 1, pending + 1)
            else IntegerRender(digits, rest, j, pending) + [c]
  {
    assert (rest + [c])[..|rest|] == rest;
  }

  lemma {:induction false} LastSplit(m: string)
    requires m != []
    ensures m == m[..|m| - 1] + [m[|m| - 1]]
  {
  }

  lemma {:induction false} IntegerRenderDigitsPlaceholder(digits: string, u: string, m: string, j: int)
    requires m != [] && IsDigitPlaceholder(m[|m| - 1]) && 0 <= j < |digits|
    requires Placeholders(m[..|m| - 1]) <= j
    requires IntegerRender(digits, u + m[..|m| - 1], j - 1, 0)
          == IntegerRender(digits, u, j - 1 - Placeholders(m[..|m| - 1]), 0)
             + Fill(m[..|m| - 1], digits[j - Placeholders(m[..|m| - 1])..j])
    ensures Placeholders(m) <= j + 1
    ensures IntegerRender(digits, u + m, j, 0)
         == IntegerRender(digits, u, j - Placeholders(m), 0) + Fill(m, digits[j + 1 - Placeholders(m)..j + 1])
  {
    var c, m' := m[|m| - 1], m[..|m| - 1];
    var p := Placeholders(m');
    assert Placeholders(m) == p + 1;
    var ds := digits[j - p..j + 1];
    var head := IntegerRender(digits, u, j - 1 - p, 0);
    LastSplit(m);
    calc {
      IntegerRender(digits, u + m, j, 0);
      { AppendAssoc(u, m', [c]); }
      IntegerRender(digits, (u + m') + [c], j, 0);
      { IntegerRenderSnoc(digits, u + m', c, j, 0); assert Zeros(0) == []; }
      IntegerRender(digits, u + m', j - 1, 0) + [digits[j]];
      (head + Fill(m', digits[j - p..j])) + [digits[j]];
      { AppendAssoc(head, Fill(m', digits[j - p..j]), [digits[j]]); }
      head + (Fill(m', digits[j - p..j]) + [digits[j]]);
      { assert ds[..|ds| - 1] == digits[j - p..j]; }
      head + Fill(m, ds);
    }
  }

  lemma {:induction false} IntegerRenderDigitsLiteral(digits: string, u: string, m: string, j: int)
    requires m != [] && !IsDigitPlaceholder(m[|m| - 1]) && j < |digits|
    requires Placeholders(m[..|m| - 1]) <= j + 1
    requires IntegerRender(digits, u + m[..|m| - 1], j, 0)
          == IntegerRender(digits, u, j - Placeholders(m[..|m| - 1]), 0)
             + Fill(m[..|m| - 1], digits[j + 1 - Placeholders(m[..|m| - 1])..j + 1])
    ensures Placeholders(m) <= j + 1
    ensures IntegerRender(digits, u + m, j, 0)
         == IntegerRender(digits, u, j - Placeholders(m), 0) + Fill(m, digits[j + 1 - Placeholders(m)..j + 1])
  {
    var c, m' := m[|m| - 1], m[..|m| - 1];
    var p := Placeholders(m');
    assert Placeholders(m) == p;
    var ds := digits[j + 1 - p..j + 1];
    var head := IntegerRender(digits, u, j - p, 0);
    LastSplit(m);
    calc {
      IntegerRender(digits, u + m, j, 0);
      { AppendAssoc(u, m', [c]); }
      IntegerRender(digits, (u + m') + [c], j, 0);
      { IntegerRenderSnoc(digits, u + m', c, j, 0); }
      IntegerRender(digits, u + m', j, 0) + [c];
      (head + Fill(m', ds)) + [c];
      { AppendAssoc(head, Fill(m', ds), [c]); }
      head + Fill(m, ds);
    }
  }

  /** While digits last, the right-to-left pass reads the mask positionally:
      the last `Placeholders(m)` digits before the cursor fill `m`. */
  lemma {:induction false} IntegerRenderDigits(digits: string, u: string, m: string, j: int)
    requires j < |digits|
    requires Placeholders(m) <= j + 1
    ensures IntegerRender(digits, u + m, j, 0)
         == IntegerRender(digits, u, j - Placeholders(m), 0) + Fill(m, digits[j + 1 - Placeholders(m)..j + 1])
    decreases |m|
  {
    if m == [] {
      assert u + m == u;
      assert IntegerRender(digits, u, j, 0) + [] == IntegerRender(digits, u, j, 0);
    } else if IsDigitPlaceholder(m[|m| - 1]) {
      IntegerRenderDigits(digits, u, m[..|m| - 1], j - 1);
      IntegerRenderDigitsPlaceholder(digits, u, m, j);
    } else {
      IntegerRenderDigits(digits, u, m[..|m| - 1], j);
      IntegerRenderDigitsLiteral(digits, u, m, j);
    }
  }

  /** The whole mask read positionally while digits last. */
  lemma {:induction false} IntegerRenderWhole(digits: string, m: string, j: int)
    requires j < |digits| && Placeholders(m) <= j + 1
    ensures IntegerRender(digits, m, j, 0) == Fill(m, digits[j + 1 - Placeholders(m)..j + 1])
  {
    var e: string := [];
    var f := Fill(m, digits[j + 1 - Placeholders(m)..j + 1]);
    IntegerRenderDigits(digits, e, m, j);
    assert e + m == m;
    assert IntegerRender(digits, e, j - Placeholders(m), 0) == e;
    assert e + f == f;
  }

  /** With no digit left, a mask without `0` leaves only its literals: every
      `#` vanishes. */
  lemma {:induction false} IntegerRenderNoZero(digits: string, u: string, j: int, pending: nat)
    requires j < 0
    requires '0' !in u
    ensures IntegerRender(digits, u, j, pending) == Literals(u)
    decreases |u|
  {
    if u != [] {
      var u' := u[..|u| - 1];
      assert u == u' + [u[|u| - 1]];
      IntegerRenderNoZero(digits, u', j - 1, pending + 1);
      IntegerRenderNoZero(digits, u', j, pending);
    }
  }

  /** With no digit left, a mask of placeholders only and without `0` yields nothing. */
  lemma {:induction false} IntegerRenderHashesOnly(digits: string, u: string, j: int, pending: nat)
    requires j < 0 && '0' !in u
    requires forall k :: 0 <= k < |u| ==> IsDigitPlaceholder(u[k])
    ensures IntegerRender(digits, u, j, pending) == []
  {
    IntegerRenderNoZero(digits, u, j, pending);
    PlaceholdersAll(u);
  }

  /** With no digit left, a mask made only of placeholders yields zeros from
      its leftmost `0` onwards, plus the pending ones. */
  lemma {:induction false} IntegerRenderZeroRun(digits: string, u: string, j: int, pending: nat)
    requires j < 0 && '0' in u
    requires forall k :: 0 <= k < |u| ==> IsDigitPlaceholder(u[k])
    ensures IntegerRender(digits, u, j, pending) == Zeros(ZeroRun(u) + pending)
    decreases |u|
  {
    var u' := u[..|u| - 1];
    InLast(u, '0');
    assert forall k :: 0 <= k < |u'| ==> IsDigitPlaceholder(u'[k]);
    if u[|u| - 1] == '0' {
      if '0' in u' {
        IntegerRenderZeroRun(digits, u', j - 1, 0);
        IntegerRenderZeroStep(digits, u, j, pending, ZeroRun(u'));
      } else {
        IntegerRenderHashesOnly(digits, u', j - 1, 0);
        IntegerRenderZeroStep(digits, u, j, pending, 0);
      }
    } else {
      IntegerRenderZeroRun(digits, u', j - 1, pending + 1);
      IntegerRenderHashStep(digits, u, j, pending);
    }
  }

  /** A `0` read with no digit left, after the mask before it produced `n` zeros. */
  lemma {:induction false} IntegerRenderZeroStep(digits: string, u: string, j: int, pending: nat, n: nat)
    requires j < 0 && u != [] && u[|u| - 1] == '0'
    requires n == if '0' in u[..|u| - 1] then ZeroRun(u[..|u| - 1]) else 0
    requires IntegerRender(digits, u[..|u| - 1], j - 1, 0) == Zeros(n)
    ensures IntegerRender(digits, u, j, pending) == Zeros(ZeroRun(u) + pending)
  {
    var u' := u[..|u| - 1];
    assert ZeroRun(u) == n + 1;
    LastSplit(u);
    IntegerRenderSnoc(digits, u', '0', j, pending);
    assert Zeros(n) + ['0'] == Zeros(n + 1);
    ZerosAdd(n + 1, pending);
  }

  /** A `#` read with no digit left, when a `0` lies further left. */
  lemma {:induction false} IntegerRenderHashStep(digits: string, u: string, j: int, pending: nat)
    requires j < 0 && u != [] && u[|u| - 1] == '#' && '0' in u[..|u| - 1]
    requires IntegerRender(digits, u[..|u| - 1], j - 1, pending + 1) == Zeros(ZeroRun(u[..|u| - 1]) + (pending + 1))
    ensures IntegerRender(digits, u, j, pending) == Zeros(ZeroRun(u) + pending)
  {
    assert ZeroRun(u) + pending == ZeroRun(u[..|u| - 1]) + (pending + 1);
  }



  /** Masks of `0`/`#` only, longer than the digits: the digits come out in
      order, preceded by one `0` for every position from the leftmost `0` of
      the unmatched head of the mask; the length lies between the digit count
      and the mask length. */
  lemma {:induction false} IntegerPartZeroPadding(digits: string, mask: string)
    requires |digits| < |mask|
    requires forall k :: 0 <= k < |mask| ==> IsDigitPlaceholder(mask[k])
    ensures var n := ZeroRun(mask[..|mask| - |digits|]);
      && IntegerPart(Str(digits), mask) == Str(Zeros(n) + digits)
      && |digits| <= |Zeros(n) + digits| <= |mask|
  {
    var u, m := mask[..|mask| - |digits|], mask[|mask| - |digits|..];
    assert mask == u + m;
    PlaceholderSlices(mask, |mask| - |digits|);
    IntegerRenderPadded(digits, u, m);
  }

  lemma {:induction false} PlaceholderSlices(mask: string, i: nat)
    requires i <= |mask|
    requires forall k :: 0 <= k < |mask| ==> IsDigitPlaceholder(mask[k])
    ensures forall k :: 0 <= k < |mask[..i]| ==> IsDigitPlaceholder(mask[..i][k])
    ensures forall k :: 0 <= k < |mask[i..]| ==> IsDigitPlaceholder(mask[i..][k])
  {
  }

  lemma {:induction false} IntegerRenderPadded(digits: string, u: string, m: string)
    requires |m| == |digits|
    requires forall k :: 0 <= k < |u| ==> IsDigitPlaceholder(u[k])
    requires forall k :: 0 <= k < |m| ==> IsDigitPlaceholder(m[k])
    ensures IntegerRender(digits, u + m, |digits| - 1, 0) == Zeros(ZeroRun(u)) + digits
  {
    PlaceholdersAll(m);
    FillPlaceholdersOnly(m, digits);
    IntegerRenderSplit(digits, u, m);
    IntegerRenderHead(digits, u);
  }

  /** The head of a mask of placeholders only, read with no digit left. */
  lemma {:induction false} IntegerRenderHead(digits: string, u: string)
    requires forall k :: 0 <= k < |u| ==> IsDigitPlaceholder(u[k])
    ensures IntegerRender(digits, u, -1, 0) == Zeros(ZeroRun(u))
  {
    if '0' in u {
      IntegerRenderZeroRun(digits, u, -1, 0);
    } else {
      IntegerRenderHashesOnly(digits, u, -1, 0);
      ZeroRunLeftmost(u);
    }
  }

  /** Once the tail `m` holds exactly as many placeholders as there are
      digits, the head `u` is read with no digit left. */
  lemma {:induction false} IntegerRenderSplit(digits: string, u: string, m: string)
    requires Placeholders(m) == |digits|
    ensures IntegerRender(digits, u + m, |digits| - 1, 0) == IntegerRender(digits, u, -1, 0) + Fill(m, digits)
  {
    IntegerRenderDigits(digits, u, m, |digits| - 1);
    assert digits[0..|digits|] == digits;
  }

  /** With at most as many placeholders as digits (but a mask longer than the
      digits), each literal is copied at its own position without taking a
      digit, and the placeholders take the last digits in order; digits left
      of them are dropped. */
  lemma {:induction false} IntegerPartPositional(digits: string, mask: string)
    requires |digits| < |mask|
    requires Placeholders(mask) <= |digits|
    ensures IntegerPart(Str(digits), mask) == Str(Fill(mask, digits[|digits| - Placeholders(mask)..]))
  {
    var p := Placeholders(mask);
    IntegerRenderWhole(digits, mask, |digits| - 1);
    assert digits[|digits| - p..|digits|] == digits[|digits| - p..];
  }

  /** When the mask has more placeholders than there are digits, the digits
      fill the tail `m` of the mask holding exactly as many placeholders; the
      head `u` is read with no digit left, so when it has no `0` only its
      literals remain. */
  lemma {:induction false} IntegerPartUnmetHead(digits: string, u: string, m: string)
    requires |digits| < |u + m|
    requires Placeholders(m) == |digits|
    ensures IntegerPart(Str(digits), u + m) == Str(IntegerRender(digits, u, -1, 0) + Fill(m, digits))
    ensures '0' !in u ==> IntegerPart(Str(digits), u + m) == Str(Literals(u) + Fill(m, digits))
  {
    IntegerRenderSplit(digits, u, m);
    if '0' !in u {
      IntegerRenderNoZero(digits, u, -1, 0);
    }
  }

  /** With no digit left, the unmet placeholders right of the last `0` of
      a mask are not zero-filled where they stand: they become pending and
      are all written as zeros next to that `0`, on its right but left of
      every literal that lies between them. So `0-##` on 5 gives `00-5`, not
      `0-05`. */
  lemma {:induction false} IntegerRenderBackfill(digits: string, v: string, w: string, j: int, pending: nat)
    requires j < 0 && '0' !in w
    ensures IntegerRender(digits, v + "0" + w, j, pending)
         == IntegerRender(digits, v, j - Placeholders(w) - 1, 0) + "0" + Zeros(Placeholders(w) + pending) + Literals(w)
    decreases |w|
  {
    var m := v + "0" + w;
    if w == [] {
      assert m == v + ['0'] && m[..|m| - 1] == v;
    } else {
      var w', c := w[..|w| - 1], w[|w| - 1];
      assert w == w' + [c];
      assert c in w && '0' !in w';
      assert m[..|m| - 1] == v + "0" + w' && m[|m| - 1] == c;
      var head := IntegerRender(digits, v, j - Placeholders(w) - 1, 0) + "0";
      if c == '#' {
        assert Placeholders(w) == Placeholders(w') + 1 && Literals(w) == Literals(w');
        assert IntegerRender(digits, m, j, pending) == IntegerRender(digits, v + "0" + w', j - 1, pending + 1);
        IntegerRenderBackfill(digits, v, w', j - 1, pending + 1);
      } else {
        assert Placeholders(w) == Placeholders(w') && Literals(w) == Literals(w') + [c];
        assert IntegerRender(digits, m, j, pending) == IntegerRender(digits, v + "0" + w', j, pending) + [c];
        IntegerRenderBackfill(digits, v, w', j, pending);
        AppendAssoc(head + Zeros(Placeholders(w) + pending), Literals(w'), [c]);
      }
    }
  }

  function Reverse(s: string): (r: string)
    ensures |r| == |s|
  {
    if s == [] then [] else [s[|s| - 1]] + Reverse(s[..|s| - 1])
  }

  lemma {:induction false} ReverseSnoc(s: string, c: char)
    ensures Reverse(s + [c]) == [c] + Reverse(s)
  {
    assert (s + [c])[..|s + [c]| - 1] == s;
  }

  lemma {:induction false} PrefixSnoc(s: string, i: nat)
    requires i < |s|
    ensures s[..i + 1] == s[..i] + [s[i]]
  {
  }

  /** The inner loop run at a `0` by both passes: appends `count` zeros. */
  method AppendZeros(result: string, count: nat) returns (r: string)
    ensures r == result + Zeros(count)
  {
    r := result;
    var k := 0;
    while k < count
      invariant 0 <= k <= count
      invariant r == result + Zeros(k)
    {
      r := r + "0";
      k := k + 1;
    }
  }

  lemma {:induction false} ReverseAppend(s: string, t: string)
    ensures Reverse(s + t) == Reverse(t) + Reverse(s)
    decreases |t|
  {
    if t == [] {
      assert s + t == s;
    } else {
      var t', c := t[..|t| - 1], t[|t| - 1];
      assert s + t == (s + t') + [c];
      assert t == t' + [c];
      ReverseSnoc(s + t', c);
      ReverseSnoc(t', c);
      ReverseAppend(s, t');
      AppendAssoc([c], Reverse(t'), Reverse(s));
    }
  }

  lemma {:induction false} ReverseZeros(n: nat)
    ensures Reverse(Zeros(n)) == Zeros(n)
  {
    if n > 0 {
      ReverseSnoc(Zeros(n - 1), '0');
      ReverseZeros(n - 1);
      ZerosAdd(1, n - 1);
      assert Zeros(1) == "0";
    }
  }

  /** Pushing `n` zeros onto the stack puts them in front of the reversed output. */
  lemma {:induction false} ReverseAppendZeros(result: string, n: nat)
    ensures Reverse(result + Zeros(n)) == Zeros(n) + Reverse(result)
  {
    ReverseAppend(result, Zeros(n));
    ReverseZeros(n);
  }

  /** The pending zeros, then the digit, appended to the reversed result. */
  lemma {:induction false} ZeroStepReverse(result: string, e: nat, d: char)
    ensures e == 0 ==> result + Zeros(e) == result
    ensures Reverse((result + Zeros(e)) + [d]) == [d] + (Zeros(e) + Reverse(result))
  {
    ReverseSnoc(result + Zeros(e), d);
    ReverseAppendZeros(result, e);
    assert Zeros(0) == [];
  }

  /** The loop invariant of `formatIntegerPart` across a `0` of the mask. */
  lemma {:induction false} IntegerZeroBranch(digits: string, mask: string, i: nat, j: int, e: nat, result: string, d: char, target: string)
    requires i < |mask| && mask[i] == '0' && j < |digits|
    requires d == if j >= 0 then digits[j] else '0'
    requires IntegerRender(digits, mask[..i + 1], j, e) + Reverse(result) == target
    ensures e == 0 ==> result + Zeros(e) == result
    ensures IntegerRender(digits, mask[..i], j - 1, 0) + Reverse((result + Zeros(e)) + [d]) == target
  {
    IntegerLoopZero(digits, mask, i, j, e, Reverse(result), d);
    ZeroStepReverse(result, e, d);
  }

  /** The loop invariant across a `#` with a digit under it. */
  lemma {:induction false} IntegerDigitBranch(digits: string, mask: string, i: nat, j: int, e: nat, result: string, target: string)
    requires i < |mask| && mask[i] == '#' && 0 <= j < |digits|
    requires IntegerRender(digits, mask[..i + 1], j, e) + Reverse(result) == target
    ensures IntegerRender(digits, mask[..i], j - 1, e) + Reverse(result + [digits[j]]) == target
  {
    IntegerLoopDigit(digits, mask, i, j, e, Reverse(result));
    ReverseSnoc(result, digits[j]);
  }

  /** The loop invariant across a literal of the mask. */
  lemma {:induction false} IntegerLiteralBranch(digits: string, mask: string, i: nat, j: int, e: nat, result: string, target: string)
    requires i < |mask| && !IsDigitPlaceholder(mask[i]) && j < |digits|
    requires IntegerRender(digits, mask[..i + 1], j, e) + Reverse(result) == target
    ensures IntegerRender(digits, mask[..i], j, e) + Reverse(result + [mask[i]]) == target
  {
    IntegerLoopLiteral(digits, mask, i, j, e, Reverse(result));
    ReverseSnoc(result, mask[i]);
  }

  // One lemma per branch of the loop of `formatIntegerPart`: reading
  // `mask[i]` moves the unread part of the mask from `mask[..i + 1]` to
  // `mask[..i]`, in front of the reversed output `done` already produced.

  lemma {:induction false} IntegerLoopZero(digits: string, mask: string, i: nat, j: int, e: nat, done: string, d: char)
    requires i < |mask| && mask[i] == '0' && j < |digits|
    requires d == if j >= 0 then digits[j] else '0'
    ensures IntegerRender(digits, mask[..i + 1], j, e) + done
         == IntegerRender(digits, mask[..i], j - 1, 0) + ([d] + (Zeros(e) + done))
  {
    PrefixSnoc(mask, i);
    var head := IntegerRender(digits, mask[..i], j - 1, 0);
    IntegerRenderSnoc(digits, mask[..i], '0', j, e);
    AppendAssoc(head + [d], Zeros(e), done);
    AppendAssoc(head, [d], Zeros(e) + done);
  }

  lemma {:induction false} IntegerLoopDigit(digits: string, mask: string, i: nat, j: int, e: nat, done: string)
    requires i < |mask| && mask[i] == '#' && 0 <= j < |digits|
    ensures IntegerRender(digits, mask[..i + 1], j, e) + done
         == IntegerRender(digits, mask[..i], j - 1, e) + ([digits[j]] + done)
  {
    PrefixSnoc(mask, i);
    IntegerRenderSnoc(digits, mask[..i], '#', j, e);
    AppendAssoc(IntegerRender(digits, mask[..i], j - 1, e), [digits[j]], done);
  }

  lemma {:induction false} IntegerLoopUnmet(digits: string, mask: string, i: nat, j: int, e: nat)
    requires i < |mask| && mask[i] == '#' && j < 0
    ensures IntegerRender(digits, mask[..i + 1], j, e) == IntegerRender(digits, mask[..i], j - 1, e + 1)
  {
    PrefixSnoc(mask, i);
    IntegerRenderSnoc(digits, mask[..i], '#', j, e);
  }

  lemma {:induction false} IntegerLoopLiteral(digits: string, mask: string, i: nat, j: int, e: nat, done: string)
    requires i < |mask| && !IsDigitPlaceholder(mask[i]) && j < |digits|
    ensures IntegerRender(digits, mask[..i + 1], j, e) + done
         == IntegerRender(digits, mask[..i], j, e) + ([mask[i]] + done)
  {
    PrefixSnoc(mask, i);
    IntegerRenderSnoc(digits, mask[..i], mask[i], j, e);
    AppendAssoc(IntegerRender(digits, mask[..i], j, e), [mask[i]], done);
  }

  /** One turn of the loop of `formatIntegerPart`: reads `mask[i]` against
      the digit at `j`; the mask left to read shrinks to `mask[..i]`. */
  method IntegerStep(str: string, mask: string, i: nat, j: int, emptyCount: nat, result: string, ghost target: string)
    returns (j': int, emptyCount': nat, result': string)
    requires i < |mask| && j < |str|
    requires IntegerRender(str, mask[..i + 1], j, emptyCount) + Reverse(result) == target
    ensures j' <= j + 1 && j' - 1 < |str|
    ensures IntegerRender(str, mask[..i], j' - 1, emptyCount') + Reverse(result') == target
  {
    var digit: Option<char> := if 0 <= j < |str| then Some(str[j]) else None;
    var maskChar := mask[i];
    j', emptyCount', result' := j, emptyCount, result;
    if maskChar == '0' {
      var d := if digit.None? then '0' else digit.value;
      assert d == if j >= 0 then str[j] else '0';
      IntegerZeroBranch(str, mask, i, j, emptyCount, result, d, target);
      if emptyCount > 0 {
        result' := AppendZeros(result, emptyCount);
        emptyCount' := 0;
      }
      result' := result' + [d];
    } else if maskChar == '#' {
      if digit.None? {
        IntegerLoopUnmet(str, mask, i, j, emptyCount);
        emptyCount' := emptyCount + 1;
      } else {
        assert digit.value == str[j];
        IntegerDigitBranch(str, mask, i, j, emptyCount, result, target);
        result' := result + [digit.value];
      }
    } else {
      IntegerLiteralBranch(str, mask, i, j, emptyCount, result, target);
      j' := j + 1;
      result' := result + [maskChar];
    }
  }

  /** `formatIntegerPart`: walks the mask from its last character to its
      first, pushing characters onto `result`, and returns `result` reversed. */
  method FormatIntegerPart(number: Value, mask: string) returns (r: Value)
    ensures r == IntegerPart(number, mask)
    ensures |mask| <= |number.text| ==> r == number
  {
    var str := number.text;
    if |mask| <= |str| {
      return number;
    }
    var i, j := |mask| - 1, |str| - 1;
    var result: string := [];
    var emptyCount: nat := 0;
    ghost var target := IntegerRender(str, mask, |str| - 1, 0);
    assert mask[..i + 1] == mask;
    assert Reverse(result) == [];
    while i >= 0
      invariant -1 <= i < |mask|
      invariant j < |str|
      invariant IntegerRender(str, mask[..i + 1], j, emptyCount) + Reverse(result) == target
    {
      j, emptyCount, result := IntegerStep(str, mask, i, j, emptyCount, result, target);
      i, j := i - 1, j - 1;
    }
    assert mask[..0] == [];
    r := Str(Reverse(result));
  }

  // ---------------------------------------------------------------------
  // Fractional part (lib/string-format.js:215-261)
  // ---------------------------------------------------------------------

  /** The mask without its `.` characters. */
  function RemoveDots(m: string): (r: string)
    ensures '.' !in r
  {
    if m == [] then [] else (if m[0] == '.' then [] else [m[0]]) + RemoveDots(m[1..])
  }

  /** What the left-to-right pass of `formatFractionalPart` produces for the
      part `mask` of the mask still to be read, with the digit cursor at `j`
      (no digit left once `j >= |digits|`) and `pending` unmet `#` positions.
      A literal `.` is dropped. */
  function FractionalRender(digits: string, mask: string, j: nat, pending: nat): string
    decreases |mask|
  {
    if mask == [] then []
    else
      var c, rest := mask[0], mask[1..];
      if c == '0' then
        Zeros(pending) + [if j < |digits| then digits[j] else '0'] + FractionalRender(digits, rest, j + 1, 0)
      else if c == '#' then
        if j < |digits| then [digits[j]] + FractionalRender(digits, rest, j + 1, pending)
        else FractionalRender(digits, rest, j + 1, pending + 1)
      else
        (if c == '.' then [] else [c]) + FractionalRender(digits, rest, j, pending)
  }

  /** The output is never longer than the mask plus the pending count. */
  lemma {:induction false} FractionalRenderLength(digits: string, mask: string, j: nat, pending: nat)
    ensures |FractionalRender(digits, mask, j, pending)| <= |mask| + pending
    decreases |mask|
  {
    if mask != [] {
      FractionalRenderLength(digits, mask[1..], j + 1, 0);
      FractionalRenderLength(digits, mask[1..], j + 1, pending);
      FractionalRenderLength(digits, mask[1..], j + 1, pending + 1);
      FractionalRenderLength(digits, mask[1..], j, pending);
    }
  }

  lemma {:induction false} RemoveDotsPlaceholders(m: string)
    ensures Placeholders(RemoveDots(m)) == Placeholders(m)
    decreases |m|
  {
    if m != [] {
      assert m == [m[0]] + m[1..];
      RemoveDotsPlaceholders(m[1..]);
      PlaceholdersAppend([m[0]], m[1..]);
      PlaceholdersAppend(if m[0] == '.' then [] else [m[0]], RemoveDots(m[1..]));
      assert Placeholders([m[0]]) == Placeholders([]) + (if IsDigitPlaceholder(m[0]) then 1 else 0);
    }
  }

  /** One step of the left-to-right pass: the first mask character. */
  lemma {:induction false} FractionalRenderCons(digits: string, c: char, rest: string, j: nat, pending: nat)
    ensures FractionalRender(digits, [c] + rest, j, pending)
         == if c == '0' then
              Zeros(pending) + [if j < |digits| then digits[j] else '0'] + FractionalRender(digits, rest, j + 1, 0)
            else if c == '#' then
              if j < |digits| then [digits[j]] + FractionalRender(digits, rest, j + 1, pending)
              else FractionalRender(digits, rest, j + 1, pending + 1)
            else (if c == '.' then [] else [c]) + FractionalRender(digits, rest, j, pending)
  {
    assert ([c] + rest)[0] == c && ([c] + rest)[1..] == rest;
  }

  lemma {:induction false} RemoveDotsCons(c: char, m: string)
    ensures RemoveDots([c] + m) == (if c == '.' then [] else [c]) + RemoveDots(m)
  {
    assert ([c] + m)[0] == c && ([c] + m)[1..] == m;
  }

  lemma {:induction false} PlaceholdersCons(c: char, m: string)
    ensures Placeholders([c] + m) == Placeholders(m) + (if IsDigitPlaceholder(c) then 1 else 0)
  {
    PlaceholdersAppend([c], m);
    assert [c][..0] == [];
  }

  lemma {:induction false} PlaceholdersFirst(m: string)
    requires m != []
    ensures Placeholders(m) == Placeholders(m[1..]) + (if IsDigitPlaceholder(m[0]) then 1 else 0)
  {
    PlaceholdersCons(m[0], m[1..]);
    assert [m[0]] + m[1..] == m;
  }

  /** Rewriting under a common prefix. */
  lemma {:induction false} PrefixRewrite(d: string, x: string, f: string, t: string)
    requires x == f + t
    ensures d + x == (d + f) + t
  {
    AppendAssoc(d, f, t);
  }

  /** A leading placeholder of the left-to-right pass, with a digit under the cursor. */
  lemma {:induction false} FractionalRenderLeadingDigit(digits: string, m: string, u: string, j: nat)
    requires m != [] && IsDigitPlaceholder(m[0]) && j < |digits|
    ensures FractionalRender(digits, m + u, j, 0) == [digits[j]] + FractionalRender(digits, m[1..] + u, j + 1, 0)
  {
    var c, m' := m[0], m[1..];
    assert m == [c] + m';
    AppendAssoc([c], m', u);
    FractionalRenderCons(digits, c, m' + u, j, 0);
    assert Zeros(0) + [digits[j]] == [digits[j]];
  }

  /** The positional reading of a mask whose first character is a placeholder. */
  lemma {:induction false} FillLeadingDigit(m: string, ds: string)
    requires m != [] && IsDigitPlaceholder(m[0])
    requires Placeholders(RemoveDots(m[1..])) + 1 == |ds|
    ensures Placeholders(RemoveDots(m)) == |ds|
    ensures Fill(RemoveDots(m), ds) == [ds[0]] + Fill(RemoveDots(m[1..]), ds[1..])
  {
    var c, m' := m[0], m[1..];
    assert m == [c] + m';
    RemoveDotsCons(c, m');
    FillConsDigit(c, RemoveDots(m'), ds);
  }

  lemma {:induction false} FractionalDigitsPlaceholder(digits: string, m: string, u: string, j: nat)
    requires m != [] && IsDigitPlaceholder(m[0]) && j + Placeholders(m) <= |digits|
    requires Placeholders(m) == Placeholders(m[1..]) + 1
    requires Placeholders(RemoveDots(m[1..])) == Placeholders(m[1..])
    requires FractionalRender(digits, m[1..] + u, j + 1, 0)
          == Fill(RemoveDots(m[1..]), digits[j + 1..j + Placeholders(m)]) + FractionalRender(digits, u, j + Placeholders(m), 0)
    ensures Placeholders(RemoveDots(m)) == Placeholders(m)
    ensures FractionalRender(digits, m + u, j, 0)
         == Fill(RemoveDots(m), digits[j..j + Placeholders(m)]) + FractionalRender(digits, u, j + Placeholders(m), 0)
  {
    var p := Placeholders(m);
    var ds := digits[j..j + p];
    var f := Fill(RemoveDots(m[1..]), digits[j + 1..j + p]);
    var tail := FractionalRender(digits, u, j + p, 0);
    FractionalRenderLeadingDigit(digits, m, u, j);
    PrefixRewrite([digits[j]], FractionalRender(digits, m[1..] + u, j + 1, 0), f, tail);
    assert ds[0] == digits[j] && ds[1..] == digits[j + 1..j + p];
    FillLeadingDigit(m, ds);
  }

  lemma {:induction false} FractionalDigitsLiteral(digits: string, m: string, u: string, j: nat)
    requires m != [] && !IsDigitPlaceholder(m[0]) && m[0] != '.' && j + Placeholders(m) <= |digits|
    requires Placeholders(m) == Placeholders(m[1..])
    requires Placeholders(RemoveDots(m[1..])) == Placeholders(m[1..])
    requires FractionalRender(digits, m[1..] + u, j, 0)
          == Fill(RemoveDots(m[1..]), digits[j..j + Placeholders(m)]) + FractionalRender(digits, u, j + Placeholders(m), 0)
    ensures Placeholders(RemoveDots(m)) == Placeholders(m)
    ensures FractionalRender(digits, m + u, j, 0)
         == Fill(RemoveDots(m), digits[j..j + Placeholders(m)]) + FractionalRender(digits, u, j + Placeholders(m), 0)
  {
    var p := Placeholders(m);
    var ds := digits[j..j + p];
    var tail := FractionalRender(digits, u, j + p, 0);
    FractionalRenderLeadingLiteral(digits, m, u, j);
    PrefixRewrite([m[0]], FractionalRender(digits, m[1..] + u, j, 0), Fill(RemoveDots(m[1..]), ds), tail);
    FillLeadingLiteral(m, ds);
  }

  /** A leading literal of the left-to-right pass is copied. */
  lemma {:induction false} FractionalRenderLeadingLiteral(digits: string, m: string, u: string, j: nat)
    requires m != [] && !IsDigitPlaceholder(m[0]) && m[0] != '.'
    ensures FractionalRender(digits, m + u, j, 0) == [m[0]] + FractionalRender(digits, m[1..] + u, j, 0)
  {
    var c, m' := m[0], m[1..];
    assert m == [c] + m';
    AppendAssoc([c], m', u);
    FractionalRenderCons(digits, c, m' + u, j, 0);
  }

  /** The positional reading of a mask whose first character is a literal. */
  lemma {:induction false} FillLeadingLiteral(m: string, ds: string)
    requires m != [] && !IsDigitPlaceholder(m[0]) && m[0] != '.'
    requires Placeholders(RemoveDots(m[1..])) == |ds|
    ensures Placeholders(RemoveDots(m)) == |ds|
    ensures Fill(RemoveDots(m), ds) == [m[0]] + Fill(RemoveDots(m[1..]), ds)
  {
    var c, m' := m[0], m[1..];
    assert m == [c] + m';
    RemoveDotsCons(c, m');
    FillConsLiteral(c, RemoveDots(m'), ds);
  }

  lemma {:induction false} FractionalDigitsDot(digits: string, m: string, u: string, j: nat)
    requires m != [] && m[0] == '.' && j + Placeholders(m) <= |digits|
    requires Placeholders(m) == Placeholders(m[1..])
    requires Placeholders(RemoveDots(m[1..])) == Placeholders(m[1..])
    requires FractionalRender(digits, m[1..] + u, j, 0)
          == Fill(RemoveDots(m[1..]), digits[j..j + Placeholders(m)]) + FractionalRender(digits, u, j + Placeholders(m), 0)
    ensures Placeholders(RemoveDots(m)) == Placeholders(m)
    ensures FractionalRender(digits, m + u, j, 0)
         == Fill(RemoveDots(m), digits[j..j + Placeholders(m)]) + FractionalRender(digits, u, j + Placeholders(m), 0)
  {
    var m' := m[1..];
    assert m == ['.'] + m';
    RemoveDotsCons('.', m');
    assert RemoveDots(m) == RemoveDots(m');
    AppendAssoc(['.'], m', u);
    FractionalRenderCons(digits, '.', m' + u, j, 0);
  }

  /** While digits last, the left-to-right pass reads the mask positionally:
      the placeholders of `m` take the next `Placeholders(m)` digits in order,
      literals are copied in place (a `.` dropped). */
  lemma {:induction false} FractionalRenderDigits(digits: string, m: string, u: string, j: nat)
    requires j + Placeholders(m) <= |digits|
    ensures Placeholders(RemoveDots(m)) == Placeholders(m)
    ensures FractionalRender(digits, m + u, j, 0)
         == Fill(RemoveDots(m), digits[j..j + Placeholders(m)]) + FractionalRender(digits, u, j + Placeholders(m), 0)
    decreases |m|
  {
    if m == [] {
      assert m + u == u;
      assert Placeholders(m) == 0 && RemoveDots(m) == [];
      assert digits[j..j] == [];
      assert Fill([], []) + FractionalRender(digits, u, j, 0) == FractionalRender(digits, u, j, 0);
    } else {
      PlaceholdersFirst(m);
      if IsDigitPlaceholder(m[0]) {
        FractionalRenderDigits(digits, m[1..], u, j + 1);
        FractionalDigitsPlaceholder(digits, m, u, j);
      } else if m[0] == '.' {
        FractionalRenderDigits(digits, m[1..], u, j);
        FractionalDigitsDot(digits, m, u, j);
      } else {
        FractionalRenderDigits(digits, m[1..], u, j);
        FractionalDigitsLiteral(digits, m, u, j);
      }
    }
  }

  /** Past the end of the digits, a mask without `#` zero-fills: each `0`
      writes `0`, literals are copied and `.` is dropped. */
  lemma {:induction false} FractionalRenderZeroFill(digits: string, u: string, j: nat)
    requires |digits| <= j
    requires '#' !in u
    ensures FractionalRender(digits, u, j, 0) == RemoveDots(u)
    decreases |u|
  {
    if u != [] {
      assert u == [u[0]] + u[1..];
      FractionalRenderZeroFill(digits, u[1..], if u[0] == '0' then j + 1 else j);
      assert Zeros(0) == [];
    }
  }

  /** With at most as many placeholders as digits, the fractional mask is read
      positionally against the first digits; surplus digits are truncated. */
  lemma {:induction false} FractionalPositional(digits: string, mask: string)
    requires Placeholders(mask) <= |digits|
    ensures Placeholders(RemoveDots(mask)) == Placeholders(mask)
    ensures FractionalRender(digits, mask, 0, 0) == Fill(RemoveDots(mask), digits[..Placeholders(mask)])
  {
    FractionalRenderDigits(digits, mask, [], 0);
    assert mask + [] == mask;
  }

  /** Once the digits of `m` are used up, the rest `u` of the mask zero-fills
      at its `0` positions when it has no `#`. */
  lemma {:induction false} FractionalZeroFilled(digits: string, m: string, u: string)
    requires Placeholders(m) == |digits|
    requires '#' !in u
    ensures Placeholders(RemoveDots(m)) == Placeholders(m)
    ensures FractionalRender(digits, m + u, 0, 0) == Fill(RemoveDots(m), digits) + RemoveDots(u)
  {
    FractionalRenderDigits(digits, m, u, 0);
    assert digits[0..|digits|] == digits;
    FractionalRenderZeroFill(digits, u, |digits|);
  }

  // One lemma per branch of the loop of `formatFractionalPart`: reading
  // `mask[i]` moves the unread part of the mask from `mask[i..]` to
  // `mask[i + 1..]`, after the output `result` already produced.

  lemma {:induction false} FractionalLoopZero(digits: string, mask: string, i: nat, j: nat, e: nat, result: string, d: char)
    requires i < |mask| && mask[i] == '0'
    requires d == if j < |digits| then digits[j] else '0'
    ensures result + FractionalRender(digits, mask[i..], j, e)
         == ((result + Zeros(e)) + [d]) + FractionalRender(digits, mask[i + 1..], j + 1, 0)
  {
    SuffixCons(mask, i);
    FractionalRenderCons(digits, '0', mask[i + 1..], j, e);
    var tail := FractionalRender(digits, mask[i + 1..], j + 1, 0);
    AppendAssoc(result, Zeros(e) + [d], tail);
    AppendAssoc(result, Zeros(e), [d]);
  }

  lemma {:induction false} FractionalLoopDigit(digits: string, mask: string, i: nat, j: nat, e: nat, result: string)
    requires i < |mask| && mask[i] == '#' && j < |digits|
    ensures result + FractionalRender(digits, mask[i..], j, e)
         == (result + [digits[j]]) + FractionalRender(digits, mask[i + 1..], j + 1, e)
  {
    SuffixCons(mask, i);
    FractionalRenderCons(digits, '#', mask[i + 1..], j, e);
    AppendAssoc(result, [digits[j]], FractionalRender(digits, mask[i + 1..], j + 1, e));
  }

  lemma {:induction false} FractionalLoopUnmet(digits: string, mask: string, i: nat, j: nat, e: nat)
    requires i < |mask| && mask[i] == '#' && |digits| <= j
    ensures FractionalRender(digits, mask[i..], j, e) == FractionalRender(digits, mask[i + 1..], j + 1, e + 1)
  {
    SuffixCons(mask, i);
    FractionalRenderCons(digits, '#', mask[i + 1..], j, e);
  }

  lemma {:induction false} FractionalLoopLiteral(digits: string, mask: string, i: nat, j: nat, e: nat, result: string)
    requires i < |mask| && !IsDigitPlaceholder(mask[i]) && mask[i] != '.'
    ensures result + FractionalRender(digits, mask[i..], j, e)
         == (result + [mask[i]]) + FractionalRender(digits, mask[i + 1..], j, e)
  {
    SuffixCons(mask, i);
    FractionalRenderCons(digits, mask[i], mask[i + 1..], j, e);
    AppendAssoc(result, [mask[i]], FractionalRender(digits, mask[i + 1..], j, e));
  }

  lemma {:induction false} FractionalLoopDot(digits: string, mask: string, i: nat, j: nat, e: nat)
    requires i < |mask| && mask[i] == '.'
    ensures FractionalRender(digits, mask[i..], j, e) == FractionalRender(digits, mask[i + 1..], j, e)
  {
    SuffixCons(mask, i);
    FractionalRenderCons(digits, '.', mask[i + 1..], j, e);
  }

  lemma {:induction false} SuffixCons(s: string, i: nat)
    requires i < |s|
    ensures s[i..] == [s[i]] + s[i + 1..]
  {
  }

  /** `formatFractionalPart`: walks the mask left to right with a string accumulator. */
  method FormatFractionalPart(number: string, mask: string) returns (r: string)
    ensures r == FractionalRender(number, mask, 0, 0)
    ensures |r| <= |mask|
  {
    var str := number;
    var i, j: int := 0, 0;
    var result: string := [];
    var emptyCount: nat := 0;
    ghost var target := FractionalRender(str, mask, 0, 0);
    assert mask[0..] == mask;
    while i < |mask|
      invariant 0 <= i <= |mask| && 0 <= j
      invariant result + FractionalRender(str, mask[i..], j, emptyCount) == target
    {
      var digit: Option<char> := if |str| > j then Some(str[j]) else None;
      var maskChar := mask[i];
      if maskChar == '0' {
        var d := if digit.None? then '0' else digit.value;
        FractionalLoopZero(str, mask, i, j, emptyCount, result, d);
        if emptyCount > 0 {
          result := AppendZeros(result, emptyCount);
          emptyCount := 0;
        } else {
          assert result + Zeros(0) == result;
        }
        result := result + [d];
      } else if maskChar == '#' {
        if digit.None? {
          FractionalLoopUnmet(str, mask, i, j, emptyCount);
          emptyCount := emptyCount + 1;
        } else {
          FractionalLoopDigit(str, mask, i, j, emptyCount, result);
          result := result + [digit.value];
        }
      } else {
        if maskChar != '.' {
          FractionalLoopLiteral(str, mask, i, j, emptyCount, result);
          result := result + [maskChar];
        } else {
          FractionalLoopDot(str, mask, i, j, emptyCount);
        }
        j := j - 1;
      }
      i, j := i + 1, j + 1;
    }
    assert mask[i..] == [];
    FractionalRenderLength(str, mask, 0, 0);
    r := result;
  }

  // ---------------------------------------------------------------------
  // Dispatch (lib/string-format.js:125-153)
  // ---------------------------------------------------------------------

  /** The integer and fractional submasks: the mask split at its first `.`. */
  function MaskParts(formatToken: string): (parts: (string, string))
    ensures '.' !in parts.0
    ensures '.' in formatToken ==> formatToken == parts.0 + "." + parts.1
    ensures '.' !in formatToken ==> parts == (formatToken, "")
  {
    match JsString.FirstIndex(formatToken, '.')
    case None => (formatToken, "")
    case Some(k) =>
      assert formatToken == formatToken[..k] + "." + formatToken[k + 1..];
      (formatToken[..k], formatToken[k + 1..])
  }

  /** `customFormatNumber(value, formatToken)`: a value whose text splits at
      `.` into exactly two parts has both parts rendered and rejoined with
      `.`; any other value goes to `formatIntegerPart` whole, with the
      integer submask only. */
  function CustomFormatNumber(value: Value, formatToken: string): Value
  {
    var (integerFormat, fractionalFormat) := MaskParts(formatToken);
    var parts := JsString.Split(value.text, '.');
    if |parts| == 2 then
      Str(IntegerPart(Str(parts[0]), integerFormat).text + "." + FractionalRender(parts[1], fractionalFormat, 0, 0))
    else
      IntegerPart(value, integerFormat)
  }

  /** A text with exactly one `.` is rendered as integer part, `.`, fractional part. */
  lemma {:induction false} CustomFormatNumberDecimal(value: Value, formatToken: string, a: string, b: string)
    requires value.text == a + "." + b && '.' !in a && '.' !in b
    ensures CustomFormatNumber(value, formatToken)
         == Str(IntegerPart(Str(a), MaskParts(formatToken).0).text + "." + FractionalRender(b, MaskParts(formatToken).1, 0, 0))
  {
    JsString.SplitOne(a, b, '.');
  }

  /** A text with no `.` or with several is rendered whole by the integer
      submask, and a mask no longer than it returns the value itself. */
  lemma {:induction false} CustomFormatNumberWhole(value: Value, formatToken: string)
    requires JsString.Count(value.text, '.') != 1
    ensures CustomFormatNumber(value, formatToken) == IntegerPart(value, MaskParts(formatToken).0)
    ensures |MaskParts(formatToken).0| <= |value.text| ==> CustomFormatNumber(value, formatToken) == value
  {
  }
}
