/** Placeholders `{index[,alignment][:format]}`: the pattern declared at
    lib/string-format.js:39 and the left-to-right search `exec` performs with
    it (lib/string-format.js:68).

    The pattern is written here as a matcher that tries one position at a
    time. Every group of the pattern is greedy and the character after each
    group can never belong to it (`,`, `:` and `}` are not digits, `}` is not
    a format character), so backtracking never finds a second way to match:
    the matcher below is deterministic and agrees with the pattern on every
    input (MatchAtSound, MatchAtComplete). */
module Placeholder {
  import opened Values
  import JsString

  /** `\d`: an ASCII decimal digit. */
  predicate IsDigit(c: char) {
    '0' <= c <= '9'
  }

  /** `[\w\#\.,-\^]`: a letter, a digit, `_`, `#`, `.`, or a character of
      the range from `,` to `^` (which holds `-`, `/`, `:`, `;`, `<` to `@`,
      the upper-case letters, `[`, `\` and `]`). */
  predicate IsFormatChar(c: char) {
    ('a' <= c <= 'z') || ('A' <= c <= 'Z') || IsDigit(c) || c == '_' || c == '#' || c == '.'
    || (',' <= c <= '^')
  }

  predicate AllDigits(s: string) {
    forall k :: 0 <= k < |s| ==> IsDigit(s[k])
  }

  predicate AllFormatChars(s: string) {
    forall k :: 0 <= k < |s| ==> IsFormatChar(s[k])
  }

  /** `-?\d+` */
  predicate IsAlignment(a: string) {
    if a != [] && a[0] == '-' then a[1..] != [] && AllDigits(a[1..])
    else a != [] && AllDigits(a)
  }

  /** The three capture groups of one match: `result[1]`, `result[2]` and
      `result[3]`; an optional group that did not take part is None. */
  datatype Item = Item(index: string, alignment: Option<string>, format: Option<string>)
  {
    /** The groups the pattern can capture. */
    predicate WellFormed() {
      index != [] && AllDigits(index)
      && (alignment.Some? ==> IsAlignment(alignment.value))
      && (format.Some? ==> format.value != [] && AllFormatChars(format.value))
    }

    /** The matched text, `result[0]`. */
    function Text(): string {
      "{" + index + AfterIndex()
    }

    function AfterIndex(): string {
      AlignmentText() + AfterAlignment()
    }

    function AfterAlignment(): string {
      FormatText() + "}"
    }

    function AlignmentText(): string {
      match alignment
      case None => ""
      case Some(a) => "," + a
    }

    function FormatText(): string {
      match format
      case None => ""
      case Some(f) => ":" + f
    }
  }

  /** The length of the run of digits starting at `p`. */
  function DigitRun(t: string, p: nat): (n: nat)
    requires p <= |t|
    ensures p + n <= |t|
    decreases |t| - p
  {
    if p < |t| && IsDigit(t[p]) then 1 + DigitRun(t, p + 1) else 0
  }

  /** The run is maximal: all digits, and no digit right after it. */
  lemma {:induction false} DigitRunMaximal(t: string, p: nat)
    requires p <= |t|
    ensures forall k :: p <= k < p + DigitRun(t, p) ==> IsDigit(t[k])
    ensures p + DigitRun(t, p) < |t| ==> !IsDigit(t[p + DigitRun(t, p)])
    decreases |t| - p
  {
    if p < |t| && IsDigit(t[p]) {
      DigitRunMaximal(t, p + 1);
    }
  }

  /** The length of the run of format characters starting at `p`. */
  function FormatRun(t: string, p: nat): (n: nat)
    requires p <= |t|
    ensures p + n <= |t|
    decreases |t| - p
  {
    if p < |t| && IsFormatChar(t[p]) then 1 + FormatRun(t, p + 1) else 0
  }

  lemma {:induction false} FormatRunMaximal(t: string, p: nat)
    requires p <= |t|
    ensures forall k :: p <= k < p + FormatRun(t, p) ==> IsFormatChar(t[k])
    ensures p + FormatRun(t, p) < |t| ==> !IsFormatChar(t[p + FormatRun(t, p)])
    decreases |t| - p
  {
    if p < |t| && IsFormatChar(t[p]) {
      FormatRunMaximal(t, p + 1);
    }
  }

  /** The match of the pattern tried at position `p` of `t`, if any. */
  function MatchAt(t: string, p: nat): (r: Option<Item>)
    ensures r.Some? ==> p < |t| && t[p] == '{'
  {
    if p >= |t| || t[p] != '{' then None
    else
      var n := DigitRun(t, p + 1);
      if n == 0 then None
      else AlignmentFrom(t, t[p + 1..p + 1 + n], p + 1 + n)
  }

  /** The optional group `(?:,(-?\d+))?` at `q`, then the rest. If a `,`
      follows the index it can only start this group. */
  function AlignmentFrom(t: string, index: string, q: nat): Option<Item>
    requires q <= |t|
  {
    if q < |t| && t[q] == ',' then
      var s := AlignmentDigits(t, q);
      var m := DigitRun(t, s);
      if m == 0 then None
      else FormatFrom(t, index, Some(t[q + 1..s + m]), s + m)
    else FormatFrom(t, index, None, q)
  }

  /** The optional group `(?::([\w\#\.,-\^]+))?` at `q`, then the closing
      brace. */
  function FormatFrom(t: string, index: string, alignment: Option<string>, q: nat): Option<Item>
    requires q <= |t|
  {
    if q < |t| && t[q] == ':' then
      var k := FormatRun(t, q + 1);
      if k == 0 then None
      else CloseAt(t, Item(index, alignment, Some(t[q + 1..q + 1 + k])), q + 1 + k)
    else CloseAt(t, Item(index, alignment, None), q)
  }

  function CloseAt(t: string, it: Item, q: nat): Option<Item>
  {
    if q < |t| && t[q] == '}' then Some(it) else None
  }

  /** Two pieces occur one after the other exactly when their concatenation
      occurs: `w` is `a + b` and `m` is where `b` starts. */
  lemma {:induction false} OccursPair(t: string, a: string, b: string, w: string, p: nat, m: nat)
    requires w == a + b && m == p + |a|
    requires JsString.Occurs(t, a, p) && JsString.Occurs(t, b, m)
    ensures JsString.Occurs(t, w, p)
  {
    assert t[p..p + |w|] == t[p..m] + t[m..m + |b|];
  }

  lemma {:induction false} OccursSplit(t: string, w: string, a: string, b: string, p: nat, m: nat)
    requires w == a + b && m == p + |a|
    requires JsString.Occurs(t, w, p)
    ensures JsString.Occurs(t, a, p) && JsString.Occurs(t, b, m)
  {
    assert t[p..m] == w[..|a|];
    assert t[m..m + |b|] == w[|a|..];
  }

  /** An occurrence, character by character. */
  lemma {:induction false} OccursChars(t: string, pat: string, q: nat)
    requires JsString.Occurs(t, pat, q)
    ensures forall k :: 0 <= k < |pat| ==> t[q + k] == pat[k]
  {
    forall k | 0 <= k < |pat|
      ensures t[q + k] == pat[k]
    {
      assert t[q..q + |pat|][k] == t[q + k];
    }
  }

  /** The first character of an occurrence. */
  lemma {:induction false} OccursHead(t: string, pat: string, q: nat)
    requires JsString.Occurs(t, pat, q) && pat != []
    ensures q < |t| && t[q] == pat[0]
  {
    assert t[q..q + |pat|][0] == t[q];
  }

  lemma {:induction false} OccursChar(t: string, c: char, q: nat)
    requires q < |t| && t[q] == c
    ensures JsString.Occurs(t, [c], q)
  {
    assert t[q..q + 1] == [c];
  }

  lemma {:induction false} OccursSlice(t: string, i: nat, j: nat)
    requires i <= j <= |t|
    ensures JsString.Occurs(t, t[i..j], i)
  {
  }

  /** A one-character mark at `q`, then the slice up to `e`. */
  lemma {:induction false} MarkedSlice(t: string, c: char, q: nat, e: nat)
    requires q < e <= |t| && t[q] == c
    ensures JsString.Occurs(t, [c] + t[q + 1..e], q)
  {
    OccursChar(t, c, q);
    OccursSlice(t, q + 1, e);
    assert |[c]| == 1;
    OccursPair(t, [c], t[q + 1..e], [c] + t[q + 1..e], q, q + 1);
  }

  lemma {:induction false} CloseSound(t: string, it: Item, q: nat)
    requires CloseAt(t, it, q).Some?
    ensures CloseAt(t, it, q) == Some(it)
    ensures JsString.Occurs(t, "}", q)
  {
    OccursChar(t, '}', q);
  }

  /** The run of format characters as a string. */
  lemma {:induction false} FormatRunSlice(t: string, p: nat)
    requires p <= |t|
    ensures AllFormatChars(t[p..p + FormatRun(t, p)])
  {
    FormatRunMaximal(t, p);
    var f := t[p..p + FormatRun(t, p)];
    forall k | 0 <= k < |f|
      ensures IsFormatChar(f[k])
    {
      assert f[k] == t[p + k];
    }
  }

  lemma {:induction false} FormatSound(t: string, index: string, alignment: Option<string>, q: nat)
    requires q <= |t|
    requires FormatFrom(t, index, alignment, q).Some?
    ensures var it := FormatFrom(t, index, alignment, q).value;
      it.index == index && it.alignment == alignment
      && (it.format.Some? ==> it.format.value != [] && AllFormatChars(it.format.value))
      && JsString.Occurs(t, it.AfterAlignment(), q)
  {
    if q < |t| && t[q] == ':' {
      FormatSoundColon(t, index, alignment, q);
    } else {
      var it := Item(index, alignment, None);
      CloseSound(t, it, q);
    }
  }

  lemma {:induction false} FormatSoundColon(t: string, index: string, alignment: Option<string>, q: nat)
    requires q < |t| && t[q] == ':'
    requires FormatFrom(t, index, alignment, q).Some?
    ensures var it := FormatFrom(t, index, alignment, q).value;
      it.index == index && it.alignment == alignment
      && (it.format.Some? ==> it.format.value != [] && AllFormatChars(it.format.value))
      && JsString.Occurs(t, it.AfterAlignment(), q)
  {
    var e := q + 1 + FormatRun(t, q + 1);
    var f := t[q + 1..e];
    FormatRunSlice(t, q + 1);
    MarkedSlice(t, ':', q, e);
    ColonItemSound(t, index, alignment, f, q);
  }

  lemma {:induction false} ColonItemSound(t: string, index: string, alignment: Option<string>, f: string, q: nat)
    requires q < |t| && t[q] == ':'
    requires FormatRun(t, q + 1) == |f| && q + 1 + |f| <= |t| && t[q + 1..q + 1 + |f|] == f
    requires AllFormatChars(f) && JsString.Occurs(t, ":" + f, q)
    requires FormatFrom(t, index, alignment, q).Some?
    ensures var it := FormatFrom(t, index, alignment, q).value;
      it.index == index && it.alignment == alignment
      && (it.format.Some? ==> it.format.value != [] && AllFormatChars(it.format.value))
      && JsString.Occurs(t, it.AfterAlignment(), q)
  {
    var it := Item(index, alignment, Some(f));
    assert FormatFrom(t, index, alignment, q) == CloseAt(t, it, q + 1 + |f|);
    FormatGroupSound(t, it, q, q + 1 + |f|);
  }

  /** A format group `:f` at `q`, closed by the brace at `e`. */
  lemma {:induction false} FormatGroupSound(t: string, it: Item, q: nat, e: nat)
    requires it.format.Some? && e == q + 1 + |it.format.value|
    requires JsString.Occurs(t, ":" + it.format.value, q)
    requires CloseAt(t, it, e).Some?
    ensures JsString.Occurs(t, it.AfterAlignment(), q)
  {
    CloseSound(t, it, e);
    assert |":" + it.format.value| == 1 + |it.format.value|;
    OccursPair(t, ":" + it.format.value, "}", it.AfterAlignment(), q, e);
  }

  /** Where the digits of an alignment group start: after the `,` and an optional `-`. */
  function AlignmentDigits(t: string, q: nat): (s: nat)
    requires q < |t|
    ensures q + 1 <= s <= |t|
  {
    if q + 1 < |t| && t[q + 1] == '-' then q + 2 else q + 1
  }

  /** The text of an alignment group the matcher accepts is `-?\d+`. */
  lemma {:induction false} AlignmentGroupSound(t: string, q: nat)
    requires q < |t| && DigitRun(t, AlignmentDigits(t, q)) > 0
    ensures IsAlignment(t[q + 1..AlignmentDigits(t, q) + DigitRun(t, AlignmentDigits(t, q))])
  {
    var s := AlignmentDigits(t, q);
    DigitRunSlice(t, s);
    SignedRun(t, q, s, s + DigitRun(t, s));
  }

  /** An optional `-` at `q + 1`, then a non-empty run of digits. */
  lemma {:induction false} SignedRun(t: string, q: nat, s: nat, e: nat)
    requires q + 1 <= s < e <= |t| && AllDigits(t[s..e])
    requires s == q + 1 || (s == q + 2 && t[q + 1] == '-')
    ensures IsAlignment(t[q + 1..e])
  {
    var d := t[s..e];
    if s == q + 2 {
      assert t[q + 1..e] == [t[q + 1]] + d;
      SignedDigits(d);
    } else {
      assert IsDigit(d[0]);
    }
  }

  lemma {:induction false} SignedDigits(d: string)
    requires d != [] && AllDigits(d)
    ensures IsAlignment("-" + d)
  {
    assert ("-" + d)[1..] == d;
  }

  /** The run of digits as a string. */
  lemma {:induction false} DigitRunSlice(t: string, p: nat)
    requires p <= |t|
    ensures AllDigits(t[p..p + DigitRun(t, p)])
  {
    DigitRunMaximal(t, p);
    var d := t[p..p + DigitRun(t, p)];
    forall k | 0 <= k < |d|
      ensures IsDigit(d[k])
    {
      assert d[k] == t[p + k];
    }
  }

  lemma {:induction false} AlignmentSound(t: string, index: string, q: nat)
    requires q <= |t|
    requires AlignmentFrom(t, index, q).Some?
    ensures var it := AlignmentFrom(t, index, q).value;
      it.index == index
      && (it.alignment.Some? ==> IsAlignment(it.alignment.value))
      && (it.format.Some? ==> it.format.value != [] && AllFormatChars(it.format.value))
      && JsString.Occurs(t, it.AfterIndex(), q)
  {
    if q < |t| && t[q] == ',' {
      var s := AlignmentDigits(t, q);
      var e := s + DigitRun(t, s);
      var a := t[q + 1..e];
      assert AlignmentFrom(t, index, q) == FormatFrom(t, index, Some(a), e);
      AlignmentGroupSound(t, q);
      MarkedSlice(t, ',', q, e);
      AlignedSound(t, index, a, q, e);
    } else {
      var it := FormatFrom(t, index, None, q).value;
      FormatSound(t, index, None, q);
      assert it.AfterIndex() == it.AfterAlignment();
    }
  }

  /** An alignment group `,a` was read at `q`, then the rest from `e`. */
  lemma {:induction false} AlignedSound(t: string, index: string, a: string, q: nat, e: nat)
    requires e == q + 1 + |a| <= |t| && IsAlignment(a)
    requires JsString.Occurs(t, "," + a, q)
    requires FormatFrom(t, index, Some(a), e).Some?
    ensures var it := FormatFrom(t, index, Some(a), e).value;
      it.index == index && it.alignment == Some(a)
      && (it.format.Some? ==> it.format.value != [] && AllFormatChars(it.format.value))
      && JsString.Occurs(t, it.AfterIndex(), q)
  {
    var it := FormatFrom(t, index, Some(a), e).value;
    FormatSound(t, index, Some(a), e);
    AfterIndexAligned(it, a);
    assert |"," + a| == 1 + |a|;
    OccursPair(t, "," + a, it.AfterAlignment(), it.AfterIndex(), q, e);
  }

  /** Soundness: whatever the matcher accepts is a well-formed placeholder
      whose text stands at that position. */
  lemma {:induction false} MatchAtSound(t: string, p: nat)
    requires MatchAt(t, p).Some?
    ensures MatchAt(t, p).value.WellFormed()
    ensures JsString.Occurs(t, MatchAt(t, p).value.Text(), p)
  {
    var q := p + 1 + DigitRun(t, p + 1);
    var index := t[p + 1..q];
    assert MatchAt(t, p) == AlignmentFrom(t, index, q);
    DigitRunSlice(t, p + 1);
    MarkedSlice(t, '{', p, q);
    IndexedSound(t, p, index, q);
  }

  /** The index group `index` was read after the `{` at `p`, then the rest from `q`. */
  lemma {:induction false} IndexedSound(t: string, p: nat, index: string, q: nat)
    requires q == p + 1 + |index| <= |t|
    requires index != [] && AllDigits(index) && JsString.Occurs(t, "{" + index, p)
    requires AlignmentFrom(t, index, q).Some?
    ensures var it := AlignmentFrom(t, index, q).value;
      it.WellFormed() && JsString.Occurs(t, it.Text(), p)
  {
    var it := AlignmentFrom(t, index, q).value;
    AlignmentSound(t, index, q);
    assert |"{" + it.index| == 1 + |it.index|;
    OccursPair(t, "{" + it.index, it.AfterIndex(), it.Text(), p, q);
  }

  /** A run that ends before a character outside the class has exactly that length. */
  lemma {:induction false} DigitRunExact(t: string, p: nat, n: nat)
    requires p + n < |t|
    requires forall k :: p <= k < p + n ==> IsDigit(t[k])
    requires !IsDigit(t[p + n])
    ensures DigitRun(t, p) == n
    decreases n
  {
    if n > 0 {
      DigitRunExact(t, p + 1, n - 1);
    }
  }

  lemma {:induction false} FormatRunExact(t: string, p: nat, n: nat)
    requires p + n < |t|
    requires forall k :: p <= k < p + n ==> IsFormatChar(t[k])
    requires !IsFormatChar(t[p + n])
    ensures FormatRun(t, p) == n
    decreases n
  {
    if n > 0 {
      FormatRunExact(t, p + 1, n - 1);
    }
  }

  /** A group of digits standing at `q`, followed by a character that is not a digit. */
  lemma {:induction false} DigitGroup(t: string, s: string, q: nat)
    requires s != [] && AllDigits(s)
    requires JsString.Occurs(t, s, q) && q + |s| < |t| && !IsDigit(t[q + |s|])
    ensures DigitRun(t, q) == |s| && t[q..q + |s|] == s
  {
    OccursChars(t, s, q);
    assert forall k :: q <= k < q + |s| ==> t[k] == s[k - q];
    DigitRunExact(t, q, |s|);
  }

  /** A group of format characters standing at `q`, followed by one outside the class. */
  lemma {:induction false} FormatGroup(t: string, s: string, q: nat)
    requires s != [] && AllFormatChars(s)
    requires JsString.Occurs(t, s, q) && q + |s| < |t| && !IsFormatChar(t[q + |s|])
    ensures FormatRun(t, q) == |s| && t[q..q + |s|] == s
  {
    OccursChars(t, s, q);
    assert forall k :: q <= k < q + |s| ==> t[k] == s[k - q];
    FormatRunExact(t, q, |s|);
  }

  /** The closing brace after the format group. */
  lemma {:induction false} ClosingBrace(t: string, it: Item, q: nat)
    requires JsString.Occurs(t, it.AfterAlignment(), q)
    ensures JsString.Occurs(t, it.FormatText(), q)
    ensures q + |it.FormatText()| < |t| && t[q + |it.FormatText()|] == '}'
  {
    var e := q + |it.FormatText()|;
    OccursSplit(t, it.AfterAlignment(), it.FormatText(), "}", q, e);
    OccursHead(t, "}", e);
  }

  lemma {:induction false} FormatComplete(t: string, it: Item, q: nat)
    requires it.format.Some? ==> it.format.value != [] && AllFormatChars(it.format.value)
    requires JsString.Occurs(t, it.AfterAlignment(), q)
    ensures FormatFrom(t, it.index, it.alignment, q) == Some(it)
  {
    if it.format.None? {
      ClosingBrace(t, it, q);
    } else {
      FormatPresent(t, it, it.format.value, q);
    }
  }

  /** A format group `:f`, followed by the brace. */
  lemma {:induction false} FormatPresent(t: string, it: Item, f: string, q: nat)
    requires it.format == Some(f) && f != [] && AllFormatChars(f)
    requires JsString.Occurs(t, it.AfterAlignment(), q)
    ensures FormatFrom(t, it.index, it.alignment, q) == Some(it)
  {
    FormatPresentParts(t, it, f, q);
    FormatFromGroup(t, it, f, q);
  }

  lemma {:induction false} FormatPresentParts(t: string, it: Item, f: string, q: nat)
    requires it.format == Some(f) && f != [] && AllFormatChars(f)
    requires JsString.Occurs(t, it.AfterAlignment(), q)
    ensures q < |t| && t[q] == ':'
    ensures FormatRun(t, q + 1) == |f| && t[q + 1..q + 1 + |f|] == f
    ensures q + 1 + |f| < |t| && t[q + 1 + |f|] == '}'
  {
    ClosingBrace(t, it, q);
    FormatGroupComplete(t, f, q);
  }

  /** A format group `:f` standing at `q`, followed by the brace, is read whole. */
  lemma {:induction false} FormatGroupComplete(t: string, f: string, q: nat)
    requires f != [] && AllFormatChars(f)
    requires JsString.Occurs(t, ":" + f, q) && q + 1 + |f| < |t| && t[q + 1 + |f|] == '}'
    ensures q < |t| && t[q] == ':'
    ensures FormatRun(t, q + 1) == |f| && t[q + 1..q + 1 + |f|] == f
  {
    assert |":"| == 1;
    OccursSplit(t, ":" + f, ":", f, q, q + 1);
    OccursHead(t, ":", q);
    FormatGroup(t, f, q + 1);
  }

  lemma {:induction false} FormatFromGroup(t: string, it: Item, f: string, q: nat)
    requires it.format == Some(f) && f != []
    requires q < |t| && t[q] == ':'
    requires FormatRun(t, q + 1) == |f| && t[q + 1..q + 1 + |f|] == f
    requires q + 1 + |f| < |t| && t[q + 1 + |f|] == '}'
    ensures FormatFrom(t, it.index, it.alignment, q) == Some(it)
  {
  }

  /** An alignment group `,a` standing at `q`, followed by a character that
      is not a digit, is read whole. */
  lemma {:induction false} AlignmentGroupComplete(t: string, a: string, q: nat)
    requires IsAlignment(a)
    requires JsString.Occurs(t, "," + a, q) && q + 1 + |a| < |t| && !IsDigit(t[q + 1 + |a|])
    ensures q < |t| && t[q] == ','
    ensures AlignmentDigits(t, q) + DigitRun(t, AlignmentDigits(t, q)) == q + 1 + |a|
    ensures DigitRun(t, AlignmentDigits(t, q)) > 0
    ensures t[q + 1..q + 1 + |a|] == a
  {
    assert |","| == 1;
    OccursSplit(t, "," + a, ",", a, q, q + 1);
    OccursHead(t, ",", q);
    if a[0] == '-' {
      NegativeGroup(t, a, q + 1);
    } else {
      PositiveGroup(t, a, q + 1);
    }
  }

  lemma {:induction false} NegativeGroup(t: string, a: string, s: nat)
    requires a != [] && a[0] == '-' && a[1..] != [] && AllDigits(a[1..])
    requires JsString.Occurs(t, a, s) && s + |a| < |t| && !IsDigit(t[s + |a|])
    ensures s < |t| && t[s] == '-'
    ensures s + 1 + DigitRun(t, s + 1) == s + |a|
    ensures t[s..s + |a|] == a
  {
    assert |"-"| == 1;
    OccursSplit(t, a, "-", a[1..], s, s + 1);
    OccursHead(t, "-", s);
    DigitGroup(t, a[1..], s + 1);
  }

  lemma {:induction false} PositiveGroup(t: string, a: string, s: nat)
    requires a != [] && AllDigits(a)
    requires JsString.Occurs(t, a, s) && s + |a| < |t| && !IsDigit(t[s + |a|])
    ensures s < |t| && t[s] != '-'
    ensures s + DigitRun(t, s) == s + |a|
    ensures t[s..s + |a|] == a
  {
    OccursHead(t, a, s);
    DigitGroup(t, a, s);
  }

  lemma {:induction false} AlignmentComplete(t: string, it: Item, q: nat)
    requires it.alignment.Some? ==> IsAlignment(it.alignment.value)
    requires it.format.Some? ==> it.format.value != [] && AllFormatChars(it.format.value)
    requires JsString.Occurs(t, it.AfterIndex(), q)
    ensures AlignmentFrom(t, it.index, q) == Some(it)
  {
    if it.alignment.None? {
      AlignmentAbsent(t, it, q);
    } else {
      AlignmentPresent(t, it, it.alignment.value, q);
    }
  }

  lemma {:induction false} AfterAlignmentHead(it: Item)
    ensures it.AfterAlignment() != [] && (it.AfterAlignment()[0] == ':' || it.AfterAlignment()[0] == '}')
  {
  }

  /** The format group and the brace after the alignment group are read whole. */
  lemma {:induction false} RestComplete(t: string, it: Item, e: nat)
    requires it.format.Some? ==> it.format.value != [] && AllFormatChars(it.format.value)
    requires JsString.Occurs(t, it.AfterAlignment(), e)
    ensures e < |t| && (t[e] == ':' || t[e] == '}')
    ensures FormatFrom(t, it.index, it.alignment, e) == Some(it)
  {
    FormatComplete(t, it, e);
    AfterAlignmentHead(it);
    OccursHead(t, it.AfterAlignment(), e);
  }

  /** No alignment group: the format group or the brace follows the index. */
  lemma {:induction false} AlignmentAbsent(t: string, it: Item, q: nat)
    requires it.alignment.None?
    requires it.format.Some? ==> it.format.value != [] && AllFormatChars(it.format.value)
    requires JsString.Occurs(t, it.AfterIndex(), q)
    ensures AlignmentFrom(t, it.index, q) == Some(it)
  {
    assert it.AfterIndex() == it.AfterAlignment();
    RestComplete(t, it, q);
  }

  lemma {:induction false} AfterIndexAligned(it: Item, a: string)
    requires it.alignment == Some(a)
    ensures it.AfterIndex() == ("," + a) + it.AfterAlignment()
  {
  }

  /** An alignment group `,a`, followed by the format group or the brace. */
  lemma {:induction false} AlignmentPresent(t: string, it: Item, a: string, q: nat)
    requires it.alignment == Some(a) && IsAlignment(a)
    requires it.format.Some? ==> it.format.value != [] && AllFormatChars(it.format.value)
    requires JsString.Occurs(t, it.AfterIndex(), q)
    ensures AlignmentFrom(t, it.index, q) == Some(it)
  {
    AlignmentPresentParts(t, it, a, q);
    AlignmentFromGroup(t, it.index, a, q, Some(it));
  }

  lemma {:induction false} AlignmentPresentParts(t: string, it: Item, a: string, q: nat)
    requires it.alignment == Some(a) && IsAlignment(a)
    requires it.format.Some? ==> it.format.value != [] && AllFormatChars(it.format.value)
    requires JsString.Occurs(t, it.AfterIndex(), q)
    ensures q < |t| && t[q] == ','
    ensures AlignmentDigits(t, q) + DigitRun(t, AlignmentDigits(t, q)) == q + 1 + |a|
    ensures DigitRun(t, AlignmentDigits(t, q)) > 0
    ensures t[q + 1..q + 1 + |a|] == a
    ensures FormatFrom(t, it.index, Some(a), q + 1 + |a|) == Some(it)
  {
    PresentRest(t, it, a, q);
    AlignmentGroupComplete(t, a, q);
  }

  lemma {:induction false} PresentRest(t: string, it: Item, a: string, q: nat)
    requires it.alignment == Some(a)
    requires it.format.Some? ==> it.format.value != [] && AllFormatChars(it.format.value)
    requires JsString.Occurs(t, it.AfterIndex(), q)
    ensures JsString.Occurs(t, "," + a, q)
    ensures q + 1 + |a| < |t| && !IsDigit(t[q + 1 + |a|])
    ensures FormatFrom(t, it.index, Some(a), q + 1 + |a|) == Some(it)
  {
    AfterIndexAligned(it, a);
    GroupSplit(t, it.AfterIndex(), a, it.AfterAlignment(), q);
    RestComplete(t, it, q + 1 + |a|);
  }

  /** A group `,a` at `q` and the rest after it. */
  lemma {:induction false} GroupSplit(t: string, w: string, a: string, rest: string, q: nat)
    requires w == ("," + a) + rest
    requires JsString.Occurs(t, w, q)
    ensures JsString.Occurs(t, "," + a, q) && JsString.Occurs(t, rest, q + 1 + |a|)
  {
    assert |"," + a| == 1 + |a|;
    OccursSplit(t, w, "," + a, rest, q, q + 1 + |a|);
  }

  lemma {:induction false} AlignmentFromGroup(t: string, index: string, a: string, q: nat, r: Option<Item>)
    requires q < |t| && t[q] == ','
    requires AlignmentDigits(t, q) + DigitRun(t, AlignmentDigits(t, q)) == q + 1 + |a|
    requires DigitRun(t, AlignmentDigits(t, q)) > 0
    requires t[q + 1..q + 1 + |a|] == a
    requires FormatFrom(t, index, Some(a), q + 1 + |a|) == r
    ensures AlignmentFrom(t, index, q) == r
  {
  }

  /** Completeness: a well-formed placeholder standing at `p` is what the
      matcher finds there. Together with MatchAtSound: the pattern matches at
      `p` exactly when a well-formed placeholder's text starts there, and then
      only that one. */
  lemma {:induction false} MatchAtComplete(t: string, p: nat, it: Item)
    requires it.WellFormed()
    requires JsString.Occurs(t, it.Text(), p)
    ensures MatchAt(t, p) == Some(it)
  {
    MatchAtParts(t, p, it);
    MatchAtFrom(t, p, it.index, it);
  }

  lemma {:induction false} MatchAtParts(t: string, p: nat, it: Item)
    requires it.WellFormed()
    requires JsString.Occurs(t, it.Text(), p)
    ensures p < |t| && t[p] == '{' && it.index != []
    ensures DigitRun(t, p + 1) == |it.index| && t[p + 1..p + 1 + |it.index|] == it.index
    ensures AlignmentFrom(t, it.index, p + 1 + |it.index|) == Some(it)
  {
    OpenAndIndex(t, p, it);
    AlignmentComplete(t, it, p + 1 + |it.index|);
    IndexGroup(t, p, it);
  }

  /** A placeholder text occurring at `p`: `{`, the index, then the rest. */
  lemma {:induction false} OpenAndIndex(t: string, p: nat, it: Item)
    requires JsString.Occurs(t, it.Text(), p)
    ensures p < |t| && t[p] == '{'
    ensures JsString.Occurs(t, it.index, p + 1)
    ensures JsString.Occurs(t, it.AfterIndex(), p + 1 + |it.index|)
  {
    assert |"{" + it.index| == 1 + |it.index| && |"{"| == 1;
    OccursSplit(t, it.Text(), "{" + it.index, it.AfterIndex(), p, p + 1 + |it.index|);
    OccursSplit(t, "{" + it.index, "{", it.index, p, p + 1);
    OccursHead(t, "{", p);
  }

  /** The index group takes exactly the placeholder's index. */
  lemma {:induction false} IndexGroup(t: string, p: nat, it: Item)
    requires it.WellFormed()
    requires JsString.Occurs(t, it.index, p + 1)
    requires JsString.Occurs(t, it.AfterIndex(), p + 1 + |it.index|)
    ensures DigitRun(t, p + 1) == |it.index| && t[p + 1..p + 1 + |it.index|] == it.index
  {
    AfterIndexHead(it);
    OccursHead(t, it.AfterIndex(), p + 1 + |it.index|);
    DigitGroup(t, it.index, p + 1);
  }

  lemma {:induction false} AfterIndexHead(it: Item)
    ensures it.AfterIndex() != [] && !IsDigit(it.AfterIndex()[0])
  {
  }

  lemma {:induction false} MatchAtFrom(t: string, p: nat, index: string, it: Item)
    requires p < |t| && t[p] == '{' && index != []
    requires DigitRun(t, p + 1) == |index| && t[p + 1..p + 1 + |index|] == index
    requires AlignmentFrom(t, index, p + 1 + |index|) == Some(it)
    ensures MatchAt(t, p) == Some(it)
  {
  }

  /** One match found by `exec`: where it starts and its groups. */
  datatype Match = Match(pos: nat, item: Item)
  {
    /** `lastIndex` after the match. */
    function End(): nat {
      pos + |item.Text()|
    }
  }

  /** `itemPattern.exec(target)` with `lastIndex == from`: the first
      position at or after `from` where the pattern matches (ExecLeftmost). */
  function Exec(t: string, from: nat): (r: Option<Match>)
    decreases |t| - from
  {
    if from >= |t| then None
    else
      match MatchAt(t, from)
      case Some(it) => Some(Match(from, it))
      case None => Exec(t, from + 1)
  }

  /** `exec` finds the leftmost match at or after `from`, and nothing when
      there is none. */
  lemma {:induction false} ExecLeftmost(t: string, from: nat)
    ensures var r := Exec(t, from);
      (r.Some? ==> from <= r.value.pos && MatchAt(t, r.value.pos) == Some(r.value.item))
      && (r.Some? ==> forall q :: from <= q < r.value.pos ==> MatchAt(t, q).None?)
      && (r.None? ==> forall q :: from <= q ==> MatchAt(t, q).None?)
    decreases |t| - from
  {
    if from < |t| && MatchAt(t, from).None? {
      ExecLeftmost(t, from + 1);
      assert Exec(t, from) == Exec(t, from + 1);
    }
  }

  /** A match with no match before it, from `from` on, is what `exec` finds. */
  lemma {:induction false} ExecFirst(t: string, from: nat, p: nat, it: Item)
    requires from <= p && MatchAt(t, p) == Some(it)
    requires forall q :: from <= q < p ==> MatchAt(t, q).None?
    ensures Exec(t, from) == Some(Match(p, it))
    decreases p - from
  {
    if from < p {
      ExecFirst(t, from + 1, p, it);
    }
  }

  /** A match found by `exec` is a well-formed placeholder standing inside the text. */
  lemma {:induction false} ExecInside(t: string, from: nat)
    requires Exec(t, from).Some?
    ensures Exec(t, from).value.End() <= |t|
    ensures JsString.Occurs(t, Exec(t, from).value.item.Text(), Exec(t, from).value.pos)
    ensures Exec(t, from).value.item.WellFormed()
  {
    ExecLeftmost(t, from);
    MatchAtSound(t, Exec(t, from).value.pos);
  }

  /** The sequence of matches the `while` loop of `formatString` obtains,
      each search starting where the previous match ended. */
  function Scan(t: string, from: nat): (ms: seq<Match>)
    requires from <= |t|
    ensures |ms| <= |t| - from
    decreases |t| - from
  {
    match Exec(t, from)
    case None => []
    case Some(m) =>
      ExecLeftmost(t, from);
      ExecInside(t, from);
      [m] + Scan(t, m.End())
  }

  /** One step of the scan: the match `exec` finds comes first, and the scan
      goes on after it. */
  lemma {:induction false} ScanNext(t: string, from: nat)
    requires from <= |t| && Exec(t, from).Some?
    ensures var m := Exec(t, from).value;
      from < m.End() <= |t| && Scan(t, from) == [m] + Scan(t, m.End())
  {
    ExecLeftmost(t, from);
    ExecInside(t, from);
  }

  /** The scan is leftmost, non-overlapping and complete: every match it
      records is one the pattern finds at that position, the matches lie
      inside the text in increasing order without overlapping, and no match
      starts before, between or after them. */
  lemma {:induction false} ScanMatches(t: string, from: nat)
    requires from <= |t|
    ensures Matches(t, from, Scan(t, from))
    decreases |t| - from
  {
    ExecLeftmost(t, from);
    if Exec(t, from).Some? {
      var m := Exec(t, from).value;
      ExecInside(t, from);
      ScanNext(t, from);
      ScanMatches(t, m.End());
      MatchesCons(t, from, m, Scan(t, m.End()));
    }
  }

  /** `ms` are matches of `t` from `from` on, in increasing order without
      overlapping, and no match starts anywhere else: not before the first,
      not in a gap between two, not after the last, and nowhere at all when
      `ms` is empty. */
  ghost predicate Matches(t: string, from: nat, ms: seq<Match>)
  {
    (forall k :: 0 <= k < |ms| ==> from <= ms[k].pos && ms[k].End() <= |t|)
    && (forall k :: 0 <= k < |ms| ==> MatchAt(t, ms[k].pos) == Some(ms[k].item))
    && (forall k :: 0 < k < |ms| ==> ms[k - 1].End() <= ms[k].pos)
    && (ms != [] ==> forall q :: from <= q < ms[0].pos ==> MatchAt(t, q).None?)
    && (forall k, q :: 0 < k < |ms| && ms[k - 1].End() <= q < ms[k].pos ==> MatchAt(t, q).None?)
    && (ms == [] ==> forall q :: from <= q ==> MatchAt(t, q).None?)
    && (ms != [] ==> forall q :: ms[|ms| - 1].End() <= q ==> MatchAt(t, q).None?)
  }

  /** The scan facts for `[m] + rest`, from those for `rest` and the facts
      `exec` gives about `m`. */
  lemma {:induction false} MatchesCons(t: string, from: nat, m: Match, rest: seq<Match>)
    requires from <= m.pos < m.End() <= |t| && MatchAt(t, m.pos) == Some(m.item)
    requires forall q :: from <= q < m.pos ==> MatchAt(t, q).None?
    requires Matches(t, m.End(), rest)
    ensures Matches(t, from, [m] + rest)
  {
    MatchesConsPlaced(t, from, m, rest);
    MatchesConsGaps(t, m, rest);
    var ms := [m] + rest;
    assert ms[|ms| - 1] == if rest == [] then m else rest[|rest| - 1];
  }

  lemma {:induction false} MatchesConsPlaced(t: string, from: nat, m: Match, rest: seq<Match>)
    requires from <= m.pos < m.End() <= |t| && MatchAt(t, m.pos) == Some(m.item)
    requires Matches(t, m.End(), rest)
    ensures var ms := [m] + rest;
      forall k :: 0 <= k < |ms| ==>
        from <= ms[k].pos && ms[k].End() <= |t| && MatchAt(t, ms[k].pos) == Some(ms[k].item)
        && (k > 0 ==> ms[k - 1].End() <= ms[k].pos)
  {
    var ms := [m] + rest;
    forall k | 0 < k < |ms|
      ensures ms[k] == rest[k - 1]
    {
    }
  }

  lemma {:induction false} MatchesConsGaps(t: string, m: Match, rest: seq<Match>)
    requires m.End() <= |t| && Matches(t, m.End(), rest)
    ensures var ms := [m] + rest;
      forall k, q :: 0 < k < |ms| && ms[k - 1].End() <= q < ms[k].pos ==> MatchAt(t, q).None?
  {
    var ms := [m] + rest;
    forall k, q | 0 < k < |ms| && ms[k - 1].End() <= q < ms[k].pos
      ensures MatchAt(t, q).None?
    {
      assert ms[k] == rest[k - 1];
      if k > 1 {
        assert ms[k - 1] == rest[k - 2];
      }
    }
  }

  /** Where the pattern matches nowhere from `from` on, the scan finds nothing. */
  lemma {:induction false} ScanNone(t: string, from: nat)
    requires from <= |t|
    requires forall q :: from <= q ==> MatchAt(t, q).None?
    ensures Scan(t, from) == []
  {
    ExecLeftmost(t, from);
  }

  /** Without an opening brace the pattern never matches. */
  lemma {:induction false} ScanNoBrace(t: string, from: nat)
    requires from <= |t|
    requires '{' !in t
    ensures Scan(t, from) == []
  {
    forall q | from <= q
      ensures MatchAt(t, q).None?
    {
      if q < |t| {
        assert t[q] in t;
      }
    }
    ScanNone(t, from);
  }

  /** The value of a string of decimal digits, as unary `+` computes it. */
  function DigitsValue(s: string): nat
  {
    if s == [] then 0
    else 10 * DigitsValue(s[..|s| - 1]) + (s[|s| - 1] as int - '0' as int) % 10
  }

  /** `+result[INDEX]`: the argument a placeholder refers to. */
  function ArgIndex(it: Item): nat
  {
    DigitsValue(it.index)
  }

  /** The number an alignment group denotes (`-?\d+` converted by `<` and `*`). */
  function AlignmentValue(a: string): int
  {
    if a != [] && a[0] == '-' then 0 - DigitsValue(a[1..]) as int else DigitsValue(a)
  }
}
