/** The JavaScript string built-ins the formatter relies on, for the cases it
    uses them in: `indexOf` with one character, `split` on one character, and
    `replace` with a string pattern and a string replacement (including the
    `$` patterns that `replace` expands in its replacement string). */
module JsString {
  import opened Values

  /** Number of occurrences of `c` in `s`. */
  function Count(s: string, c: char): nat
  {
    if s == [] then 0 else (if s[0] == c then 1 else 0) + Count(s[1..], c)
  }

  lemma {:induction false} CountAppend(a: string, b: string, c: char)
    ensures Count(a + b, c) == Count(a, c) + Count(b, c)
  {
    if a == [] {
      assert a + b == b;
    } else {
      assert (a + b)[1..] == a[1..] + b;
      CountAppend(a[1..], b, c);
    }
  }

  lemma {:induction false} CountAbsent(s: string, c: char)
    ensures Count(s, c) == 0 <==> c !in s
  {
    if s != [] {
      assert s == [s[0]] + s[1..];
      CountAbsent(s[1..], c);
    }
  }

  /** `s.indexOf(c)`: the first position of `c` in `s`, if any. */
  function FirstIndex(s: string, c: char): (r: Option<nat>)
    ensures r.None? <==> c !in s
    ensures r.Some? ==> r.value < |s| && s[r.value] == c && c !in s[..r.value]
  {
    if s == [] then None
    else if s[0] == c then Some(0)
    else
      assert s == [s[0]] + s[1..];
      match FirstIndex(s[1..], c)
      case None => None
      case Some(k) =>
        assert s[..k + 1] == [s[0]] + s[1..][..k];
        Some(k + 1)
  }

  /** A position holding `c` with no `c` before it is the first index of `c`. */
  lemma {:induction false} FirstIndexAt(s: string, c: char, k: nat)
    requires k < |s| && s[k] == c && c !in s[..k]
    ensures FirstIndex(s, c) == Some(k)
  {
    var r := FirstIndex(s, c);
    assert s[k] in s;
  }

  /** The parts of `s` between the occurrences of `c`, joined back by `Join`. */
  function Join(parts: seq<string>, c: char): string
  {
    if |parts| == 0 then []
    else if |parts| == 1 then parts[0]
    else parts[0] + [c] + Join(parts[1..], c)
  }

  /** `s.split(c)`: there is one more part than there are separators, no part
      holds the separator, and joining the parts with it gives `s` back. */
  function Split(s: string, c: char): (parts: seq<string>)
    ensures |parts| == Count(s, c) + 1
    ensures forall i :: 0 <= i < |parts| ==> c !in parts[i]
    ensures Join(parts, c) == s
    decreases |s|
  {
    match FirstIndex(s, c)
    case None =>
      CountAbsent(s, c);
      [s]
    case Some(k) =>
      var rest := Split(s[k + 1..], c);
      SplitStep(s, c, k, rest);
      [s[..k]] + rest
  }

  /** The first part ends at the first separator; the rest of `s` gives the other parts. */
  lemma {:induction false} SplitStep(s: string, c: char, k: nat, rest: seq<string>)
    requires k < |s| && s[k] == c && c !in s[..k]
    requires |rest| == Count(s[k + 1..], c) + 1
    requires forall i :: 0 <= i < |rest| ==> c !in rest[i]
    requires Join(rest, c) == s[k + 1..]
    ensures |[s[..k]] + rest| == Count(s, c) + 1
    ensures forall i :: 0 <= i < |[s[..k]] + rest| ==> c !in ([s[..k]] + rest)[i]
    ensures Join([s[..k]] + rest, c) == s
  {
    var parts := [s[..k]] + rest;
    assert s == s[..k] + ([c] + s[k + 1..]);
    CountAbsent(s[..k], c);
    CountAppend(s[..k], [c] + s[k + 1..], c);
    assert ([c] + s[k + 1..])[1..] == s[k + 1..];
    assert Count([c] + s[k + 1..], c) == 1 + Count(s[k + 1..], c);
    assert parts[1..] == rest;
  }

  /** Exactly one separator: the two parts are what lies before and after it. */
  lemma {:induction false} SplitOne(a: string, b: string, c: char)
    requires c !in a && c !in b
    ensures Split(a + [c] + b, c) == [a, b]
  {
    var s := a + [c] + b;
    assert s[|a|] == c;
    assert s[..|a|] == a && s[|a| + 1..] == b;
    assert forall i :: 0 <= i < |a| ==> s[i] == a[i];
  }

  /** `pat` occurs in `s` at position `q`. */
  predicate Occurs(s: string, pat: string, q: nat)
  {
    q + |pat| <= |s| && s[q..q + |pat|] == pat
  }

  /** `s.indexOf(pat, from)`: the first occurrence of `pat` at or after `from`. */
  function Find(s: string, pat: string, from: nat): (r: Option<nat>)
    ensures r.Some? ==> from <= r.value && Occurs(s, pat, r.value)
    ensures r.Some? ==> forall q :: from <= q < r.value ==> !Occurs(s, pat, q)
    ensures r.None? ==> forall q :: from <= q ==> !Occurs(s, pat, q)
    decreases |s| - from
  {
    if from + |pat| > |s| then None
    else if s[from..from + |pat|] == pat then Some(from)
    else Find(s, pat, from + 1)
  }

  /** The replacement text `replace` inserts for one match: `$$` stands for
      `$`, `$&` for the matched text, `` $` `` for the text before the match,
      `$'` for the text after it; every other character (a `$` included) is
      copied. A string pattern has no capture groups, so `$1` or `$<` stay as
      they are. */
  function Substitution(rep: string, matched: string, before: string, after: string): string
    decreases |rep|
  {
    if rep == [] then []
    else if |rep| >= 2 && rep[0] == '$' && rep[1] in "$&`'" then
      (match rep[1]
       case '$' => "$"
       case '&' => matched
       case '`' => before
       case _ => after)
      + Substitution(rep[2..], matched, before, after)
    else [rep[0]] + Substitution(rep[1..], matched, before, after)
  }

  /** A replacement without `$` is inserted as it is. */
  lemma {:induction false} SubstitutionPlain(rep: string, matched: string, before: string, after: string)
    requires '$' !in rep
    ensures Substitution(rep, matched, before, after) == rep
    decreases |rep|
  {
    if rep != [] {
      assert rep == [rep[0]] + rep[1..];
      SubstitutionPlain(rep[1..], matched, before, after);
    }
  }

  /** `s.replace(pat, rep)` with a string pattern: only the first occurrence
      of `pat` is replaced; without one, `s` comes back unchanged. */
  function Replace(s: string, pat: string, rep: string): string
  {
    match Find(s, pat, 0)
    case None => s
    case Some(p) => s[..p] + Substitution(rep, pat, s[..p], s[p + |pat|..]) + s[p + |pat|..]
  }

  /** Replacing a pattern that does not occur changes nothing; otherwise the
      first occurrence, and only it, is cut out and the replacement put in
      its place. */
  lemma {:induction false} ReplaceFirst(s: string, pat: string, rep: string, p: nat)
    requires '$' !in rep
    requires Occurs(s, pat, p)
    requires forall q :: 0 <= q < p ==> !Occurs(s, pat, q)
    ensures Replace(s, pat, rep) == s[..p] + rep + s[p + |pat|..]
  {
    var f := Find(s, pat, 0);
    assert f.Some?;
    assert f.value == p;
    SubstitutionPlain(rep, pat, s[..p], s[p + |pat|..]);
  }

  lemma {:induction false} ReplaceAbsent(s: string, pat: string, rep: string)
    requires forall q :: 0 <= q ==> !Occurs(s, pat, q)
    ensures Replace(s, pat, rep) == s
  {
  }
}
