/** What `formatString` promises, proved about the model: templates without
    placeholders come back unchanged, surplus arguments are ignored, an
    index without an argument fails the whole call, and, when the rendered
    values cannot be mistaken for placeholders, every placeholder is
    replaced in place by its rendered value. */
module FormatProperties {
  import opened Values
  import JsString
  import Align
  import Mask
  import opened Placeholder
  import opened StringFormat

  /** A template without `{` has no placeholder and comes back unchanged,
      whatever the arguments. */
  lemma {:induction false} FormatNoPlaceholders(template: string, args: seq<Value>)
    requires '{' !in template
    ensures Format(template, args) == Ok(template)
  {
    ScanNoBrace(template, 0);
  }

  /** More generally: where the pattern matches nowhere, nothing is replaced. */
  lemma {:induction false} FormatNoMatch(template: string, args: seq<Value>)
    requires forall q :: 0 <= q ==> MatchAt(template, q).None?
    ensures Format(template, args) == Ok(template)
  {
    ScanNone(template, 0);
  }

  /** Formatting a placeholder looks only at the argument it refers to. */
  lemma {:induction false} FormatItemsExtra(items: seq<Item>, args: seq<Value>, extra: seq<Value>)
    requires InRange(items, |args|)
    ensures InRange(items, |args + extra|)
    ensures FormatItems(items, args + extra) == FormatItems(items, args)
    decreases |items|
  {
    if items != [] {
      assert (args + extra)[ArgIndex(items[0])] == args[ArgIndex(items[0])];
      FormatItemsExtra(items[1..], args, extra);
    }
  }

  /** Arguments no placeholder refers to change nothing. */
  lemma {:induction false} FormatExtraArguments(template: string, args: seq<Value>, extra: seq<Value>)
    requires Format(template, args).Ok?
    ensures Format(template, args + extra) == Format(template, args)
  {
    FormatItemsExtra(Items(Scan(template, 0)), args, extra);
  }

  /** Without an alignment group the formatted value is left as it is. */
  lemma {:induction false} FormattedUnaligned(value: Value, it: Item)
    requires it.alignment.None?
    ensures Formatted(value, it) == FormatValue(value, it.format)
  {
    assert Align.Abs(AlignmentOf(it)) == 0;
  }

  /** A format token without `.` applied to a value whose text has no `.`:
      the whole text goes through `formatIntegerPart`. */
  lemma {:induction false} FormatValueWhole(value: Value, mask: string)
    requires mask != [] && '.' !in mask && '.' !in value.text
    ensures FormatValue(value, Some(mask)) == Mask.IntegerPart(value, mask)
  {
    JsString.CountAbsent(value.text, '.');
    Mask.CustomFormatNumberWhole(value, mask);
  }

  /** A format token `intMask.fracMask` applied to a value whose text is
      `a.b`: each part goes through its own renderer. */
  lemma {:induction false} FormatValueDecimal(value: Value, intMask: string, fracMask: string, a: string, b: string)
    requires '.' !in intMask && value.text == a + "." + b && '.' !in a && '.' !in b
    ensures FormatValue(value, Some(intMask + "." + fracMask))
         == Str(Mask.IntegerPart(Str(a), intMask).text + "." + Mask.FractionalRender(b, fracMask, 0, 0))
  {
    var token := intMask + "." + fracMask;
    assert token[|intMask|] == '.' && token[..|intMask|] == intMask && token[|intMask| + 1..] == fracMask;
    JsString.FirstIndexAt(token, '.', |intMask|);
    Mask.CustomFormatNumberDecimal(value, token, a, b);
  }

  /** `lits[0] pieces[0] lits[1] pieces[1] ... lits[n]`. */
  function Interleave(lits: seq<string>, pieces: seq<string>): string
    requires |lits| == |pieces| + 1
    decreases |pieces|
  {
    if pieces == [] then lits[0] else lits[0] + pieces[0] + Interleave(lits[1..], pieces[1..])
  }

  /** The texts of the placeholders. */
  function Texts(items: seq<Item>): (r: seq<string>)
    ensures |r| == |items|
  {
    if items == [] then [] else [items[0].Text()] + Texts(items[1..])
  }

  /** What each placeholder leaves in the result: the text of its formatted
      value when that value is truthy, and its own text, left in place by
      the replace pass, when it is falsy. */
  function Rendered(items: seq<Item>, args: seq<Value>): (r: seq<string>)
    requires InRange(items, |args|)
    ensures |r| == |items|
  {
    if items == [] then []
    else
      var v := Formatted(args[ArgIndex(items[0])], items[0]);
      [if v.Truthy() then v.text else items[0].Text()] + Rendered(items[1..], args)
  }

  predicate NoBrace(ss: seq<string>)
  {
    forall k :: 0 <= k < |ss| ==> '{' !in ss[k]
  }

  predicate AllWellFormed(items: seq<Item>)
  {
    forall k :: 0 <= k < |items| ==> items[k].WellFormed()
  }

  /** A formatted value the replace pass cannot mistake: a falsy one is
      skipped, and a truthy one holds neither `{` nor `$`, so `replace`
      inserts it as it is and no placeholder can start inside it. */
  predicate Inert(v: Value)
  {
    v.Truthy() ==> '{' !in v.text && '$' !in v.text
  }

  /** A value `replace` inserts as it is. */
  predicate Plain(v: Value)
  {
    v.Truthy() && Inert(v)
  }

  predicate AllInert(items: seq<Item>, args: seq<Value>)
    requires InRange(items, |args|)
  {
    forall k :: 0 <= k < |items| ==> Inert(Formatted(args[ArgIndex(items[k])], items[k]))
  }

  lemma {:induction false} InterleaveCons(lits: seq<string>, pieces: seq<string>)
    requires |lits| == |pieces| + 1 && pieces != []
    ensures Interleave(lits, pieces) == lits[0] + pieces[0] + Interleave(lits[1..], pieces[1..])
  {
  }

  /** The template with its first literal piece and placeholder split off. */
  lemma {:induction false} TemplateCons(lits: seq<string>, items: seq<Item>)
    requires |lits| == |items| + 1 && items != []
    ensures Interleave(lits, Texts(items))
         == lits[0] + items[0].Text() + Interleave(lits[1..], Texts(items[1..]))
  {
    TextsTail(items);
    InterleaveCons(lits, Texts(items));
  }

  lemma {:induction false} TextsTail(items: seq<Item>)
    requires items != []
    ensures Texts(items)[0] == items[0].Text() && Texts(items)[1..] == Texts(items[1..])
  {
  }

  /** A position outside any `{` starts no match. */
  lemma {:induction false} NoMatchWithoutBrace(t: string, q: nat)
    requires q < |t| && t[q] != '{'
    ensures MatchAt(t, q).None?
  {
  }

  /** The pieces of a suffix built by concatenation. */
  lemma {:induction false} SliceParts(t: string, from: nat, x: string, y: string, z: string)
    requires from <= |t| && t[from..] == x + y + z
    ensures from + |x| + |y| <= |t|
    ensures t[from + |x|..from + |x| + |y|] == y && t[from + |x| + |y|..] == z
    ensures JsString.Occurs(t, y, from + |x|)
    ensures forall q :: from <= q < from + |x| ==> t[q] == x[q - from]
  {
    var u := t[from..];
    assert u[|x|..|x| + |y|] == y;
    assert u[|x| + |y|..] == z;
    forall q | from <= q < from + |x|
      ensures t[q] == x[q - from]
    {
      assert t[q] == u[q - from];
    }
  }

  /** No match starts inside a piece without `{`. */
  lemma {:induction false} NoMatchInLiteral(t: string, from: nat, lit: string)
    requires '{' !in lit && from + |lit| <= |t|
    requires forall q :: from <= q < from + |lit| ==> t[q] == lit[q - from]
    ensures forall q :: from <= q < from + |lit| ==> MatchAt(t, q).None?
  {
    forall q | from <= q < from + |lit|
      ensures MatchAt(t, q).None?
    {
      NoMatchWithoutBrace(t, q);
    }
  }

  /** A literal piece without `{` followed by a placeholder: the scan
      records that placeholder first and goes on after it. */
  lemma {:induction false} ScanHead(t: string, from: nat, lit: string, it: Item, rest: string)
    requires '{' !in lit && it.WellFormed()
    requires from <= |t| && t[from..] == lit + it.Text() + rest
    ensures from + |lit| + |it.Text()| <= |t|
    ensures t[from + |lit| + |it.Text()|..] == rest
    ensures Scan(t, from) == [Match(from + |lit|, it)] + Scan(t, from + |lit| + |it.Text()|)
  {
    var pat := it.Text();
    SliceParts(t, from, lit, pat, rest);
    ExecAfterLiteral(t, from, lit, it);
    ScanNext(t, from);
  }

  /** ScanHead, stated for the placeholders the scan records. */
  lemma {:induction false} ScanHeadItems(t: string, from: nat, lit: string, it: Item, rest: string)
    requires '{' !in lit && it.WellFormed()
    requires from <= |t| && t[from..] == lit + it.Text() + rest
    ensures from + |lit| + |it.Text()| <= |t|
    ensures t[from + |lit| + |it.Text()|..] == rest
    ensures Items(Scan(t, from)) == [it] + Items(Scan(t, from + |lit| + |it.Text()|))
  {
    ScanHead(t, from, lit, it, rest);
    var e := from + |lit| + |it.Text()|;
    var m, tail := Match(from + |lit|, it), Scan(t, e);
    ItemsCons(m, tail);
  }

  /** `exec` from the start of a piece without `{` finds the placeholder
      right after it. */
  lemma {:induction false} ExecAfterLiteral(t: string, from: nat, lit: string, it: Item)
    requires '{' !in lit && it.WellFormed() && from + |lit| <= |t|
    requires forall q :: from <= q < from + |lit| ==> t[q] == lit[q - from]
    requires JsString.Occurs(t, it.Text(), from + |lit|)
    ensures Exec(t, from) == Some(Match(from + |lit|, it))
  {
    NoMatchInLiteral(t, from, lit);
    MatchAtComplete(t, from + |lit|, it);
    ExecFirst(t, from, from + |lit|, it);
  }

  /** A literal piece without `{` and nothing after it: the scan ends. */
  lemma {:induction false} ScanLast(t: string, from: nat, lit: string)
    requires '{' !in lit && from <= |t| && t[from..] == lit
    ensures Scan(t, from) == []
  {
    forall q | from <= q
      ensures MatchAt(t, q).None?
    {
      if q < |t| {
        assert t[q] == t[from..][q - from];
        NoMatchWithoutBrace(t, q);
      }
    }
    ScanNone(t, from);
  }

  /** The scan of a template built from literal pieces without `{` and
      well-formed placeholders finds exactly those placeholders, in order. */
  lemma {:induction false} ScanInterleave(t: string, from: nat, lits: seq<string>, items: seq<Item>)
    requires |lits| == |items| + 1 && NoBrace(lits) && AllWellFormed(items)
    requires from <= |t| && t[from..] == Interleave(lits, Texts(items))
    ensures Items(Scan(t, from)) == items
    decreases |items|
  {
    if items == [] {
      ScanLast(t, from, lits[0]);
    } else {
      var it := items[0];
      TemplateCons(lits, items);
      var rest := Interleave(lits[1..], Texts(items[1..]));
      ScanHeadItems(t, from, lits[0], it, rest);
      var e := from + |lits[0]| + |it.Text()|;
      ScanInterleave(t, e, lits[1..], items[1..]);
      HeadTail(items);
    }
  }

  lemma {:induction false} ItemsCons(m: Match, ms: seq<Match>)
    ensures Items([m] + ms) == [m.item] + Items(ms)
  {
    assert ([m] + ms)[1..] == ms;
  }

  lemma {:induction false} HeadTail<T>(s: seq<T>)
    requires s != []
    ensures s == [s[0]] + s[1..]
  {
  }

  /** A text cannot occur where its first character is not. */
  lemma {:induction false} NotOccursHead(s: string, pat: string, q: nat)
    requires pat != [] && q < |s| && s[q] != pat[0]
    ensures !JsString.Occurs(s, pat, q)
  {
    if q + |pat| <= |s| {
      assert s[q..q + |pat|][0] == s[q];
    }
  }

  /** Neither text is a prefix of the other, so no string holds both at
      the same position. */
  predicate Apart(a: string, b: string)
  {
    !(|a| <= |b| && b[..|a|] == a) && !(|b| <= |a| && a[..|b|] == b)
  }

  /** A text that occurs at `q` in a prefix of `s` keeps every text apart
      from it from occurring at `q` in `s`. */
  lemma {:induction false} OccursApart(s: string, done: string, k: string, pat: string, q: nat)
    requires |done| <= |s| && s[..|done|] == done
    requires JsString.Occurs(done, k, q) && Apart(pat, k)
    ensures !JsString.Occurs(s, pat, q)
  {
    assert s[q..q + |k|] == done[q..q + |k|];
    if |pat| <= |k| {
      assert s[q..q + |pat|] == k[..|pat|];
    } else if q + |pat| <= |s| {
      assert s[q..q + |pat|][..|k|] == k;
    }
  }

  /** Every `{` left in `done` starts one of the kept texts `ks`. */
  ghost predicate Kept(done: string, ks: seq<string>)
  {
    forall q :: 0 <= q < |done| && done[q] == '{' ==>
      exists j :: 0 <= j < |ks| && JsString.Occurs(done, ks[j], q)
  }

  /** Text without `{` appended to such a string adds no `{` to account for. */
  lemma {:induction false} KeptAppendPlain(done: string, ks: seq<string>, x: string)
    requires Kept(done, ks) && '{' !in x
    ensures Kept(done + x, ks)
  {
    var s := done + x;
    forall q | 0 <= q < |s| && s[q] == '{'
      ensures exists j :: 0 <= j < |ks| && JsString.Occurs(s, ks[j], q)
    {
      if q < |done| {
        assert done[q] == '{';
        var j :| 0 <= j < |ks| && JsString.Occurs(done, ks[j], q);
        assert s[q..q + |ks[j]|] == done[q..q + |ks[j]|];
      } else {
        assert false;
      }
    }
  }

  /** The text of a placeholder: `{` first and no other `{`. */
  predicate Opening(text: string)
  {
    text != [] && text[0] == '{' && '{' !in text[1..]
  }

  /** A kept placeholder text appended: its `{` starts it, and it joins the
      kept texts. */
  lemma {:induction false} KeptAppendOpening(done: string, ks: seq<string>, k: string)
    requires Kept(done, ks) && Opening(k)
    ensures Kept(done + k, ks + [k])
  {
    var s := done + k;
    var ks' := ks + [k];
    forall q | 0 <= q < |s| && s[q] == '{'
      ensures exists j :: 0 <= j < |ks'| && JsString.Occurs(s, ks'[j], q)
    {
      if q < |done| {
        assert done[q] == '{';
        var j :| 0 <= j < |ks| && JsString.Occurs(done, ks[j], q);
        assert s[q..q + |ks[j]|] == done[q..q + |ks[j]|];
        assert ks'[j] == ks[j];
      } else if q == |done| {
        assert s[q..q + |k|] == k;
        assert ks'[|ks|] == k;
      } else {
        assert false;
      }
    }
  }

  /** In `done + lit + pat + rest`, `pat` first occurs where it stands when
      `lit` holds no `{` and `pat` is apart from every kept text of `done`. */
  lemma {:induction false} FirstAfterKept(done: string, ks: seq<string>, lit: string, pat: string, rest: string)
    requires Kept(done, ks) && '{' !in lit && pat != [] && pat[0] == '{'
    requires forall j :: 0 <= j < |ks| ==> Apart(pat, ks[j])
    ensures forall q :: 0 <= q < |done + lit| ==> !JsString.Occurs(done + lit + pat + rest, pat, q)
  {
    var s := done + lit + pat + rest;
    forall q | 0 <= q < |done + lit|
      ensures !JsString.Occurs(s, pat, q)
    {
      if q < |done| {
        assert s[q] == done[q];
        if done[q] == '{' {
          var j :| 0 <= j < |ks| && JsString.Occurs(done, ks[j], q);
          assert s[..|done|] == done;
          OccursApart(s, done, ks[j], pat, q);
        } else {
          NotOccursHead(s, pat, q);
        }
      } else {
        assert s[q] == lit[q - |done|];
        NotOccursHead(s, pat, q);
      }
    }
  }

  /** One placeholder replaced: every occurrence of its text before it would
      have to start at a kept `{`, and the kept texts are apart from it, so
      `replace` puts the value exactly where the placeholder stands. */
  lemma {:induction false} ReplaceAfterKept(done: string, ks: seq<string>, lit: string, pat: string, rep: string, rest: string)
    requires Kept(done, ks) && '{' !in lit && '$' !in rep
    requires pat != [] && pat[0] == '{'
    requires forall j :: 0 <= j < |ks| ==> Apart(pat, ks[j])
    ensures JsString.Replace(done + lit + pat + rest, pat, rep) == (done + lit + rep) + rest
  {
    var s := done + lit + pat + rest;
    var p := |done + lit|;
    assert s[p..p + |pat|] == pat;
    assert s[..p] == done + lit;
    FirstAfterKept(done, ks, lit, pat, rest);
    JsString.ReplaceFirst(s, pat, rep, p);
    assert s[p + |pat|..] == rest;
  }

  lemma {:induction false} FormatItemsTail(items: seq<Item>, args: seq<Value>)
    requires items != [] && InRange(items, |args|)
    ensures InRange(items[1..], |args|)
    ensures FormatItems(items, args)[0]
         == FormatItem(items[0].Text(), Formatted(args[ArgIndex(items[0])], items[0]))
    ensures FormatItems(items, args)[1..] == FormatItems(items[1..], args)
  {
  }

  /** The match texts of a `formatItems` array. */
  function MatchTexts(fis: seq<FormatItem>): (r: seq<string>)
    ensures |r| == |fis|
  {
    if fis == [] then [] else [fis[0].text] + MatchTexts(fis[1..])
  }

  /** What an entry of `formatItems` leaves in the result: its formatted
      value when that is truthy, its match text otherwise. */
  function ResultText(fi: FormatItem): string
  {
    if fi.formatted.Truthy() then fi.formatted.text else fi.text
  }

  function ResultTexts(fis: seq<FormatItem>): (r: seq<string>)
    ensures |r| == |fis|
  {
    if fis == [] then [] else [ResultText(fis[0])] + ResultTexts(fis[1..])
  }

  /** Every entry's text is a placeholder text and its value is inert, and
      the text of an entry with a truthy value is apart from the text of
      every entry with a falsy one. */
  predicate Replaceable(fis: seq<FormatItem>)
  {
    (forall k :: 0 <= k < |fis| ==> Opening(fis[k].text) && Inert(fis[k].formatted))
    && (forall k, j :: 0 <= k < |fis| && 0 <= j < |fis| && fis[k].formatted.Truthy() && !fis[j].formatted.Truthy()
          ==> Apart(fis[k].text, fis[j].text))
  }

  /** The texts of the entries with a truthy value are apart from every kept text. */
  predicate ApartFrom(fis: seq<FormatItem>, ks: seq<string>)
  {
    forall k, j :: 0 <= k < |fis| && 0 <= j < |ks| && fis[k].formatted.Truthy() ==> Apart(fis[k].text, ks[j])
  }

  /** The replace pass over such a template: a truthy entry is replaced
      where its placeholder stands, a falsy one leaves its placeholder in
      place, and that kept placeholder is never taken for a later one. */
  lemma {:induction false} ReplaceInterleave(done: string, ks: seq<string>, lits: seq<string>, fis: seq<FormatItem>)
    requires |lits| == |fis| + 1 && NoBrace(lits) && Replaceable(fis)
    requires Kept(done, ks) && ApartFrom(fis, ks)
    ensures ReplaceItems(done + Interleave(lits, MatchTexts(fis)), fis)
         == done + Interleave(lits, ResultTexts(fis))
    decreases |fis|
  {
    if fis != [] {
      var done' := done + lits[0] + ResultText(fis[0]);
      var ks' := if fis[0].formatted.Truthy() then ks else ks + [fis[0].text];
      ReplaceInterleaveStep(done, ks, lits, fis);
      ReplaceInterleave(done', ks', lits[1..], fis[1..]);
    }
  }

  /** One entry of such a template handled, and what is left. */
  lemma {:induction false} ReplaceInterleaveStep(done: string, ks: seq<string>, lits: seq<string>, fis: seq<FormatItem>)
    requires |lits| == |fis| + 1 && fis != [] && NoBrace(lits) && Replaceable(fis)
    requires Kept(done, ks) && ApartFrom(fis, ks)
    ensures var done' := done + lits[0] + ResultText(fis[0]);
      var ks' := if fis[0].formatted.Truthy() then ks else ks + [fis[0].text];
      && NoBrace(lits[1..]) && Replaceable(fis[1..]) && Kept(done', ks') && ApartFrom(fis[1..], ks')
      && ReplaceItems(done + Interleave(lits, MatchTexts(fis)), fis)
         == ReplaceItems(done' + Interleave(lits[1..], MatchTexts(fis[1..])), fis[1..])
      && done + Interleave(lits, ResultTexts(fis))
         == done' + Interleave(lits[1..], ResultTexts(fis[1..]))
  {
    var fi := fis[0];
    var tailT := Interleave(lits[1..], MatchTexts(fis[1..]));
    var tailR := Interleave(lits[1..], ResultTexts(fis[1..]));
    InterleaveTexts(lits, fis);
    TailsReplaceable(lits, fis, ks);
    assert fis == [fi] + fis[1..];
    if fi.formatted.Truthy() {
      ReplaceAfterKept(done, ks, lits[0], fi.text, fi.formatted.text, tailT);
      KeptAppendPlain(done, ks, lits[0] + fi.formatted.text);
    } else {
      KeptAppendPlain(done, ks, lits[0]);
      KeptAppendOpening(done + lits[0], ks, fi.text);
    }
    SeqAssoc(done, lits[0], fi.text + tailT);
    SeqAssoc(done + lits[0], fi.text, tailT);
    SeqAssoc(done, lits[0] + ResultText(fi), tailR);
    SeqAssoc(done, lits[0], ResultText(fi));
    SeqAssoc(lits[0], fi.text, tailT);
  }

  /** Both interleavings with their first literal piece and entry split off. */
  lemma {:induction false} InterleaveTexts(lits: seq<string>, fis: seq<FormatItem>)
    requires |lits| == |fis| + 1 && fis != []
    ensures Interleave(lits, MatchTexts(fis))
         == lits[0] + fis[0].text + Interleave(lits[1..], MatchTexts(fis[1..]))
    ensures Interleave(lits, ResultTexts(fis))
         == lits[0] + ResultText(fis[0]) + Interleave(lits[1..], ResultTexts(fis[1..]))
  {
    InterleaveCons(lits, MatchTexts(fis));
    InterleaveCons(lits, ResultTexts(fis));
    assert MatchTexts(fis)[1..] == MatchTexts(fis[1..]);
    assert ResultTexts(fis)[1..] == ResultTexts(fis[1..]);
  }

  lemma {:induction false} TailsReplaceable(lits: seq<string>, fis: seq<FormatItem>, ks: seq<string>)
    requires |lits| == |fis| + 1 && fis != [] && NoBrace(lits) && Replaceable(fis) && ApartFrom(fis, ks)
    ensures NoBrace(lits[1..]) && Replaceable(fis[1..]) && ApartFrom(fis[1..], ks)
    ensures !fis[0].formatted.Truthy() ==> ApartFrom(fis[1..], ks + [fis[0].text])
    ensures '{' !in lits[0] && Opening(fis[0].text) && Inert(fis[0].formatted)
    ensures fis[0].formatted.Truthy() ==> forall j :: 0 <= j < |ks| ==> Apart(fis[0].text, ks[j])
  {
    assert forall k | 0 <= k < |fis[1..]| :: fis[1..][k] == fis[k + 1];
    assert forall k | 0 <= k < |lits[1..]| :: lits[1..][k] == lits[k + 1];
    if !fis[0].formatted.Truthy() {
      var ks' := ks + [fis[0].text];
      forall k, j | 0 <= k < |fis[1..]| && 0 <= j < |ks'| && fis[1..][k].formatted.Truthy()
        ensures Apart(fis[1..][k].text, ks'[j])
      {
        if j < |ks| {
          assert ks'[j] == ks[j];
        } else {
          assert ks'[j] == fis[0].text;
        }
      }
    }
  }

  /** The `formatItems` array of a well-formed template, seen through
      `MatchTexts` and `ResultTexts`. */
  lemma {:induction false} FormatItemsTexts(items: seq<Item>, args: seq<Value>)
    requires InRange(items, |args|)
    ensures MatchTexts(FormatItems(items, args)) == Texts(items)
    ensures ResultTexts(FormatItems(items, args)) == Rendered(items, args)
    decreases |items|
  {
    if items != [] {
      FormatItemsTail(items, args);
      FormatItemsTexts(items[1..], args);
    }
  }

  /** The text of a well-formed placeholder opens with its only `{`. */
  lemma {:induction false} TextOpening(it: Item)
    requires it.WellFormed()
    ensures Opening(it.Text())
  {
    NoBraceIn(it.index);
    AfterIndexNoBrace(it);
    NoBraceJoin("{", it.index, it.AfterIndex());
  }

  /** `{` then two texts without `{`: a placeholder text. */
  lemma {:induction false} NoBraceJoin(open: string, a: string, b: string)
    requires open == "{" && '{' !in a && '{' !in b
    ensures Opening(open + a + b)
  {
    assert (open + a + b)[1..] == a + b;
  }

  lemma {:induction false} AfterIndexNoBrace(it: Item)
    requires it.WellFormed()
    ensures '{' !in it.AfterIndex()
  {
    AlignmentNoBrace(it);
    FormatNoBrace(it);
    assert '{' !in it.AfterAlignment();
  }

  /** Digits and format characters are never `{`. */
  lemma {:induction false} NoBraceIn(s: string)
    requires AllFormatChars(s)
    ensures '{' !in s
  {
    forall k | 0 <= k < |s|
      ensures s[k] != '{'
    {
      assert IsFormatChar(s[k]);
    }
  }

  lemma {:induction false} AlignmentNoBrace(it: Item)
    requires it.WellFormed()
    ensures '{' !in it.AlignmentText()
  {
    if it.alignment.Some? {
      var a := it.alignment.value;
      assert AllFormatChars(a) by {
        forall k | 0 <= k < |a|
          ensures IsFormatChar(a[k])
        {
          if a[0] == '-' && k > 0 {
            assert a[k] == a[1..][k - 1];
          }
        }
      }
      NoBraceIn(a);
      assert it.AlignmentText() == "," + a;
    }
  }

  lemma {:induction false} FormatNoBrace(it: Item)
    requires it.WellFormed()
    ensures '{' !in it.FormatText()
  {
    if it.format.Some? {
      NoBraceIn(it.format.value);
      assert it.FormatText() == ":" + it.format.value;
    }
  }

  /** Two well-formed placeholders, one text a prefix of the other, are the
      same placeholder: the pattern reads both at the same position. */
  lemma {:induction false} PrefixSame(a: Item, b: Item)
    requires a.WellFormed() && b.WellFormed()
    requires |a.Text()| <= |b.Text()| && b.Text()[..|a.Text()|] == a.Text()
    ensures a == b
  {
    var t := b.Text();
    assert t[0..|t|] == t;
    MatchAtComplete(t, 0, a);
    MatchAtComplete(t, 0, b);
  }

  /** Those `formatItems` entries can be replaced in place. */
  lemma {:induction false} FormatItemsReplaceable(items: seq<Item>, args: seq<Value>)
    requires InRange(items, |args|) && AllWellFormed(items) && AllInert(items, args)
    ensures Replaceable(FormatItems(items, args))
  {
    var fis := FormatItems(items, args);
    forall k | 0 <= k < |fis|
      ensures Opening(fis[k].text) && Inert(fis[k].formatted)
    {
      FormatItemsAt(items, args, k);
      TextOpening(items[k]);
    }
    forall k, j | 0 <= k < |fis| && 0 <= j < |fis| && fis[k].formatted.Truthy() && !fis[j].formatted.Truthy()
      ensures Apart(fis[k].text, fis[j].text)
    {
      FormatItemsAt(items, args, k);
      FormatItemsAt(items, args, j);
      var tk, tj := items[k].Text(), items[j].Text();
      if |tk| <= |tj| && tj[..|tk|] == tk {
        PrefixSame(items[k], items[j]);
      }
      if |tj| <= |tk| && tk[..|tj|] == tj {
        PrefixSame(items[j], items[k]);
      }
    }
  }

  lemma {:induction false} FormatItemsAt(items: seq<Item>, args: seq<Value>, k: nat)
    requires InRange(items, |args|) && k < |items|
    ensures FormatItems(items, args)[k]
         == FormatItem(items[k].Text(), Formatted(args[ArgIndex(items[k])], items[k]))
    decreases k
  {
    FormatItemsTail(items, args);
    if k > 0 {
      FormatItemsAt(items[1..], args, k - 1);
    }
  }

  /** Positional substitution: in a template made of literal pieces without
      `{` and placeholders whose indices all have arguments, each placeholder
      whose formatted value is truthy is replaced, in place, by that value,
      and each one whose formatted value is falsy stays as it is, provided
      the truthy values hold neither `{` nor `$`. Under that condition
      replacing the first occurrence of each match text is the same as
      replacing each placeholder where it stands. */
  lemma {:induction false} FormatPositional(lits: seq<string>, items: seq<Item>, args: seq<Value>)
    requires |lits| == |items| + 1 && NoBrace(lits) && AllWellFormed(items)
    requires InRange(items, |args|) && AllInert(items, args)
    ensures Format(Interleave(lits, Texts(items)), args) == Ok(Interleave(lits, Rendered(items, args)))
  {
    var t := Interleave(lits, Texts(items));
    assert t[0..] == t;
    ScanInterleave(t, 0, lits, items);
    FormatItemsTexts(items, args);
    FormatItemsReplaceable(items, args);
    ReplaceInterleave([], [], lits, FormatItems(items, args));
    assert [] + t == t;
    assert [] + Interleave(lits, Rendered(items, args)) == Interleave(lits, Rendered(items, args));
  }

  /** A placeholder standing anywhere in the template whose index has no
      argument fails the whole call; no partial result is returned. The text
      around it may hold `{` too. */
  lemma {:induction false} FormatOutOfRange(template: string, args: seq<Value>, p: nat, it: Item)
    requires it.WellFormed() && JsString.Occurs(template, it.Text(), p)
    requires ArgIndex(it) >= |args|
    ensures Format(template, args) == Err(IndexOutOfBounds)
  {
    MatchAtComplete(template, p, it);
    ScanFinds(template, 0, p);
    var ms := Scan(template, 0);
    var k :| 0 <= k < |ms| && ms[k] == Match(p, it);
    assert Items(ms)[k] == it;
  }

  /** Every placeholder standing in the text at or after `from` is recorded
      by the scan: a match holds `{` only at its start, so no earlier match
      can run over the `{` that opens it. */
  lemma {:induction false} ScanFinds(t: string, from: nat, p: nat)
    requires from <= p && MatchAt(t, p).Some?
    ensures Match(p, MatchAt(t, p).value) in Scan(t, from)
    decreases p - from
  {
    var target := Match(p, MatchAt(t, p).value);
    var m := ExecReaches(t, from, p);
    ScanNext(t, from);
    var tail := Scan(t, m.End());
    if m.pos == p {
      assert m == target;
      MemberCons(target, m, tail);
    } else {
      InsideNoMatch(t, m, p);
      ScanFinds(t, m.End(), p);
      MemberCons(target, m, tail);
    }
  }

  /** `exec` from `from` finds a match no later than any match at or after `from`. */
  lemma {:induction false} ExecReaches(t: string, from: nat, p: nat) returns (m: Match)
    requires from <= p && MatchAt(t, p).Some?
    ensures Exec(t, from) == Some(m) && m.pos <= p
    ensures m.item.WellFormed() && JsString.Occurs(t, m.item.Text(), m.pos)
    ensures m.pos == p ==> m.item == MatchAt(t, p).value
  {
    ExecLeftmost(t, from);
    ExecInside(t, from);
    m := Exec(t, from).value;
  }

  lemma {:induction false} MemberCons(x: Match, m: Match, rest: seq<Match>)
    requires x == m || x in rest
    ensures x in [m] + rest
  {
  }

  /** A match ends before any `{` after its start: no match starts strictly
      inside the text of another. */
  lemma {:induction false} InsideNoMatch(t: string, m: Match, p: nat)
    requires m.item.WellFormed() && JsString.Occurs(t, m.item.Text(), m.pos)
    requires m.pos < p && MatchAt(t, p).Some?
    ensures m.End() <= p
  {
    if p < m.End() {
      TextOpening(m.item);
      assert false;
    }
  }


  /** With no arguments at all, any template that holds a placeholder fails. */
  lemma {:induction false} FormatWithoutArguments(template: string)
    requires Scan(template, 0) != []
    ensures Format(template, []) == Err(IndexOutOfBounds)
  {
    assert Items(Scan(template, 0))[0] == Scan(template, 0)[0].item;
  }

  /** The scan of `a {…} b`, with no `{` in `a` or `b`, finds that one placeholder. */
  lemma {:induction false} ScanSingle(a: string, it: Item, b: string)
    requires '{' !in a && '{' !in b && it.WellFormed()
    ensures Items(Scan(a + it.Text() + b, 0)) == [it]
  {
    var lits := [a, b];
    assert Texts([it]) == [it.Text()];
    assert Interleave(lits, Texts([it])) == a + it.Text() + b;
    var t := a + it.Text() + b;
    assert t[0..] == t;
    ScanInterleave(t, 0, lits, [it]);
  }

  /** Entries whose formatted value is falsy are skipped by the replace pass. */
  lemma {:induction false} ReplaceItemsFalsy(target: string, fis: seq<FormatItem>)
    requires forall k :: 0 <= k < |fis| ==> !fis[k].formatted.Truthy()
    ensures ReplaceItems(target, fis) == target
    decreases |fis|
  {
    if fis != [] {
      assert !fis[0].formatted.Truthy();
      ReplaceItemsFalsy(target, fis[1..]);
    }
  }
}
