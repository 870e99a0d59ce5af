/** `formatString` and `formatValue` (lib/string-format.js:61-120): the scan
    pass that records every placeholder and its formatted value, then the
    pass that substitutes them into the template. */
module StringFormat {
  import opened Values
  import JsString
  import Align
  import Mask
  import opened Placeholder

  /** The error `formatString` throws: `'index is out of bounds'`. */
  datatype Error = IndexOutOfBounds

  datatype Result<T> = Ok(value: T) | Err(error: Error)

  /** `formatValue(value, format)`: without a format token, the value's own
      text (`toString()` gives a string); with one, the mask renderer. */
  function FormatValue(value: Value, format: Option<string>): (r: Value)
    ensures r.NonStr? ==> r == value
    ensures format.None? ==> r == Str(value.text)
  {
    if format.None? || format.value == [] then Str(value.text)
    else Mask.CustomFormatNumber(value, format.value)
  }

  /** The signed width of a placeholder. An absent alignment group makes
      `abs` give `undefined` and `sign` give 1, so `alignString` leaves the
      value as it is; width 0 does the same. */
  function AlignmentOf(it: Item): int
  {
    if it.alignment.None? then 0 else AlignmentValue(it.alignment.value)
  }

  /** `result.formatted`: the argument formatted, then aligned. */
  function Formatted(value: Value, it: Item): (r: Value)
  {
    var a := AlignmentOf(it);
    Align.AlignString(FormatValue(value, it.format), Align.Abs(a), Align.Sign(a))
  }

  /** One entry of `formatItems`: the matched text `item[MATCH]` and its
      formatted value `item.formatted`. */
  datatype FormatItem = FormatItem(text: string, formatted: Value)

  /** The groups of the recorded matches. */
  function Items(ms: seq<Match>): (items: seq<Item>)
    ensures |items| == |ms|
    ensures forall k :: 0 <= k < |ms| ==> items[k] == ms[k].item
  {
    if ms == [] then [] else [ms[0].item] + Items(ms[1..])
  }

  /** Every placeholder refers to an argument that exists. */
  predicate InRange(items: seq<Item>, n: nat)
  {
    forall k :: 0 <= k < |items| ==> ArgIndex(items[k]) < n
  }

  /** The `formatItems` array the scan pass builds. */
  function FormatItems(items: seq<Item>, args: seq<Value>): (r: seq<FormatItem>)
    requires InRange(items, |args|)
    ensures |r| == |items|
  {
    if items == [] then []
    else [FormatItem(items[0].Text(), Formatted(args[ArgIndex(items[0])], items[0]))]
         + FormatItems(items[1..], args)
  }

  /** The `forEach` pass: in order, every item whose formatted value is
      truthy replaces the first occurrence of its text in the current
      string; the others leave it as it is. */
  function ReplaceItems(target: string, items: seq<FormatItem>): string
    decreases |items|
  {
    if items == [] then target
    else
      var next := if items[0].formatted.Truthy()
                  then JsString.Replace(target, items[0].text, items[0].formatted.text)
                  else target;
      ReplaceItems(next, items[1..])
  }

  /** What `formatString(template, args...)` returns or throws. The scan
      pass throws at the first placeholder whose index has no argument;
      formatting a value has no effect on the scan, so this is the same as
      throwing when any scanned placeholder is out of range. */
  function Format(template: string, args: seq<Value>): Result<string>
  {
    var items := Items(Scan(template, 0));
    if InRange(items, |args|) then Ok(ReplaceItems(template, FormatItems(items, args)))
    else Err(IndexOutOfBounds)
  }

  lemma {:induction false} SeqAssoc<T>(a: seq<T>, b: seq<T>, c: seq<T>)
    ensures a + (b + c) == (a + b) + c
  {
  }

  lemma {:induction false} ItemsSnoc(ms: seq<Match>, m: Match)
    ensures Items(ms + [m]) == Items(ms) + [m.item]
    decreases |ms|
  {
    if ms != [] {
      assert (ms + [m])[1..] == ms[1..] + [m];
      ItemsSnoc(ms[1..], m);
    }
  }

  lemma {:induction false} FormatItemsSnoc(items: seq<Item>, it: Item, args: seq<Value>)
    requires InRange(items, |args|) && ArgIndex(it) < |args|
    ensures InRange(items + [it], |args|)
    ensures FormatItems(items + [it], args)
         == FormatItems(items, args) + [FormatItem(it.Text(), Formatted(args[ArgIndex(it)], it))]
    decreases |items|
  {
    if items != [] {
      assert (items + [it])[1..] == items[1..] + [it];
      FormatItemsSnoc(items[1..], it, args);
    }
  }

  lemma {:induction false} ReplaceItemsStep(target: string, items: seq<FormatItem>, i: nat)
    requires i < |items|
    ensures ReplaceItems(target, items[i..])
         == ReplaceItems(if items[i].formatted.Truthy()
                         then JsString.Replace(target, items[i].text, items[i].formatted.text)
                         else target, items[i + 1..])
  {
    assert items[i..][0] == items[i] && items[i..][1..] == items[i + 1..];
  }

  /** The `exec` loop of `formatString` (lib/string-format.js:67-89): records
      the matches, each search starting where the previous match ended, and
      throws at the first index without an argument. The search position is
      a local variable, so no cursor outlives the call on either exit. */
  method ScanPass(target: string, args: seq<Value>) returns (r: Result<seq<FormatItem>>)
    ensures r.Err? <==> !InRange(Items(Scan(target, 0)), |args|)
    ensures r.Ok? ==> r.value == FormatItems(Items(Scan(target, 0)), args)
  {
    var formatItems: seq<FormatItem> := [];
    var lastIndex: nat := 0;
    ghost var matched: seq<Match> := [];
    var result := Exec(target, lastIndex);
    while result.Some?
      invariant lastIndex <= |target|
      invariant result == Exec(target, lastIndex)
      invariant Scan(target, 0) == matched + Scan(target, lastIndex)
      invariant InRange(Items(matched), |args|)
      invariant formatItems == FormatItems(Items(matched), args)
      decreases |target| - lastIndex
    {
      var m := result.value;
      ScanStep(target, lastIndex, matched);
      var index := ArgIndex(m.item);
      if index >= |args| {
        assert Items(Scan(target, 0))[|matched|] == m.item;
        return Err(IndexOutOfBounds);
      }
      FormatItemsSnoc(Items(matched), m.item, args);
      formatItems := formatItems + [FormatItem(m.item.Text(), Formatted(args[index], m.item))];
      matched := matched + [m];
      lastIndex := m.End();
      result := Exec(target, lastIndex);
    }
    assert Scan(target, 0) == matched;
    return Ok(formatItems);
  }

  /** One turn of the `exec` loop: the match found is the next one the scan
      records, and the search goes on after it. */
  lemma {:induction false} ScanStep(target: string, lastIndex: nat, matched: seq<Match>)
    requires lastIndex <= |target| && Exec(target, lastIndex).Some?
    requires Scan(target, 0) == matched + Scan(target, lastIndex)
    ensures var m := Exec(target, lastIndex).value;
      lastIndex < m.End() <= |target|
      && Scan(target, 0) == (matched + [m]) + Scan(target, m.End())
      && Items(matched + [m]) == Items(matched) + [m.item]
      && |matched| < |Scan(target, 0)| && Scan(target, 0)[|matched|] == m
  {
    var m := Exec(target, lastIndex).value;
    ScanNext(target, lastIndex);
    var rest := Scan(target, m.End());
    SeqAssoc(matched, [m], rest);
    ItemsSnoc(matched, m);
  }

  /** The `forEach` pass of `formatString` (lib/string-format.js:92-96). */
  method ReplacePass(target: string, formatItems: seq<FormatItem>) returns (r: string)
    ensures r == ReplaceItems(target, formatItems)
  {
    var i := 0;
    r := target;
    while i < |formatItems|
      invariant 0 <= i <= |formatItems|
      invariant ReplaceItems(r, formatItems[i..]) == ReplaceItems(target, formatItems)
    {
      var item := formatItems[i];
      ReplaceItemsStep(r, formatItems, i);
      if item.formatted.Truthy() {
        r := JsString.Replace(r, item.text, item.formatted.text);
      }
      i := i + 1;
    }
  }

  /** `formatString(target, args...)`: the scan pass completes, or throws,
      before the replace pass changes anything. */
  method FormatString(target: string, args: seq<Value>) returns (r: Result<string>)
    ensures r == Format(target, args)
  {
    var scanned := ScanPass(target, args);
    if scanned.Err? {
      return Err(scanned.error);
    }
    var replaced := ReplacePass(target, scanned.value);
    return Ok(replaced);
  }
}
