/** The behaviour the repository's own tests expect (test/alignment.js,
    test/general.js, test/numbers.js), derived from the general lemmas for
    templates holding one placeholder. */
module Examples {
  import opened Values
  import Align
  import Mask
  import opened Placeholder
  import opened StringFormat
  import opened FormatProperties

  /** A template holding a single placeholder and literal text around it. */
  lemma {:induction false} OnePlaceholder(a: string, it: Item, b: string, args: seq<Value>)
    requires '{' !in a && '{' !in b && it.WellFormed()
    requires ArgIndex(it) < |args| && Plain(Formatted(args[ArgIndex(it)], it))
    ensures Format(a + it.Text() + b, args) == Ok(a + Formatted(args[ArgIndex(it)], it).text + b)
  {
    var lits, items := [a, b], [it];
    assert Texts(items) == [it.Text()];
    assert Rendered(items, args) == [Formatted(args[ArgIndex(it)], it).text];
    assert NoBrace(lits) && AllWellFormed(items) && InRange(items, |args|) && AllInert(items, args);
    FormatPositional(lits, items, args);
  }

  /** The template is the placeholder alone. */
  lemma {:induction false} OnlyPlaceholder(template: string, it: Item, args: seq<Value>, expected: string)
    requires it.WellFormed() && it.Text() == template
    requires ArgIndex(it) < |args| && Formatted(args[ArgIndex(it)], it) == Str(expected)
    requires expected != [] && '{' !in expected && '$' !in expected
    ensures Format(template, args) == Ok(expected)
  {
    OnePlaceholder("", it, "", args);
    EmptyAround(template);
    EmptyAround(expected);
  }

  lemma {:induction false} EmptyAround(x: string)
    ensures "" + x + "" == x
  {
  }

  /** Without a format, a width of `w` pads the value's text with spaces:
      after it for a negative alignment, before it for a positive one. */
  lemma {:induction false} FormattedPadded(v: Value, it: Item, w: nat, pad: string)
    requires it.format.None? && |v.text| < w && pad == Align.Repeat(" ", w - |v.text|)
    requires AlignmentOf(it) == w || AlignmentOf(it) == -(w as int)
    ensures AlignmentOf(it) < 0 ==> Formatted(v, it) == Str(v.text + pad)
    ensures AlignmentOf(it) > 0 ==> Formatted(v, it) == Str(pad + v.text)
  {
  }

  /** Without a format or a width, the value's text. */
  lemma {:induction false} FormattedText(v: Value, it: Item)
    requires it.format.None? && AlignmentOf(it) == 0
    ensures Formatted(v, it) == Str(v.text)
  {
  }

  // test/alignment.js

  /** `'{0,0}'.format('world')` is `'world'`. */
  lemma {:induction false} AlignZeroExample()
    ensures Format("{0,0}", [Str("world")]) == Ok("world")
  {
    var it := Item("0", Some("0"), None);
    assert it.Text() == "{0,0}";
    assert it.WellFormed() && ArgIndex(it) == 0;
    assert AlignmentOf(it) == 0 by {
      assert ("0")[..0] == "";
    }
    FormattedText(Str("world"), it);
    OnlyPlaceholder("{0,0}", it, [Str("world")], "world");
  }

  /** `'{0,-7}'.format('world')` is `'world  '`. */
  lemma {:induction false} AlignLeftExample()
    ensures Format("{0,-7}", [Str("world")]) == Ok("world  ")
  {
    AlignLeftItem();
    OnlyPlaceholder("{0,-7}", Item("0", Some("-7"), None), [Str("world")], "world  ");
  }

  lemma {:induction false} AlignLeftItem()
    ensures var it := Item("0", Some("-7"), None);
      it.WellFormed() && it.Text() == "{0,-7}" && ArgIndex(it) == 0
      && Formatted(Str("world"), it) == Str("world  ")
  {
    var it := Item("0", Some("-7"), None);
    assert AlignmentOf(it) == -7 by {
      assert ("-7")[1..] == "7";
      assert ("7")[..0] == "";
    }
    TwoSpaces();
    FormattedPadded(Str("world"), it, 7, "  ");
  }

  /** `'{0,7}'.format('world')` is `'  world'`. */
  lemma {:induction false} AlignRightExample()
    ensures Format("{0,7}", [Str("world")]) == Ok("  world")
  {
    AlignRightItem();
    OnlyPlaceholder("{0,7}", Item("0", Some("7"), None), [Str("world")], "  world");
  }

  lemma {:induction false} AlignRightItem()
    ensures var it := Item("0", Some("7"), None);
      it.WellFormed() && it.Text() == "{0,7}" && ArgIndex(it) == 0
      && Formatted(Str("world"), it) == Str("  world")
  {
    var it := Item("0", Some("7"), None);
    assert AlignmentOf(it) == 7 by {
      assert ("7")[..0] == "";
    }
    TwoSpaces();
    FormattedPadded(Str("world"), it, 7, "  ");
  }

  lemma {:induction false} TwoSpaces()
    ensures Align.Repeat(" ", 2) == "  "
  {
    assert Align.Repeat(" ", 0) == "";
    assert Align.Repeat(" ", 1) == " ";
  }

  // test/general.js

  /** `'hello, world!'.format()` is `'hello, world!'`. */
  lemma {:induction false} NoArgumentsExample()
    ensures Format("hello, world!", []) == Ok("hello, world!")
  {
    FormatNoPlaceholders("hello, world!", []);
  }

  /** `'hello, {0}!'.format('Peter', 'Adam', 'Jeckil')` does not throw: it is
      `'hello, Peter!'`. */
  lemma {:induction false} ExtraArgumentsExample()
    ensures Format("hello, {0}!", [Str("Peter"), Str("Adam"), Str("Jeckil")]) == Ok("hello, Peter!")
  {
    var it := Item("0", None, None);
    HelloItem(Str("Peter"));
    OnePlaceholder("hello, ", it, "!", [Str("Peter"), Str("Adam"), Str("Jeckil")]);
    HelloTexts();
  }

  lemma {:induction false} HelloItem(v: Value)
    ensures var it := Item("0", None, None);
      it.WellFormed() && it.Text() == "{0}" && ArgIndex(it) == 0 && Formatted(v, it) == Str(v.text)
  {
    FormattedText(v, Item("0", None, None));
  }

  lemma {:induction false} HelloTexts()
    ensures "hello, " + "{0}" + "!" == "hello, {0}!"
    ensures "hello, " + "Peter" + "!" == "hello, Peter!"
  {
  }

  /** `'hello, {0}!'.format()` throws `'index is out of bounds'`. */
  lemma {:induction false} MissingArgumentExample()
    ensures Format("hello, {0}!", []) == Err(IndexOutOfBounds)
  {
    var it := Item("0", None, None);
    assert it.Text() == "{0}";
    assert it.WellFormed() && ArgIndex(it) == 0;
    assert "hello, {0}!"[7..10] == "{0}";
    FormatOutOfRange("hello, {0}!", [], 7, it);
  }

  /** A `{` in the literal text does not hide a placeholder from the scan:
      `'{{5}'.format('a')` throws `'index is out of bounds'`. */
  lemma {:induction false} BraceLiteralOutOfRange()
    ensures Format("{{5}", [Str("a")]) == Err(IndexOutOfBounds)
  {
    var it := Item("5", None, None);
    assert it.Text() == "{5}";
    assert it.WellFormed() && ArgIndex(it) == 5;
    assert "{{5}"[1..4] == "{5}";
    FormatOutOfRange("{{5}", [Str("a")], 1, it);
  }

  /** A `{` in the literal text can join a formatted value into the text of
      a later placeholder, which `replace` then rewrites:
      `'{1{0}{1}'.format('}', 'y')` is `'y{1}'`, not the `'{1}y'` that putting
      each value in its own placeholder's place would give. */
  lemma {:induction false} BraceJoinExample()
    ensures Format("{1{0}{1}", [Str("}"), Str("y")]) == Ok("y{1}")
  {
    var t, args := "{1{0}{1}", [Str("}"), Str("y")];
    var a, b := Item("0", None, None), Item("1", None, None);
    var items := Items(Scan(t, 0));
    assert items == [a, b] by {
      BraceJoinScan();
      assert Items(Scan(t, 0)[1..]) == [b];
    }
    BraceJoinItems();
    assert InRange(items, |args|);
    var fis := FormatItems(items, args);
    assert fis == [FormatItem("{0}", Str("}")), FormatItem("{1}", Str("y"))] by {
      assert FormatItems([b], args) == [FormatItem("{1}", Str("y"))];
      assert [a, b][1..] == [b];
    }
    BraceJoinReplace();
  }

  /** The two placeholders of `'{1{0}{1}'` and their unaligned values. */
  lemma {:induction false} BraceJoinItems()
    ensures var a := Item("0", None, None);
      a.WellFormed() && a.Text() == "{0}" && ArgIndex(a) == 0 && Formatted(Str("}"), a) == Str("}")
    ensures var b := Item("1", None, None);
      b.WellFormed() && b.Text() == "{1}" && ArgIndex(b) == 1 && Formatted(Str("y"), b) == Str("y")
  {
    FormattedText(Str("}"), Item("0", None, None));
    FormattedText(Str("y"), Item("1", None, None));
  }

  /** The scan of `'{1{0}{1}'`: `{1` is no placeholder, so `{0}` and `{1}` are found. */
  lemma {:induction false} BraceJoinScan()
    ensures Scan("{1{0}{1}", 0) == [Match(2, Item("0", None, None)), Match(5, Item("1", None, None))]
  {
    var t := "{1{0}{1}";
    var a, b := Item("0", None, None), Item("1", None, None);
    BraceJoinItems();
    BraceJoinMatches();
    ExecFirst(t, 0, 2, a);
    ExecFirst(t, 5, 5, b);
    ScanNext(t, 0);
    ScanNext(t, 5);
    assert Scan(t, 8) == [];
  }

  /** Where the pattern matches in `'{1{0}{1}'`. */
  lemma {:induction false} BraceJoinMatches()
    ensures MatchAt("{1{0}{1}", 0).None? && MatchAt("{1{0}{1}", 1).None?
    ensures MatchAt("{1{0}{1}", 2) == Some(Item("0", None, None))
    ensures MatchAt("{1{0}{1}", 5) == Some(Item("1", None, None))
  {
    var t := "{1{0}{1}";
    BraceJoinItems();
    assert t[2..5] == "{0}" && t[5..8] == "{1}";
    MatchAtComplete(t, 2, Item("0", None, None));
    MatchAtComplete(t, 5, Item("1", None, None));
  }

  /** The replace pass on `'{1{0}{1}'`: `{0}` becomes `}`, which closes `{1`
      into a `{1}` that now comes first. */
  lemma {:induction false} BraceJoinReplace()
    ensures ReplaceItems("{1{0}{1}", [FormatItem("{0}", Str("}")), FormatItem("{1}", Str("y"))]) == "y{1}"
  {
    var fis := [FormatItem("{0}", Str("}")), FormatItem("{1}", Str("y"))];
    BraceJoinFirst();
    BraceJoinSecond();
    assert fis[1..] == [FormatItem("{1}", Str("y"))];
    assert ReplaceItems("{1}{1}", fis[1..]) == ReplaceItems("y{1}", []);
  }

  /** `'{1{0}{1}'.replace('{0}', '}')` is `'{1}{1}'`. */
  lemma {:induction false} BraceJoinFirst()
    ensures JsString.Replace("{1{0}{1}", "{0}", "}") == "{1}{1}"
  {
    var t := "{1{0}{1}";
    assert t[0..3][1] != "{0}"[1] && t[1..4][0] != "{0}"[0];
    assert t[2..5] == "{0}";
    JsString.ReplaceFirst(t, "{0}", "}", 2);
    assert t[..2] + "}" + t[5..] == "{1}{1}";
  }

  /** `'{1}{1}'.replace('{1}', 'y')` is `'y{1}'`. */
  lemma {:induction false} BraceJoinSecond()
    ensures JsString.Replace("{1}{1}", "{1}", "y") == "y{1}"
  {
    var u := "{1}{1}";
    assert u[0..3] == "{1}";
    JsString.ReplaceFirst(u, "{1}", "y", 0);
    assert u[..0] + "y" + u[3..] == "y{1}";
  }

  /** `'{0:0} and {1}'.format(0, 'x')` is `'{0:0} and x'`: the mask `0` is
      no longer than the text `0`, so `formatIntegerPart` returns the number
      0 itself, which is falsy, and its placeholder stays in the template
      while the next one is replaced. */
  lemma {:induction false} FalsyKeptExample()
    ensures Format("{0:0} and {1}", [NonStr("0", false), Str("x")]) == Ok("{0:0} and x")
  {
    var args := [NonStr("0", false), Str("x")];
    var a, b := Item("0", None, Some("0")), Item("1", None, None);
    var lits, items := ["", " and ", ""], [a, b];
    FalsyKeptItems();
    assert Texts(items) == ["{0:0}", "{1}"] by {
      assert Texts(items[1..]) == ["{1}"];
    }
    assert Rendered(items, args) == ["{0:0}", "x"] by {
      assert Rendered(items[1..], args) == ["x"];
    }
    assert NoBrace(lits) && AllWellFormed(items) && InRange(items, |args|) && AllInert(items, args);
    FormatPositional(lits, items, args);
    FalsyKeptTexts();
  }

  lemma {:induction false} FalsyKeptItems()
    ensures var a := Item("0", None, Some("0"));
      a.WellFormed() && a.Text() == "{0:0}" && ArgIndex(a) == 0
      && Formatted(NonStr("0", false), a) == NonStr("0", false)
    ensures var b := Item("1", None, None);
      b.WellFormed() && b.Text() == "{1}" && ArgIndex(b) == 1 && Formatted(Str("x"), b) == Str("x")
  {
    var a := Item("0", None, Some("0"));
    FormattedUnaligned(NonStr("0", false), a);
    FormatValueWhole(NonStr("0", false), "0");
    FormattedText(Str("x"), Item("1", None, None));
  }

  lemma {:induction false} FalsyKeptTexts()
    ensures Interleave(["", " and ", ""], ["{0:0}", "{1}"]) == "{0:0} and {1}"
    ensures Interleave(["", " and ", ""], ["{0:0}", "x"]) == "{0:0} and x"
  {
    InterleaveTwo("", " and ", "", "{0:0}", "{1}");
    InterleaveTwo("", " and ", "", "{0:0}", "x");
  }

  /** Two placeholders between three literal pieces. */
  lemma {:induction false} InterleaveTwo(l0: string, l1: string, l2: string, x: string, y: string)
    ensures Interleave([l0, l1, l2], [x, y]) == l0 + x + (l1 + y + l2)
  {
    assert [l0, l1, l2][1..] == [l1, l2] && [x, y][1..] == [y];
    assert [l1, l2][1..] == [l2] && [y][1..] == [];
    assert Interleave([l2], []) == l2;
    assert Interleave([l1, l2], [y]) == l1 + y + l2;
  }

  // test/numbers.js, one placeholder at a time

  /** `{0:mask}`: the value of argument 0 through the mask, unaligned. */
  lemma {:induction false} MaskedItem(mask: string, v: Value)
    requires mask != [] && AllFormatChars(mask)
    ensures var it := Item("0", None, Some(mask));
      it.WellFormed() && it.Text() == "{0:" + mask + "}" && ArgIndex(it) == 0
      && Formatted(v, it) == FormatValue(v, Some(mask))
  {
    FormattedUnaligned(v, Item("0", None, Some(mask)));
  }

  /** The template `{0:mask}` renders its one argument by the mask alone. */
  lemma {:induction false} MaskedExample(mask: string, v: Value, expected: string)
    requires mask != [] && AllFormatChars(mask)
    requires FormatValue(v, Some(mask)) == Str(expected)
    requires expected != [] && '{' !in expected && '$' !in expected
    ensures Format("{0:" + mask + "}", [v]) == Ok(expected)
  {
    MaskedItem(mask, v);
    OnlyPlaceholder("{0:" + mask + "}", Item("0", None, Some(mask)), [v], expected);
  }

  /** Under a mask of `0` and `#` longer than the number, the number's
      text goes through `formatIntegerPart` zero-padded. */
  lemma {:induction false} WholeZeroPadded(mask: string, v: Value)
    requires |v.text| < |mask| && '.' !in mask && '.' !in v.text
    requires forall k :: 0 <= k < |mask| ==> Mask.IsDigitPlaceholder(mask[k])
    ensures FormatValue(v, Some(mask)) == Str(Zeros(Mask.ZeroRun(mask[..|mask| - |v.text|])) + v.text)
  {
    FormatValueWhole(v, mask);
    Mask.IntegerPartZeroPadding(v.text, mask);
  }

  /** `'{0:00}'.format(1)` is `'01'`. */
  lemma {:induction false} TwoDigitsExample()
    ensures Format("{0:00}", [NonStr("1", true)]) == Ok("01")
  {
    TwoDigitsValue();
    MaskedExample("00", NonStr("1", true), "01");
    assert "{0:" + "00" + "}" == "{0:00}";
  }

  lemma {:induction false} TwoDigitsValue()
    ensures FormatValue(NonStr("1", true), Some("00")) == Str("01")
  {
    WholeZeroPadded("00", NonStr("1", true));
    assert ("00")[..1] == "0";
    assert Mask.ZeroRun("0") == 1;
    assert Zeros(1) == "0";
  }

  /** `{0:0##000}` renders 123 as `'000123'`: every position from the
      leftmost `0` on is filled. */
  lemma {:induction false} LeadingZeroValue()
    ensures FormatValue(NonStr("123", true), Some("0##000")) == Str("000123")
  {
    LeadingZeroMask();
    WholeZeroPadded("0##000", NonStr("123", true));
    ZeroRunHead();
  }

  lemma {:induction false} LeadingZeroMask()
    ensures '.' !in "0##000" && ("0##000")[..3] == "0##"
    ensures forall k :: 0 <= k < 6 ==> Mask.IsDigitPlaceholder(("0##000")[k])
  {
  }

  lemma {:induction false} ZeroRunHead()
    ensures Zeros(Mask.ZeroRun("0##")) == "000"
  {
    assert ("0##")[..2] == "0#" && ("0#")[..1] == "0";
    assert Mask.ZeroRun("0##") == 3;
    assert Zeros(3) == "000";
  }

  /** `{0:#000}` renders 456 as `'456'`: an unmet `#` left of every `0`
      is dropped. */
  lemma {:induction false} UnmetHashValue()
    ensures FormatValue(NonStr("456", true), Some("#000")) == Str("456")
  {
    WholeZeroPadded("#000", NonStr("456", true));
    assert ("#000")[..1] == "#";
    assert Mask.ZeroRun("#") == 0;
  }

  /** `{0:#-#-000}` renders 123 as `'--123'`: the digits fill the `0`
      positions, the unmet `#` positions are dropped and the literals stay. */
  lemma {:induction false} LiteralHeadValue()
    ensures FormatValue(NonStr("123", true), Some("#-#-000")) == Str("--123")
  {
    assert '.' !in "#-#-000";
    FormatValueWhole(NonStr("123", true), "#-#-000");
    LiteralHeadPart();
  }

  lemma {:induction false} LiteralHeadPart()
    ensures Mask.IntegerPart(NonStr("123", true), "#-#-000") == Str("--123")
  {
    LiteralHeadMask();
    Mask.IntegerPartUnmetHead("123", "#-#-", "000");
  }

  lemma {:induction false} LiteralHeadMask()
    ensures "#-#-" + "000" == "#-#-000"
    ensures Mask.Placeholders("000") == 3 && '0' !in "#-#-"
    ensures Mask.Literals("#-#-") == "--" && Mask.Fill("000", "123") == "123"
  {
    assert ("#-#-")[..3] == "#-#" && ("#-#")[..2] == "#-" && ("#-")[..1] == "#";
    assert ("000")[..2] == "00" && ("00")[..1] == "0";
    assert ("123")[..2] == "12" && ("12")[..1] == "1";
  }

  /** `'{0:0-##}'.format(5)` is `'00-5'`. */
  lemma {:induction false} BackfillExample()
    ensures Format("{0:0-##}", [NonStr("5", true)]) == Ok("00-5")
  {
    BackfillValue();
    BackfillTemplate();
    MaskedExample("0-##", NonStr("5", true), "00-5");
  }

  lemma {:induction false} BackfillTemplate()
    ensures AllFormatChars("0-##") && "{0:" + "0-##" + "}" == "{0:0-##}"
  {
    assert IsFormatChar('-');
  }

  /** `{0:0-##}` renders 5 as `'00-5'`: the digit fills the last `#`, and
      the unmet `#` is back-filled as a zero next to the `0`, left of the
      literal `-` that stood between them. */
  lemma {:induction false} BackfillValue()
    ensures FormatValue(NonStr("5", true), Some("0-##")) == Str("00-5")
  {
    assert '.' !in "0-##";
    FormatValueWhole(NonStr("5", true), "0-##");
    BackfillPart();
  }

  lemma {:induction false} BackfillPart()
    ensures Mask.IntegerPart(NonStr("5", true), "0-##") == Str("00-5")
  {
    BackfillSplit();
    BackfillHead();
    assert Mask.IntegerPart(NonStr("5", true), "0-##") == Mask.IntegerPart(Str("5"), "0-##");
  }

  /** The digit fills the last `#`; the head `0-#` is read with no digit left. */
  lemma {:induction false} BackfillSplit()
    ensures Mask.IntegerPart(Str("5"), "0-##") == Str(Mask.IntegerRender("5", "0-#", -1, 0) + "5")
  {
    BackfillMask();
    Mask.IntegerPartUnmetHead("5", "0-#", "#");
  }

  lemma {:induction false} BackfillHead()
    ensures Mask.IntegerRender("5", "0-#", -1, 0) + "5" == "00-5"
  {
    BackfillMask();
    Mask.IntegerRenderBackfill("5", "", "-#", -1, 0);
  }

  lemma {:induction false} BackfillMask()
    ensures "0-#" + "#" == "0-##" && "" + "0" + "-#" == "0-#"
    ensures Mask.Placeholders("#") == 1 && Mask.Placeholders("-#") == 1 && '0' !in "-#"
    ensures Mask.Literals("-#") == "-" && Mask.Fill("#", "5") == "5"
    ensures Mask.IntegerRender("5", "", -3, 0) == "" && Zeros(1) == "0"
  {
    assert ("-#")[..1] == "-";
    assert ("#")[..0] == "";
  }

  /** `{0:0.00}` renders 123.56 as `'123.56'`: an integer submask no longer
      than the integer part leaves it as it is. */
  lemma {:induction false} DecimalValue()
    ensures FormatValue(NonStr("123.56", true), Some("0.00")) == Str("123.56")
  {
    DecimalMask();
    FormatValueDecimal(NonStr("123.56", true), "0", "00", "123", "56");
    Mask.FractionalPositional("56", "00");
  }

  lemma {:induction false} DecimalMask()
    ensures "0" + "." + "00" == "0.00"
    ensures NonStr("123.56", true).text == "123" + "." + "56"
    ensures Mask.Placeholders("00") == 2 && Mask.RemoveDots("00") == "00"
    ensures Mask.IntegerPart(Str("123"), "0") == Str("123")
    ensures Mask.Fill("00", "56") == "56" && ("56")[..2] == "56"
  {
    DecimalMaskText();
    DecimalMaskFraction();
    DecimalMaskInteger();
  }

  lemma {:induction false} DecimalMaskText()
    ensures "0" + "." + "00" == "0.00"
    ensures NonStr("123.56", true).text == "123" + "." + "56"
  {
  }

  lemma {:induction false} DecimalMaskFraction()
    ensures Mask.Placeholders("00") == 2 && Mask.RemoveDots("00") == "00"
    ensures Mask.Fill("00", "56") == "56" && ("56")[..2] == "56"
  {
    assert ("00")[..1] == "0" && ("00")[1..] == "0";
    assert ("56")[..1] == "5";
  }

  lemma {:induction false} DecimalMaskInteger()
    ensures Mask.IntegerPart(Str("123"), "0") == Str("123")
  {
  }

  // test/numbers.js rows the code does not satisfy

  /** Row 42-46 expects `'^123 ^456^'` for `{0:^#} {1:^#^}` on 123 and 456.
      A mask no longer than the value's text returns the value itself, so
      both numbers come back unchanged. */
  lemma {:induction false} CaretShortMaskValue()
    ensures FormatValue(NonStr("123", true), Some("^#")) == NonStr("123", true)
    ensures FormatValue(NonStr("456", true), Some("^#^")) == NonStr("456", true)
  {
    assert '.' !in "^#" && '.' !in "^#^" && '.' !in "123" && '.' !in "456";
    FormatValueWhole(NonStr("123", true), "^#");
    FormatValueWhole(NonStr("456", true), "^#^");
  }

  /** Row 57-61 expects `'12^3.4-5---'` for `{3:#^#.#-#---}` on 123.456. The
      integer submask `#^#` is no longer than `123`, which comes back as it
      is; the fraction `456` fills the two `#` and the surplus `6` is cut. */
  lemma {:induction false} CaretDecimalValue()
    ensures FormatValue(NonStr("123.456", true), Some("#^#.#-#---")) == Str("123.4-5---")
  {
    CaretDecimalText();
    FormatValueDecimal(NonStr("123.456", true), "#^#", "#-#---", "123", "456");
    CaretDecimalFraction();
  }

  lemma {:induction false} CaretDecimalText()
    ensures "#^#" + "." + "#-#---" == "#^#.#-#---"
    ensures NonStr("123.456", true).text == "123" + "." + "456"
    ensures '.' !in "#^#" && '.' !in "123" && '.' !in "456"
    ensures Mask.IntegerPart(Str("123"), "#^#").text + "." + "4-5---" == "123.4-5---"
  {
  }

  lemma {:induction false} CaretDecimalFraction()
    ensures Mask.FractionalRender("456", "#-#---", 0, 0) == "4-5---"
  {
    var d := "456";
    assert Mask.FractionalRender(d, "---", 2, 0) == "---" by {
      assert ("---")[1..] == "--" && ("--")[1..] == "-" && ("-")[1..] == "";
    }
    assert ("#-#---")[1..] == "-#---" && ("-#---")[1..] == "#---" && ("#---")[1..] == "---";
    assert Mask.FractionalRender(d, "#---", 1, 0) == "5---";
    assert Mask.FractionalRender(d, "-#---", 1, 0) == "-5---";
  }

  /** `*` lies outside the format token's character class, so `{2:#^#*}`
      (row 42-46) is no placeholder: the text comes back as it is, whatever
      the arguments. */
  lemma {:induction false} StarTokenKept(args: seq<Value>)
    ensures Format("{2:#^#*}", args) == Ok("{2:#^#*}")
  {
    var t := "{2:#^#*}";
    forall q | 0 <= q
      ensures MatchAt(t, q).None?
    {
      if q == 0 {
        StarTokenNoMatch();
      } else if q < |t| {
        assert t[q] != '{';
      }
    }
    FormatNoMatch(t, args);
  }

  lemma {:induction false} StarTokenNoMatch()
    ensures MatchAt("{2:#^#*}", 0).None?
  {
    var t := "{2:#^#*}";
    assert Placeholder.DigitRun(t, 1) == 1;
    Placeholder.FormatRunMaximal(t, 3);
    assert !Placeholder.IsFormatChar(t[6]);
  }
}
