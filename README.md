# string-format, modelled in Dafny

This project models `lib/string-format.js`, a small JavaScript library that
adds `String.prototype.format`. A template such as `'{0,-7:00} and {1}'` holds
placeholders `{index[,alignment][:format]}`. `formatString(template, args...)`
replaces each one with its argument. The argument is rendered by a numeric mask
of `0` and `#` when a format token is given, and padded with spaces to the
signed alignment width.

The modules follow the source:

- `Values` — the value as the formatter sees it. A string, or any other value
  with the text `toString` gives it and its JavaScript truthiness. A number is
  carried as its decimal text.
- `JsString` — the built-ins the code relies on: `indexOf` with one character,
  `split` on one character, and `replace` with a string pattern. `replace`
  includes the `$$`, `$&`, `` $` `` and `$'` patterns it expands in a
  replacement string.
- `Placeholder` — the regular expression `itemPattern` written as a matcher:
  `MatchAt` at one position, and `Exec` for `exec` from `lastIndex`. `Scan` is
  the sequence of matches the `while` loop sees. The matcher is proved sound
  and complete for the pattern's language. It matches at `p` exactly when the
  text of a well-formed placeholder starts at `p`.
- `Mask` — `formatIntegerPart` and `formatFractionalPart` as methods with their
  loops. Each is proved against a function stating what its pass produces
  (`IntegerRender`, `FractionalRender`). Those functions are then related to a
  positional reading of the mask (`Fill`). `customFormatNumber` is a function.
- `Align` — `abs`, `sign`, `repeatStr` (the binary-doubling loop) and
  `alignString`.
- `StringFormat` — `formatValue`, and `formatString` as its two passes.
  `ScanPass` is the `exec` loop that records matches and throws on a missing
  argument. `ReplacePass` is the `forEach` that calls `replace`. Both are
  proved against the function `Format`.
- `FormatProperties` — what `formatString` promises: positional substitution
  in which a placeholder with a falsy value stays in place, the error case,
  extra arguments, and templates without placeholders.
- `Examples` — the expectations of `test/alignment.js`, `test/general.js` and
  some rows of `test/numbers.js`, derived from the general lemmas.

Behaviour of the code that the model keeps:

- With no arguments, a template holding a placeholder throws
  `'index is out of bounds'` (`FormatProperties.FormatWithoutArguments`).
- A text that does not split into two parts at `.` is rendered with the
  integer submask: the token before its first `.`. A text with two or more
  dots also goes this way (`Mask.CustomFormatNumberWhole`).
- A mask no longer than the value's text returns the value itself, not its
  text. A number stays a number. It is then never padded, because it has no
  `length`. The number 0 is falsy, so its placeholder is left in the template
  (`Mask.FormatIntegerPart`, `Align.AlignString`,
  `FormatProperties.FormatPositional`, `Examples.FalsyKeptExample`).
- An unmet `#` right of the leftmost `0` is back-filled with a zero next to
  the `0` it meets, left of any literal in between: `'{0:0-##}'` with 5 gives
  `'00-5'` (`Mask.IntegerRenderBackfill`, `Examples.BackfillExample`).

The replace pass replaces the first occurrence of each match text in the
current string. A formatted value that holds the text of a later placeholder,
or a `$` pattern, is therefore rewritten again. `'{0}{1}'.format('{1}', 'x')`
is `'x{1}'`. A `{` in the literal text can do the same: it can join a value
into the text of a later placeholder. `'{1{0}{1}'.format('}', 'y')` is
`'y{1}'` and not `'{1}y'` (`Examples.BraceJoinExample`). Positional
substitution (`FormatProperties.FormatPositional`) is proved under conditions
that exclude both: literal pieces without `{`, and truthy values free of `{`
and `$`. The error case needs neither: a placeholder with no argument fails the
call wherever it stands, whatever `{` the text around it holds
(`FormatProperties.FormatOutOfRange`, `Examples.BraceLiteralOutOfRange`).

## Model

| member | source | states |
|---|---|---|
| Align.Abs | lib/string-format.js:307-309 | the result is the value or its negation, and never negative |
| Align.Sign | lib/string-format.js:316-318 | -1 (`ALIGN_LEFT`) exactly for negative values, 1 (`ALIGN_RIGHT`) exactly for the others |
| Align.Repeat | lib/string-format.js:290-300 | what `repeatStr(str, times)` is meant to return: `str` concatenated `times` times, of length `times` times that of `str` |
| Align.RepeatStr | lib/string-format.js:290-300 | the doubling loop returns `str` repeated exactly `times` times |
| Align.RepeatAdd | lib/string-format.js:292-297 | blocks of `a` and `b` repetitions join into `a + b` repetitions, which the doubling relies on |
| Align.RepeatChar | lib/string-format.js:274-277 | the padding is `n` copies of the pad character |
| Align.AlignString | lib/string-format.js:270-282 | a string shorter than the width is padded with spaces to exactly the width, keeping its text after (left) or before (right) the pad; otherwise, or for a non-string, the value is returned unchanged |
| JsString.FirstIndex | lib/string-format.js:133 | `indexOf`: None exactly when the character is absent, otherwise its first position |
| JsString.FirstIndexAt | lib/string-format.js:133 | a position holding the character with none before it is what `indexOf` returns |
| JsString.Split | lib/string-format.js:142 | one more part than separators, no part holds the separator, and joining gives the text back |
| JsString.SplitOne | lib/string-format.js:142-147 | a text with one separator splits into the two texts around it |
| JsString.Find | lib/string-format.js:94 | the first occurrence of the pattern at or after the start, or None when there is none |
| JsString.Substitution | lib/string-format.js:94 | the replacement text `replace` inserts: `$$` gives `$`, `$&` the matched text, `` $` `` the text before it, `$'` the text after it, any other character is copied |
| JsString.SubstitutionPlain | lib/string-format.js:94 | a replacement without `$` is inserted as it is |
| JsString.Replace | lib/string-format.js:94 | `target.replace(item[MATCH], item.formatted)` with a string pattern: the text before the first occurrence, its substitution, the text after it; the string itself when the pattern does not occur |
| JsString.ReplaceFirst | lib/string-format.js:94 | `replace` cuts out the first occurrence only and puts the replacement there |
| JsString.ReplaceAbsent | lib/string-format.js:94 | `replace` of a pattern that does not occur changes nothing |
| Mask.Fill | lib/string-format.js:20-21 | the positional reading of a mask that the file's header comment gives for `0` and `#`: a text as long as the mask, each literal in place and the placeholders taking the digits in order |
| Mask.FillAt | lib/string-format.js:20-21 | the positional reading of a mask keeps each literal and gives the k-th placeholder the k-th digit |
| Mask.FillPlaceholdersOnly | lib/string-format.js:20-21 | a mask of placeholders only gives the digits back |
| Mask.ZeroRunLeftmost | lib/string-format.js:182-193 | the zero run is empty exactly without a `0`, and otherwise starts at the leftmost `0` |
| Mask.AppendZeros | lib/string-format.js:183-188 | the inner loop appends exactly `count` zeros |
| Mask.IntegerRender | lib/string-format.js:177-206 | what the right-to-left pass writes for the unread part of the mask: a `0` writes the pending zeros and its digit (or `0` past the digits), a `#` takes a digit or becomes pending, a literal is copied without moving the digit cursor, and unmet `#` positions never reached by a `0` are dropped |
| Mask.IntegerPart | lib/string-format.js:160-207 | `formatIntegerPart`: the value itself when the mask is no longer than its text, otherwise the string the pass writes for the whole mask from the last digit |
| Mask.IntegerStep | lib/string-format.js:177-202 | one turn of the right-to-left loop keeps the loop invariant, so the output so far plus the rendering of the unread mask is the final result |
| Mask.FormatIntegerPart | lib/string-format.js:160-207 | the method returns `IntegerPart`; a mask no longer than the number's text returns the number itself |
| Mask.IntegerRenderWhole | lib/string-format.js:177-202 | while digits last, the mask is read positionally against the last digits |
| Mask.IntegerRenderNoZero | lib/string-format.js:191-201 | with no digit left and no `0`, every `#` vanishes and only literals remain |
| Mask.IntegerRenderHashesOnly | lib/string-format.js:191-197 | with no digit left, a mask of `#` only yields nothing |
| Mask.IntegerRenderZeroRun | lib/string-format.js:182-197 | with no digit left, a mask of placeholders yields one `0` per position from its leftmost `0`, plus the pending ones |
| Mask.IntegerPartPositional | lib/string-format.js:160-207 | with no more placeholders than digits, literals stay in place and the placeholders take the last digits in order; leading digits are dropped |
| Mask.IntegerPartZeroPadding | lib/string-format.js:160-207 | a mask of `0`/`#` longer than the digits gives the digits in order, after one `0` per position from the leftmost `0` of the unmatched head; the length lies between the digit count and the mask length |
| Mask.IntegerPartUnmetHead | lib/string-format.js:160-207 | with more placeholders than digits, the digits fill the tail of the mask; a head without `0` leaves only its literals |
| Mask.IntegerRenderBackfill | lib/string-format.js:182-197 | with no digit left, the placeholders right of the last `0` are written as zeros next to it, before the literals between them and the placeholders, so `0-##` on 5 gives `00-5` |
| Mask.FractionalRender | lib/string-format.js:232-260 | what the left-to-right pass writes for the unread part of the mask: a `0` writes the pending zeros and its digit (or `0` past the digits), a `#` takes a digit or becomes pending, a literal other than `.` is copied, and `.` is dropped; neither moves the digit cursor |
| Mask.FractionalRenderLength | lib/string-format.js:232-259 | the output is never longer than the mask plus the pending count |
| Mask.FormatFractionalPart | lib/string-format.js:215-261 | the left-to-right loop returns `FractionalRender` of the digits, which is never longer than the mask |
| Mask.FractionalPositional | lib/string-format.js:215-261 | with no more placeholders than digits, the mask is read positionally against the first digits; surplus digits are truncated |
| Mask.FractionalRenderZeroFill | lib/string-format.js:232-259 | past the digits, a mask without `#` writes `0` for each `0`, copies literals and drops `.` |
| Mask.FractionalZeroFilled | lib/string-format.js:215-261 | digits fill the head of the mask holding as many placeholders, and a tail without `#` is zero-filled |
| Mask.MaskParts | lib/string-format.js:133-140 | the integer submask has no `.`; with a `.`, submask, `.` and fractional submask give the token back; without one, the fractional submask is empty |
| Mask.CustomFormatNumber | lib/string-format.js:125-153 | `customFormatNumber`: a text that splits into two parts at `.` renders both by their submasks, any other text goes whole to `formatIntegerPart` with the integer submask |
| Mask.CustomFormatNumberDecimal | lib/string-format.js:142-148 | a text with exactly one `.` has its integer part and fractional part rendered by their submasks and rejoined with `.` |
| Mask.CustomFormatNumberWhole | lib/string-format.js:147-151 | any other text goes whole through `formatIntegerPart` with the integer submask, and a short submask returns the value itself |
| Placeholder.DigitRunMaximal | lib/string-format.js:39 | `\d+` takes every digit of the run and stops at the first non-digit |
| Placeholder.FormatRunMaximal | lib/string-format.js:39 | `[\w\#\.,-\^]+` takes every character of the class and stops at the first outside it |
| Placeholder.AlignmentSound | lib/string-format.js:39 | what the optional alignment group and the rest accept is `-?\d+`, then the format group and brace, standing in the text |
| Placeholder.AlignmentComplete | lib/string-format.js:39 | a well-formed alignment, format and brace standing in the text are read exactly |
| Placeholder.FormatSound | lib/string-format.js:39 | what the optional format group and the brace accept is a non-empty run of format characters standing in the text |
| Placeholder.FormatComplete | lib/string-format.js:39 | a well-formed format group and brace standing in the text are read exactly |
| Placeholder.MatchAt | lib/string-format.js:39 | the pattern tried at one position matches only where a `{` stands |
| Placeholder.MatchAtSound | lib/string-format.js:39-48 | whatever the pattern matches at `p` is a well-formed placeholder whose text stands at `p` |
| Placeholder.MatchAtComplete | lib/string-format.js:39-48 | a well-formed placeholder whose text stands at `p` is what the pattern matches at `p` |
| Placeholder.Exec | lib/string-format.js:68 | `itemPattern.exec(target)` from `lastIndex`: the pattern tried at each position in turn, the first match winning |
| Placeholder.ExecLeftmost | lib/string-format.js:68 | `exec` from `lastIndex` finds the leftmost match at or after it, and nothing when there is none |
| Placeholder.ExecFirst | lib/string-format.js:68 | a match with none before it is what `exec` returns |
| Placeholder.ExecInside | lib/string-format.js:68 | the match `exec` returns is well-formed and its text stands at its position |
| Placeholder.Scan | lib/string-format.js:67-89 | the matches the `while` loop obtains, each search starting where the previous match ended; there are never more than the characters searched |
| Placeholder.ScanNext | lib/string-format.js:68-83 | the scan records the match `exec` returns and continues at its end (`lastIndex`) |
| Placeholder.ScanMatches | lib/string-format.js:67-89 | the recorded matches are in order, do not overlap, each is a match, and no match starts before, between or after them, so the scan finds every match |
| Placeholder.ScanNone | lib/string-format.js:68 | where the pattern matches nowhere, the scan is empty |
| Placeholder.ScanNoBrace | lib/string-format.js:68 | a text without `{` has no match |
| StringFormat.FormatValue | lib/string-format.js:105-120 | without a format token the value's text as a string; with one, a non-string result is the value itself |
| StringFormat.AlignmentOf | lib/string-format.js:80-81 | the signed width `abs` and `sign` read from the alignment group; an absent group acts as width 0, which never pads |
| StringFormat.Formatted | lib/string-format.js:78-82 | `result.formatted`: the argument through `formatValue` with the format group, then `alignString` with the group's width and direction |
| StringFormat.FormatItems | lib/string-format.js:76-82 | the `formatItems` array: one entry per recorded match, holding its text and its formatted argument |
| StringFormat.ItemsSnoc | lib/string-format.js:76 | recording one more match appends its groups |
| StringFormat.FormatItemsSnoc | lib/string-format.js:76-82 | the formatted entry of one more in-range placeholder is appended to `formatItems` |
| StringFormat.ScanStep | lib/string-format.js:68-83 | one turn of the `exec` loop records the next match of the scan and moves past it |
| StringFormat.ScanPass | lib/string-format.js:67-89 | the loop fails exactly when some scanned placeholder has no argument, and otherwise returns the `formatItems` of all scanned placeholders |
| StringFormat.ReplaceItems | lib/string-format.js:92-96 | the `forEach` pass: in order, each entry with a truthy value replaces the first occurrence of its text in the current string, and an entry with a falsy value is skipped |
| StringFormat.ReplacePass | lib/string-format.js:92-96 | the `forEach` pass returns the template after every truthy entry's replacement, in order |
| StringFormat.Format | lib/string-format.js:61-99 | what `formatString` returns or throws: the error when some scanned placeholder has no argument, otherwise the template after the replace pass over all scanned placeholders |
| StringFormat.FormatString | lib/string-format.js:61-99 | the call returns `Format`: the error when an index is out of range, otherwise the replaced template |
| FormatProperties.FormatNoPlaceholders | lib/string-format.js:61-99 | a template without `{` comes back unchanged, whatever the arguments |
| FormatProperties.FormatNoMatch | lib/string-format.js:61-99 | a template where the pattern matches nowhere comes back unchanged |
| FormatProperties.FormatItemsExtra | lib/string-format.js:69-82 | formatting looks only at the arguments the placeholders refer to |
| FormatProperties.FormatExtraArguments | lib/string-format.js:64-99 | unused extra arguments do not change a successful result |
| FormatProperties.FormattedUnaligned | lib/string-format.js:78-82 | without an alignment group the formatted value is not padded |
| FormatProperties.FormatValueWhole | lib/string-format.js:119-151 | a token without `.` on a text without `.` is `formatIntegerPart` of the value |
| FormatProperties.FormatValueDecimal | lib/string-format.js:119-148 | a token `int.frac` on a text `a.b` renders `a` and `b` by their submasks and rejoins them with `.` |
| FormatProperties.ExecAfterLiteral | lib/string-format.js:68 | after a piece without `{`, `exec` finds the placeholder that follows it |
| FormatProperties.ScanHead | lib/string-format.js:67-89 | a piece without `{` then a placeholder: the scan records that placeholder first and goes on after it |
| FormatProperties.ScanInterleave | lib/string-format.js:67-89 | the scan of literal pieces without `{` interleaved with well-formed placeholders finds exactly those placeholders, in order |
| FormatProperties.ScanSingle | lib/string-format.js:67-89 | the scan of `a {…} b` finds that one placeholder |
| FormatProperties.TextOpening | lib/string-format.js:39 | the text of a well-formed placeholder holds `{` at its start and nowhere else |
| FormatProperties.PrefixSame | lib/string-format.js:39 | two well-formed placeholders, the text of one a prefix of the other's, are the same placeholder |
| FormatProperties.ReplaceAfterKept | lib/string-format.js:94 | with every earlier `{` starting a kept placeholder text apart from the pattern, `replace` puts the value where the placeholder stands |
| FormatProperties.ReplaceInterleave | lib/string-format.js:92-96 | when each text is a placeholder text, each truthy value holds neither `{` nor `$`, and no text with a truthy value is a prefix of one with a falsy value or the other way round, the replace pass puts every truthy value in its own placeholder's place and leaves every placeholder with a falsy value where it stands |
| FormatProperties.FormatPositional | lib/string-format.js:61-99 | with pieces without `{`, indices in range and truthy values free of `{` and `$`, each placeholder with a truthy value is replaced in place by it and each one with a falsy value stays as it is |
| FormatProperties.ScanFinds | lib/string-format.js:68-75 | every well-formed placeholder standing in the template is recorded by the scan, wherever it stands and whatever `{` the text around it holds |
| FormatProperties.InsideNoMatch | lib/string-format.js:39 | a match ends at or before the start of any match after its own start: no match starts strictly inside the text of another |
| FormatProperties.FormatOutOfRange | lib/string-format.js:71-74 | a well-formed placeholder standing anywhere in the template, with no argument for its index, makes the whole call fail with no partial result |
| FormatProperties.FormatWithoutArguments | lib/string-format.js:71-74 | with no arguments, any template holding a placeholder fails |
| FormatProperties.ReplaceItemsFalsy | lib/string-format.js:93 | entries whose values are all falsy leave the template unchanged |
| Examples.OnePlaceholder | test/general.js:35-48 | `a {…} b` becomes `a`, the formatted value, `b` |
| Examples.OnlyPlaceholder | lib/string-format.js:61-99 | a template that is a single placeholder becomes its formatted value |
| Examples.FormattedPadded | lib/string-format.js:270-282 | without a format, a width of `w` pads the text after it for a negative alignment and before it for a positive one |
| Examples.AlignZeroExample | test/alignment.js:6-11 | `'{0,0}'` with `'world'` gives `'world'` |
| Examples.AlignLeftExample | test/alignment.js:13-19 | `'{0,-7}'` with `'world'` gives `'world  '` |
| Examples.AlignRightExample | test/alignment.js:21-27 | `'{0,7}'` with `'world'` gives `'  world'` |
| Examples.NoArgumentsExample | test/general.js:13-18 | `'hello, world!'` without arguments comes back unchanged |
| Examples.ExtraArgumentsExample | test/general.js:28-33 | `'hello, {0}!'` with three arguments does not fail and gives `'hello, Peter!'` |
| Examples.MissingArgumentExample | test/general.js:20-26 | `'hello, {0}!'` without arguments fails with `'index is out of bounds'` (the test expecting no failure is skipped) |
| Examples.BraceLiteralOutOfRange | lib/string-format.js:68-75 | `'{{5}'` with one argument fails: the `{` before the placeholder does not hide it from the scan |
| Examples.BraceJoinExample | lib/string-format.js:61-99 | `'{1{0}{1}'` with `'}'` and `'y'` gives `'y{1}'`: the literal `{1` and the value `}` form a `{1}` that `replace` finds before the real one |
| Examples.FalsyKeptExample | lib/string-format.js:61-99 | `'{0:0} and {1}'` with 0 and `'x'` gives `'{0:0} and x'`: the number 0 comes back from the mask and, being falsy, keeps its placeholder |
| Examples.MaskedExample | test/numbers.js:32-41 | `{0:mask}` renders its argument by the mask alone, as the masked rows 32-41 and 47-56 expect one placeholder at a time |
| Examples.TwoDigitsExample | test/numbers.js:32-36 | `'{0:00}'` with 1 gives `'01'` |
| Examples.LeadingZeroValue | test/numbers.js:37-41 | mask `0##000` renders 123 as `000123` |
| Examples.UnmetHashValue | test/numbers.js:37-41 | mask `#000` renders 456 as `456` |
| Examples.LiteralHeadValue | test/numbers.js:47-51 | mask `#-#-000` renders 123 as `--123` |
| Examples.BackfillValue | lib/string-format.js:177-206 | mask `0-##` renders 5 as `00-5` |
| Examples.BackfillExample | lib/string-format.js:61-99 | `'{0:0-##}'` with 5 gives `'00-5'` |
| Examples.DecimalValue | test/numbers.js:52-56 | mask `0.00` renders 123.56 as `123.56` |
| Examples.CaretShortMaskValue | test/numbers.js:42-46 | masks `^#` and `^#^` return 123 and 456 unchanged, because neither is longer than the value's text (the row expects `^123` and `^456^`) |
| Examples.StarTokenKept | test/numbers.js:42-46 | `{2:#^#*}` is no placeholder, because `*` lies outside the token class, and comes back as it is for any arguments (the row expects `78^9*`) |
| Examples.CaretDecimalValue | test/numbers.js:57-61 | mask `#^#.#-#---` renders 123.456 as `123.4-5---`: the integer part comes back through the shortcut (the row expects `12^3.4-5---`) |

## Left out

- `console.log` calls (lib/string-format.js:144-145, 218) write to the console and change nothing; they are not modelled.
- Installing `format` on `String.prototype` (lib/string-format.js:320-328) is not modelled. `StringFormat.FormatString` takes the template and the arguments directly.
- `toString` and number-to-text conversion are not modelled: a `Value` carries the text `toString` gives, and a number is given as its decimal text. The `Object.prototype.toString` fallback is folded into that text.
- A `Value` has one text. The source uses `value.toString()` without a format token (lib/string-format.js:109-114) and `value + ''` with one (lib/string-format.js:142, 161). These differ for an object whose `valueOf` disagrees with its `toString`; such objects are not modelled.
- `null` and `undefined` arguments are not modelled: `Value` has no such case. Without a format token, `formatValue` throws a `TypeError` on them (lib/string-format.js:110). With one, `customFormatNumber` works on the text `'null'` or `'undefined'` (lib/string-format.js:142, 161). A longer mask renders that text, so `'{0:00000}'` with `null` gives `'0null'`. A shorter mask returns the value itself (lib/string-format.js:171-173), and `alignString` then throws a `TypeError` reading its `length` (lib/string-format.js:271).
- Arrays, functions and other objects that have a `length` are not modelled: `Value` gives a `length` to strings only. When the mask returns such a value itself, `alignString` pads it like a string (lib/string-format.js:271-277). So `'{0,9:0}'` with `[12]` gives eight spaces followed by `12`, while a number, which has no `length`, is never padded.
- Text outside the Basic Multilingual Plane is not modelled: a Dafny `char` is a Unicode scalar value, while JavaScript's `.length` and `str[j]` count UTF-16 code units. Lengths and positions in the model count characters. So `'{0,3}'.format('😀')` pads with one space in the source (`'😀'.length` is 2, lib/string-format.js:271-277) and with two in the model. `'{0:00}'` with `'😀'` returns the value in the source (lib/string-format.js:171-173) and renders `'0😀'` in the model.
- Floating point is not modelled. Indices and widths are exact integers, while JavaScript loses precision beyond 2^53.
- The shared `lastIndex` of the regular expression and its reset in `finally` (lib/string-format.js:84-89) are modelled as a local search position. No state survives a call.
- Align.RepeatStr: the `>>=` and `&` of the source work on 32-bit integers, so counts of 2^31 or more behave differently there. The model uses unbounded counts.
- FormatProperties.FormatPositional: proved only for templates whose literal pieces hold no `{`, and only for truthy formatted values that hold neither `{` nor `$`; falsy values are covered, and their placeholders stay in place. A literal `{` can join a value into a later placeholder's text (`'{1{0}{1}'.format('}', 'y')` is `'y{1}'`, `Examples.BraceJoinExample`), and other truthy values can make `replace` rewrite an earlier value or expand a `$` pattern. `StringFormat.Format` models that behaviour, but no closed-form result is proved for it.
- Examples: only some rows of test/numbers.js are proved (one placeholder and one value at a time). The multi-placeholder rows 12-41 and 47-56 follow from `FormatProperties.FormatPositional`, but are not stated one by one.
- test/numbers.js rows 42-46 and 57-61 are not satisfied by the code, so the model does not produce them either. There are two reasons:
  - Masks such as `^#` on 123, `^#^` on 456, and `#^#` or `#-#` on a three-digit integer part are no longer than the value's text. The code then returns the value unchanged (lib/string-format.js:171-173); see `Examples.CaretShortMaskValue` and `Examples.CaretDecimalValue`.
  - `*` is outside the token class of the pattern (lib/string-format.js:39). So `{2:#^#*}`, `{3:0##-00-^*^-}` and `{1:0000.#*#*0}` are no placeholders and stay in the text (`Examples.StarTokenKept`). Row 42-46 therefore gives `'123 456 {2:#^#*} {3:0##-00-^*^-}'`.

  What those rows mean by `^` and `*` is not documented, so no corrected behaviour is modelled.
