# Preprocessing helpers in Dafny: a coordinate-string parser and a coronary-artery name abbreviator

This project models the two helpers in `src/data/preprocess/lib/utils.py`,
a module of utility functions for preprocessing (line 1):

- `string_to_int_tuple` reads a point written as `"( 10012.45, 20032.9)"`
  into integers. It strips `(` and `)` from both ends, splits at commas,
  and applies `int(float(segment))` to each segment in a loop. The result
  comes back as a tuple in segment order.
- `artery_loc_to_abbr` maps the four full coronary-artery names to `LAD`,
  `RCA`, `LCX` and `LCA`. Every other string gives `None`.

The model has four modules:

- `Wrappers` holds `Option` and `Result`.
- `PyStr` models Python's `str.strip(chars)` and `str.split(sep)` for a
  one-character separator, with `join` and `count` to state what `split`
  returns.
- `PyFloat` models `int(float(x))` on a string:
  - the literal grammar `float()` accepts: surrounding whitespace, an
    optional sign, digitparts with single underscores, an optional point
    and fraction, an optional exponent, and `inf`/`infinity`/`nan` in any
    case;
  - the exact value of an accepted literal;
  - `int()`'s truncation toward zero, with OverflowError on an infinity
    and ValueError on a NaN or a non-literal.
- `Utils` holds the two helpers:
  - `IntTuple` is the specification of `string_to_int_tuple`. When
    `int(float(...))` raises on a segment, it returns `Err` with the
    failing segment's index and the exception.
  - `StringToIntTuple` is the loop of lines 18-21, proved equal to
    `IntTuple`.
  - `ArteryLocToAbbr` is the lookup.

Two facts about the code are easy to miss:

- Line 16 strips only `(` and `)`. Whitespace in front of the opening
  parenthesis survives, so `" (1, 2)"` fails (`SpaceBeforeParen`).
  Whitespace around a number inside a segment is tolerated, because
  `float()` strips it.
- The docstring promises a list, but line 23 returns a tuple. The model
  returns the values as a sequence, in order.

## Model

| member | source | states |
|---|---|---|
| PyStr.LeadingRun | src/data/preprocess/lib/utils.py:16 | the run `strip` removes at the front: only characters of the set, and the next character is not one |
| PyStr.TrailingRun | src/data/preprocess/lib/utils.py:16 | the run `strip` removes at the back: only characters of the set, and the character before it is not one |
| PyStr.StripCharsShape | src/data/preprocess/lib/utils.py:16 | `strip("()")` leaves `s` minus a prefix and a suffix made only of parentheses, and the result neither starts nor ends with one |
| PyStr.StripCharsUnique | src/data/preprocess/lib/utils.py:16 | for any split of `s` into parentheses, a trimmed middle and parentheses, `strip("()")` is exactly that middle, so nothing else is ever removed |
| PyStr.Split | src/data/preprocess/lib/utils.py:17 | `split(",")` gives one segment more than there are commas, no segment holds a comma, and joining them with commas gives the input back |
| PyStr.SplitJoin | src/data/preprocess/lib/utils.py:17 | `split` inverts `join` on comma-free segments, so the segments are unique |
| PyStr.SplitTrailingSeparator | src/data/preprocess/lib/utils.py:17 | a comma at the end leaves an empty last segment |
| PyFloat.DecimalValueAppend | src/data/preprocess/lib/utils.py:21 | digits appended after others shift them by one decimal place each, which fixes the value of a digit string |
| PyFloat.ToInt | src/data/preprocess/lib/utils.py:21 | `int()` of a float succeeds exactly on finite values, raises OverflowError on an infinity and ValueError on a NaN |
| PyFloat.ToIntTowardZero | src/data/preprocess/lib/utils.py:21 | `int()` of a finite literal is its exact value truncated toward zero: between the value and zero, less than one apart |
| PyFloat.IntOfFloatTowardZero | src/data/preprocess/lib/utils.py:21 | a success of `int(float(s))` comes from a finite literal and is its value truncated toward zero |
| PyFloat.IntOfSpecial | src/data/preprocess/lib/utils.py:21 | `inf` and `infinity` in any case, signed or not and surrounded by whitespace, raise OverflowError; `nan` raises ValueError |
| PyFloat.IntOfRendering | src/data/preprocess/lib/utils.py:21 | `str(n)`, optionally followed by a point and any fraction digits and surrounded by whitespace, converts back to `n`, also for negative `n` (so "-3.7" gives -3 and " 10012.9" gives 10012) |
| PyFloat.AcceptedAlphabet | src/data/preprocess/lib/utils.py:21 | every character of a string `float()` accepts is whitespace, a digit, `_`, `.`, `e`, a sign or a letter |
| PyFloat.DigitPartChars | src/data/preprocess/lib/utils.py:21 | a digitpart of the float grammar holds digits and underscores only |
| PyFloat.ShowNat | src/data/preprocess/lib/utils.py:21 | `str(n)` is the canonical decimal rendering: its digits denote `n` again, and it has no leading zero unless it is "0" |
| PyStr.StripChars | src/data/preprocess/lib/utils.py:16 | `s.strip(chars)`; it has no ensures of its own, and its behaviour is stated by StripCharsShape and StripCharsUnique |
| PyFloat.ParseFloat | src/data/preprocess/lib/utils.py:21 | the parse of `float()`: whitespace stripped, then a signed literal or nothing; it has no ensures of its own, and its behaviour is stated by AcceptedAlphabet, IntOfRendering, IntOfSpecial and IntOfFloatTowardZero |
| PyFloat.IntOfFloat | src/data/preprocess/lib/utils.py:21 | `int(float(string_num))`; it has no ensures of its own, and its behaviour is stated by IntOfFloatTowardZero, IntOfRendering, IntOfSpecial, Utils.BlankNotFloat and Utils.NotALiteral |
| Utils.Conversions | src/data/preprocess/lib/utils.py:18-21 | the conversion of every segment, in order: one per segment, and ConversionAt and ConversionsSpec state that entry `i` is the conversion of segment `i` |
| Utils.Collect | src/data/preprocess/lib/utils.py:18-21 | the appends of the loop, stopping at the first exception; it has no ensures of its own, and its behaviour is stated by CollectSpec |
| Utils.IntTuple | src/data/preprocess/lib/utils.py:4-23 | the specification of `string_to_int_tuple`; it has no ensures of its own, and its behaviour is stated by IntTupleOk, IntTupleValues, IntTupleError, IntTupleTruncates and RoundTrip, and StringToIntTuple is proved equal to it |
| Utils.Segments | src/data/preprocess/lib/utils.py:16-17 | the segments are as many as the commas of the stripped input plus one, hold no comma, and join back into the stripped input |
| Utils.ConversionAt | src/data/preprocess/lib/utils.py:20-21 | entry `i` of the conversions is `int(float(...))` of segment `i`, proved by induction on `i` |
| Utils.ConversionsSpec | src/data/preprocess/lib/utils.py:20-21 | one conversion per segment, the one at index `i` being `int(float(...))` of segment `i` |
| Utils.CollectSpec | src/data/preprocess/lib/utils.py:18-21 | the collected values are the conversions' values in order; a failure names the first failed conversion and its exception |
| Utils.IntTupleOk | src/data/preprocess/lib/utils.py:16-23 | `string_to_int_tuple` succeeds if and only if `int(float(...))` succeeds on every segment |
| Utils.IntTupleValues | src/data/preprocess/lib/utils.py:16-23 | on success the tuple has one value per segment, so commas plus one, and value `i` is the conversion of segment `i` |
| Utils.IntTupleError | src/data/preprocess/lib/utils.py:18-21 | on failure the error names a segment whose conversion raises that exception, and every earlier segment converts |
| Utils.ConvertSegment | src/data/preprocess/lib/utils.py:21 | one loop step converts segment `i` exactly as the specification does |
| Utils.StringToIntTuple | src/data/preprocess/lib/utils.py:16-23 | the strip, split and append loop returns exactly `IntTuple(s)`, including the index and kind of the first failure |
| Utils.IntTupleTruncates | src/data/preprocess/lib/utils.py:21 | each value of a successful parse is its segment's exact decimal value truncated toward zero, not rounded |
| Utils.RoundTrip | src/data/preprocess/lib/utils.py:6-23 | coordinates written as `str(n)` with optional fraction digits and whitespace, joined by commas and wrapped in any runs of parentheses, parse back to exactly those integers in order (the documented "( 1xxxx.xxxx, 1xxxx.xxxx)" format) |
| Utils.WrittenSegments | src/data/preprocess/lib/utils.py:16-17 | stripping and splitting such a written tuple gives back the written coordinates |
| Utils.FailingSegment | src/data/preprocess/lib/utils.py:20-21 | one segment that does not convert makes the whole parse fail, at that segment or an earlier one |
| Utils.BlankNotFloat | src/data/preprocess/lib/utils.py:21 | an empty or whitespace-only segment raises ValueError |
| Utils.OnlyParens | src/data/preprocess/lib/utils.py:16-21 | input made of parentheses only, such as "()", fails with ValueError at segment 0 |
| Utils.TrailingComma | src/data/preprocess/lib/utils.py:17-21 | a comma at the end of the stripped input, as in "(1,2,)", makes the parse fail |
| Utils.ParenInside | src/data/preprocess/lib/utils.py:16-21 | a parenthesis left inside the stripped input lies in a segment that raises ValueError, so the parse fails |
| Utils.SpaceBeforeParen | src/data/preprocess/lib/utils.py:16-21 | input starting with a space and then "(", such as " (1, 2)", fails |
| Utils.StripKeepsFront | src/data/preprocess/lib/utils.py:16 | when the input does not start with a parenthesis, `strip("()")` keeps a non-empty prefix of it |
| Utils.NotALiteral | src/data/preprocess/lib/utils.py:21 | a segment holding a parenthesis raises ValueError |
| Utils.ArteryLocToAbbr | src/data/preprocess/lib/utils.py:39-54 | the result is present exactly for the four listed names, each mapped to its own code, and every code has 3 characters; all other strings give None |
| Utils.NamesAreKeys | src/data/preprocess/lib/utils.py:39-52 | the membership list and the dictionary keys are the same four names, so the lookup on line 54 never misses |
| Utils.AbbreviationInjective | src/data/preprocess/lib/utils.py:47-54 | two names with the same abbreviation are the same name |
| Utils.FourCodes | src/data/preprocess/lib/utils.py:47-52 | the dictionary's values are the four distinct codes LAD, RCA, LCX and LCA |

## Left out

- PyFloat.ToInt: the value is the exact decimal value of the literal, not the nearest IEEE-754 double, so cases where `float()` rounds before `int()` truncates are not modelled. For example "0.99999999999999999" gives 1 in Python and 0 here. Values beyond the double range (about 1.8e308), however written, are finite here: for "1" followed by 400 zeros, or "1e400", Python raises OverflowError, while the model returns the exact integer. So PyFloat.IntOfRendering, Utils.RoundTrip and Utils.IntTupleTruncates hold for this exact-decimal model, not for doubles: in Python `str(2**53 + 1)` reads back as `2**53`, and a fraction of seventeen 9s rounds up to the next integer.
- PyFloat.IsDigit: only the ASCII digits `0`-`9` are digits. `float()` also accepts other Unicode decimal digits, which are not modelled.
- Utils.StringToIntTuple returns a `Result`: the exception `int(float(...))` raises becomes an `Err` carrying the segment index and the exception kind. The text of the exception message is not modelled.
- `src/models/train_model.py` is not part of this model. It covers Keras model building, device detection, filesystem writes and interactive prompts.
- `src/models/lib/loss.py` is not part of this model. It is floating-point tensor arithmetic.
