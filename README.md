# Passenger ETL Lambda — a Dafny model

An AWS Lambda function reacts to an S3 "object created" notification. It
reads the CSV object the notification names as a passenger table indexed by
`PassengerId`. It derives five columns and writes the result as CSV, under the
same key, to a destination bucket.

The derived columns are:

- `CabinDeck`, `CabinNum` and `CabinSide`: the three `/`-separated parts of `Cabin`;
- `GroupId`: the integer before the `_` of the passenger id, stored as `int32`;
- `FamilyName`: the second space-separated token of `Name`.

The model covers:

- `transform(df)`: the imperative method `Transform.Transform` on a `Frame`
  class whose fields the method updates in place. It is proved equal to the
  pure specification `Transform.Transformed`, and the properties of the
  transform are proved about that specification.
- The sequencing of `lambda_handler`: the method `Handler.LambdaHandler`,
  proved equal to `Handler.HandlerSpec`. This includes the lookups in the
  event and `urllib.parse.unquote_plus` of the key. The decoding has UTF-8
  with replacement (`Utf8`) and percent-unescaping (`UrlQuoting`), with
  `quote_plus` as its proved inverse.

The pandas and Python behaviour the transform relies on is written out:

- `str.split` keeps empty fields (`PyStr.Split`).
- `.str.split(sep, expand=True)` is as wide as the row with the most parts, and
  pads shorter rows with missing values (`Transform.ExpandSplit`).
- Assigning a three-label list raises "Columns must be same length as key"
  unless the split is exactly three wide (`Frames.Frame.SetColumns`).
- `[1]` on a split narrower than two raises a `KeyError` (`Transform.AssignFamilyNames`).
- `int()` strips whitespace and accepts a sign and one to 4300 digits, leading zeros included
  (the default digit limit of `sys.set_int_max_str_digits`). It raises `ValueError` on any
  other character, on a literal without digits and on one with more than 4300 digits
  (`PyStr.ParseInt`, `PyStr.ParseIntOkIff`). Its whitespace is ASCII tab to
  carriage return and space, plus the non-ASCII characters `str.isspace` accepts; the ASCII
  separators U+001C to U+001F are not stripped (`PyStr.IsSpace`).
- `astype('int32')` reads each group with `int()`, converts it to a 64-bit C `long`
  (`OverflowError` beyond that range) and narrows it to `int32` modulo 2^32 without a
  range check, so a large group becomes a negative id (`Transform.GroupIdOf`).
- When a later line raises, the columns already assigned stay in the frame.
- Failures become `Err` values of one `Exceptions.Exception` type.

Files:

- `Wrappers.dfy`: `Result`, `Outcome` and the exception type.
- `PyStr.dfy`: `str.split` and `int()`.
- `Frames.dfy`: the table value and the in-place `Frame` class.
- `Transform.dfy`: `transform` and its properties.
- `Utf8.dfy` and `UrlQuoting.dfy`: `unquote_plus`.
- `Handler.dfy`: `lambda_handler` and its properties.

The "family, given" naming of a passenger could suggest that `Smith, John` has
the family name `Smith,`. The code takes the token after the first space, which
is `John`. The model follows the code (`TransformProperties.SplitCommaName`,
`TransformProperties.TransformedCells`).

## Model

| member | source | states |
|---|---|---|
| PyStr.Split | src/lambda_function.py:45-47 | `str.split` on one character: at least one part and no part holds the separator |
| PyStr.Join | src/lambda_function.py:45-47 | joining parts with a separator starts with the first part, and holds the separator when there are several parts |
| PyStr.JoinSplit | src/lambda_function.py:45-47 | joining the parts of a split with the separator gives back the text |
| PyStr.SplitJoin | src/lambda_function.py:45-47 | splitting separator-free parts joined by the separator gives back the parts |
| PyStr.SplitCount | src/lambda_function.py:45-47 | a split has one more part than the text has separators |
| PyStr.SplitSeparatorFree | src/lambda_function.py:46 | text without a separator is glued onto the first part of what follows it |
| PyStr.StripStart | src/lambda_function.py:46 | `int()`'s leading-whitespace strip: only `int()` whitespace is removed, and the rest starts with a character that is not |
| PyStr.StripEnd | src/lambda_function.py:46 | the trailing strip: only `int()` whitespace is removed, and the rest ends with a character that is not |
| PyStr.IsSpace | src/lambda_function.py:46 | the whitespace `int()` skips (ASCII tab to carriage return and space, and non-ASCII `str.isspace` characters) holds no digit and no sign |
| PyStr.ParseInt | src/lambda_function.py:46 | `int(literal)`: every failure is `ValueError` for that literal (which literals succeed: `PyStr.ParseIntOkIff`) |
| PyStr.FormatNat | src/lambda_function.py:46 | `str(n)` for a natural number is a nonempty digit string |
| PyStr.DigitsValue | src/lambda_function.py:46 | the value of a nonempty digit string that does not start with `0` is positive |
| PyStr.DigitsValueFormat | src/lambda_function.py:46 | the value of `str(n)`'s digits is `n` |
| PyStr.DigitsValueLeadingZeros | src/lambda_function.py:46 | leading zeros do not change a digit string's value |
| PyStr.StripUnspaced | src/lambda_function.py:46 | text with no whitespace at either end is left alone by stripping |
| PyStr.ParseSigned | src/lambda_function.py:46 | reading the stripped text: a failure is `ValueError` naming the whole literal, not the stripped text |
| PyStr.ParseSignedRejects | src/lambda_function.py:46 | a stripped text holding a character that is neither a digit nor a leading sign raises `ValueError` |
| PyStr.NonDigitFails | src/lambda_function.py:46 | `int()` raises `ValueError` on a literal holding any character that is not a digit, a sign or whitespace, wherever it stands |
| PyStr.FileSeparatorRejected | src/lambda_function.py:46 | `int("\x1c1")` raises: U+001C is not whitespace to `int()` |
| PyStr.ParseUnpadded | src/lambda_function.py:46 | an unpadded signed or unsigned literal of at most 4300 digits parses to its value |
| PyStr.ParseFormatRoundTrip | src/lambda_function.py:46 | `int(str(n)) == n` for every integer of at most 4300 digits |
| PyStr.ParseZeroPadded | src/lambda_function.py:46 | zero-padded digits, at most 4300 in all, parse to their value (`int("0001") == 1`) |
| PyStr.ParseIntOkIff | src/lambda_function.py:46 | `int()` succeeds exactly when the stripped text is an optional sign followed by one to 4300 ASCII digits |
| PyStr.NoDigitFails | src/lambda_function.py:46 | a literal without a digit (empty, blank, a lone sign) raises `ValueError` |
| PyStr.DigitLimitFails | src/lambda_function.py:46 | a stripped literal with more than 4300 characters after its sign raises `ValueError` |
| PyStr.DigitLimitExample | src/lambda_function.py:46 | `int("0" * 4300 + "7")` raises: the leading zeros count towards the limit |
| Frames.Table.With | src/lambda_function.py:46-47 | `df[name] = values`: the column gets the values, every other column is kept, an existing label keeps its place and a new one is appended |
| Frames.Table.WithAll | src/lambda_function.py:45 | assigning labels in turn keeps the table well formed and the rows unchanged |
| Frames.WithSame | src/lambda_function.py:45-47 | assigning a column the cells it holds changes nothing |
| Frames.WithAllStep | src/lambda_function.py:45 | assigning a list of labels is assigning the first, then the rest |
| Frames.WithAllEffect | src/lambda_function.py:45 | after assigning a list of labels: old labels keep their places, only listed labels are new, and other columns are untouched |
| Frames.WithAllStores | src/lambda_function.py:45 | when the labels are distinct, each ends up holding its own column of values |
| Frames.AssignsOnlyChain | src/lambda_function.py:45-47 | two rounds of assignments to a set of labels only assign those labels: rows, column order and other columns survive both |
| Frames.WithAllAppends | src/lambda_function.py:45 | distinct new labels are appended in list order |
| Frames.WithAllSame | src/lambda_function.py:45 | assigning labels the cells they already hold changes nothing |
| Frames.Frame.constructor | src/lambda_function.py:39 | a frame holding the table the CSV reader returns |
| Frames.Frame.SetColumn | src/lambda_function.py:46-47 | the frame's new value is the old one with the column assigned |
| Frames.Frame.SetColumns | src/lambda_function.py:45 | raises "Columns must be same length as key" and changes nothing when the widths differ, otherwise assigns every label |
| Transform.FieldCount | src/lambda_function.py:45-47 | a text cell gives one more field than it has separators; any other cell gives one missing field |
| Transform.SplitWidth | src/lambda_function.py:45 | the width of an expanded split bounds every row's field count and is attained by some row (0 for no rows) |
| Transform.ExpandSplit | src/lambda_function.py:45 | `.str.split(sep, expand=True)`: as many columns as the width, each one cell per row |
| Transform.Field | src/lambda_function.py:45-47 | a text field comes from a text cell and holds no separator; past a cell's field count the field is missing |
| Transform.ExpandSplitAt | src/lambda_function.py:45 | cell `i` of expanded column `k` is field `k` of row `i`, or missing |
| Transform.WrapInt32 | src/lambda_function.py:46 | narrowing to `int32` gives a value in range that differs from the input by a multiple of 2^32, and keeps values already in range |
| Transform.GroupIdOf | src/lambda_function.py:46 | a group id is always within `int32`; a failure is `ValueError` for a bad literal or `OverflowError` for a value beyond a C `long` |
| Transform.FirstField | src/lambda_function.py:46 | the text before the first separator is the first field |
| Transform.GroupIdOfParsed | src/lambda_function.py:46 | a label whose first field parses to a value gets that value narrowed to `int32`, or `OverflowError` beyond a C `long` |
| Transform.GroupIdOfPassengerId | src/lambda_function.py:46 | `<zeros><group>_<member>` with at most 4300 digits before the `_` gives the group itself when it fits `int32`, the group wrapped modulo 2^32 when it fits a C `long`, and `OverflowError` beyond |
| Transform.GroupIdOfEmptyGroup | src/lambda_function.py:46 | a label with nothing before its first `_` (`"_01"`) raises `ValueError` for the empty text |
| Transform.GroupIdOfTooLong | src/lambda_function.py:46 | a group written with more than 4300 digits raises `ValueError`, whatever its value, before any range check |
| Transform.GroupIdOfNonNumeric | src/lambda_function.py:46 | a label whose group holds a character `int()` rejects has no group id: `ValueError` for that group text |
| Transform.Convert | src/lambda_function.py:46 | a converted column has one cell per row |
| Transform.ConvertOk | src/lambda_function.py:46 | the column converts exactly when every row does, and then holds each row's value |
| Transform.ConvertFirstError | src/lambda_function.py:46 | a failed conversion reports the error of the first failing row |
| Transform.GroupIds | src/lambda_function.py:46 | the `GroupId` column has one cell per row |
| Transform.GroupIdsSpec | src/lambda_function.py:46 | `GroupId` exists exactly when every label converts; it then holds each label's group id, otherwise the error is the first failing label's |
| Transform.AssignCabinParts | src/lambda_function.py:45 | line 45 keeps the frame well formed and its rows |
| Transform.AssignGroupIds | src/lambda_function.py:46 | line 46 keeps the frame well formed and its rows |
| Transform.AssignFamilyNames | src/lambda_function.py:47 | line 47 keeps the frame well formed and its rows |
| Transform.Transformed | src/lambda_function.py:42-48 | the frame after `transform` is well formed and has the same rows |
| Transform.Transform | src/lambda_function.py:42-48 | `transform(df)` updates `df` in place to `Transformed` and returns `df`, or raises that step's error with the earlier columns assigned |
| TransformProperties.CabinPartsEffect | src/lambda_function.py:45 | line 45 succeeds exactly when `Cabin` exists and splits exactly three wide; it then writes the three parts and nothing else, otherwise it changes nothing |
| TransformProperties.GroupIdsEffect | src/lambda_function.py:46 | line 46 succeeds exactly when every label converts; it then writes each row's group id and nothing else, otherwise it changes nothing |
| TransformProperties.FamilyNamesEffect | src/lambda_function.py:47 | line 47 succeeds exactly when `Name` exists and splits at least two wide; it then writes the second column of the split and nothing else |
| TransformProperties.TransformKeepsRows | src/lambda_function.py:42-48 | returning or raising, the rows and column order are kept, only derived columns are added, and other columns are untouched |
| TransformProperties.WidthIs | src/lambda_function.py:45 | a split is exactly `n >= 2` wide iff no text cell has more than `n` parts and one has `n` |
| TransformProperties.WidthAtLeast | src/lambda_function.py:47 | a split is at least `n >= 2` wide iff some text cell has `n` parts or more |
| TransformProperties.TransformSucceedsIff | src/lambda_function.py:42-48 | `transform` returns iff: every cabin has at most three parts and one has three, every label's group parses within the range of a C `long`, and some name has two tokens |
| TransformProperties.TransformedCells | src/lambda_function.py:45-47 | on success each row holds its cabin's three parts (missing where absent), its label's group id, and its name's second token (missing for one token) |
| TransformProperties.CabinPartsAppend | src/lambda_function.py:45 | line 45 appends the three cabin labels to a frame without them |
| TransformProperties.TransformAppendsColumns | src/lambda_function.py:42-48 | a frame without the derived labels gets all five appended, in the order of lines 45-47 |
| TransformProperties.CabinPartsStable | src/lambda_function.py:45 | line 45 on a frame already holding its cabin parts changes nothing |
| TransformProperties.TransformIdempotent | src/lambda_function.py:42-48 | transforming the frame a transform left, returned or raised, gives the same frame and outcome |
| TransformProperties.TransformRepeatsSuccess | src/lambda_function.py:42-48 | after a successful transform, a second one rewrites the same cells and returns |
| TransformProperties.TransformRepeatsFailure | src/lambda_function.py:42-48 | after a transform that raised, a second one raises the same error and leaves the frame as it was |
| TransformProperties.TransformFailureState | src/lambda_function.py:42-48 | a failure at line 45 leaves the frame as it was; `FamilyName` is written only on success; a later failure keeps the cabin parts already assigned |
| TransformProperties.SplitCabinExample | src/lambda_function.py:45 | `"B/0/P"` splits at `/` into deck `B`, number `0` and side `P` |
| TransformProperties.SplitEmptyFieldExample | src/lambda_function.py:45 | `"a//b"` keeps the empty part between two slashes, and the expanded split holds it as empty text, not as a missing value |
| TransformProperties.SplitNameExample | src/lambda_function.py:47 | `"Maham Ofracculy"` splits at the space into two tokens, the second the family name |
| TransformProperties.SplitDoubleSpaceExample | src/lambda_function.py:47 | a double space is not collapsed: `"Solam  Susent"` gives an empty second token |
| TransformProperties.SplitCommaName | src/lambda_function.py:47 | `"Smith, John"` has the tokens `"Smith,"` and `"John"` |
| TransformProperties.GroupIdExample | src/lambda_function.py:46 | `"0001_01"` has group id 1 |
| TransformProperties.GroupIdDigitLimitExample | src/lambda_function.py:46 | 4300 zeros before the `1` of `0001_01` make line 46 raise instead of giving 1 |
| TransformProperties.EmptyGroupFails | src/lambda_function.py:46 | an id with nothing before the `_` makes line 46, and so `transform`, raise |
| TransformProperties.NonNumericGroupFails | src/lambda_function.py:46 | a passenger id whose group holds a character `int()` rejects makes line 46 raise, and with it `transform` |
| TransformProperties.WrapInt32Example | src/lambda_function.py:46 | narrowing is silent: 3000000000 becomes -1294967296 |
| TransformProperties.GroupIdWraps | src/lambda_function.py:46 | a group from 2^31 up to 2^32, written in at most 4300 digits, is stored as the negative id 2^32 below it, without an error |
| TransformProperties.WrapInt32Above | src/lambda_function.py:46 | values from 2^31 up to 2^32 narrow to the value 2^32 below them |
| TransformProperties.ExampleRowSucceeds | src/lambda_function.py:42-48 | an example row (passenger `0001_01`, cabin `B/0/P`, name `Maham Ofracculy`) transforms without error |
| TransformProperties.ExampleRowCabin | tests/test_lambda_function.py:25-29 | its cabin `B/0/P` gives deck `B`, number `"0"` as text (the test compares `CabinNum` as text) and side `P` |
| TransformProperties.ExampleRowGroupAndName | src/lambda_function.py:46-47 | its id `0001_01` gives group 1 and its name `Maham Ofracculy` gives `Ofracculy` |
| TransformProperties.TransformExampleRow | src/lambda_function.py:42-48 | the five derived columns of the example row, whole |
| Utf8.SequenceLength | src/lambda_function.py:82 | a UTF-8 lead byte announces at most four bytes, exactly one iff it is ASCII |
| Utf8.ValidPrefix | src/lambda_function.py:82 | the part of a sequence an error covers is nonempty, within the announced length, and made of acceptable bytes |
| Utf8.ScalarValue | src/lambda_function.py:82 | a well-formed sequence stands for a Unicode scalar value, never a surrogate |
| Utf8.DecodeStep | src/lambda_function.py:82 | one decoding step takes one to four bytes; ASCII is taken as it is; anything but U+FFFD comes from a well-formed sequence |
| Utf8.Decode | src/lambda_function.py:82 | `decode('utf-8', 'replace')` yields one character for every one to four bytes |
| Utf8.EncodeChar | src/lambda_function.py:82 | a character encodes to one to four bytes, one iff it is ASCII |
| Utf8.Encode | src/lambda_function.py:82 | an encoding has one to four bytes per character |
| Utf8.EncodeCharWellFormed | src/lambda_function.py:82 | a character's encoding is one well-formed sequence standing for that character |
| Utf8.DecodeStepEncodeChar | src/lambda_function.py:82 | decoding reads exactly the first character's bytes, whatever follows them |
| Utf8.DecodeEncode | src/lambda_function.py:82 | decoding undoes encoding for every string |
| Utf8.AsciiChars | src/lambda_function.py:82 | ASCII bytes read as characters, one each |
| Utf8.EncodeAscii | src/lambda_function.py:82 | an ASCII string encodes to its character codes |
| Utf8.EncodeAsciiChars | src/lambda_function.py:82 | ASCII bytes read as characters encode back to themselves |
| Utf8.DecodeAscii | src/lambda_function.py:82 | ASCII bytes decode to the characters with those codes |
| Utf8.DecodeTwoByteExample | src/lambda_function.py:82 | `C3 A9` decodes to U+00E9 |
| Utf8.DecodeTruncatedExample | src/lambda_function.py:82 | a lone `C3` decodes to U+FFFD |
| Utf8.DecodeMaximalSubpartExample | src/lambda_function.py:82 | `E2 82 41` decodes to U+FFFD then `A`: the error covers the valid prefix only |
| UrlQuoting.HexValue | src/lambda_function.py:82 | a hex digit of either case has a value below 16 |
| UrlQuoting.PercentDecode | src/lambda_function.py:82 | unescaping never lengthens, and bytes without `%` are returned as they are |
| UrlQuoting.EncodeWithoutPercent | src/lambda_function.py:82 | a key without `%` has no `%` byte in its UTF-8 encoding |
| UrlQuoting.UnquoteToBytes | src/lambda_function.py:82 | `unquote_to_bytes` gives no more bytes than the key's UTF-8 encoding, and exactly that encoding when the key holds no `%` |
| UrlQuoting.AsciiRunLength | src/lambda_function.py:82 | the ASCII run at the front of the key is maximal |
| UrlQuoting.UnquoteRuns | src/lambda_function.py:82 | decoding runs never lengthens the key |
| UrlQuoting.Unquote | src/lambda_function.py:82 | `unquote` never lengthens the key, and returns a key without `%` unchanged |
| UrlQuoting.ReplacePlus | src/lambda_function.py:82 | every `+` becomes a space and every other character is kept |
| UrlQuoting.UnquotePlus | src/lambda_function.py:82 | `unquote_plus` never lengthens the key |
| UrlQuoting.HexDigit | src/lambda_function.py:82 | the digit written for a value below 16 reads back as that value |
| UrlQuoting.QuoteByte | src/lambda_function.py:82 | an escaped byte is ASCII and holds no `+` |
| UrlQuoting.QuoteBytes | src/lambda_function.py:82 | an escaped byte string is ASCII and holds no `+` |
| UrlQuoting.QuotePlus | src/lambda_function.py:82 | `quote_plus` gives ASCII without spaces |
| UrlQuoting.PercentDecodeQuoteByte | src/lambda_function.py:82 | unescaping undoes one escaped byte, whatever follows it |
| UrlQuoting.PercentDecodeQuoteBytes | src/lambda_function.py:82 | `unquote_to_bytes` undoes `quote`'s escaping for every byte string |
| UrlQuoting.UnquoteRunsAscii | src/lambda_function.py:82 | an ASCII key is one run, decoded as a whole |
| UrlQuoting.UnquotePlusQuotePlus | src/lambda_function.py:82 | `unquote_plus(quote_plus(key)) == key` for every key |
| UrlQuoting.PercentDecodeKeep | src/lambda_function.py:82 | a byte other than `%` is kept as it is |
| UrlQuoting.PercentDecodeEscape | src/lambda_function.py:82 | `%` and two hex digits become the byte they spell |
| UrlQuoting.UnquoteToBytesExample | src/lambda_function.py:82 | `" %2B"` unescapes to the bytes space, `+` |
| UrlQuoting.UnquoteAsciiBytes | src/lambda_function.py:82 | when the unescaped bytes of an ASCII key are ASCII, they are the decoded key |
| UrlQuoting.UnquotePlusExample | src/lambda_function.py:82 | in `"+%2B"` the `+` becomes a space before the escape `%2B` is read |
| UrlQuoting.UnquoteSpaceEscape | src/lambda_function.py:82 | `unquote(" %2B")` is `" +"` |
| UrlQuoting.UnquotePlusSpacePlus | src/lambda_function.py:82 | `unquote_plus("+%2B")` is `" +"`: a literal plus in a key survives only as `%2B` |
| Handler.Member | src/lambda_function.py:80-82 | `value[key]` succeeds iff `value` is a dictionary with that key; otherwise `KeyError` on a dictionary and `TypeError` on anything else |
| Handler.First | src/lambda_function.py:80 | `value[0]` succeeds iff `value` is a nonempty list or string, and gives a list's first item |
| Handler.UnquotePlusValue | src/lambda_function.py:82 | decoding succeeds iff the key is a string, otherwise `AttributeError` |
| Handler.EventTarget | src/lambda_function.py:80-82 | finding the target needs a dictionary event with `Records`; a failure is `KeyError`, `IndexError`, `TypeError` or `AttributeError('replace')` (what it finds: `HandlerProperties.EventTargetIff`) |
| Handler.HandlerSpec | src/lambda_function.py:76-98 | the handler makes at most two store calls and returns only `True`, after making both |
| Handler.LambdaHandler | src/lambda_function.py:76-98 | the handler returns and calls the store exactly as `HandlerSpec` says |
| HandlerProperties.HandlerSucceedsIff | src/lambda_function.py:83-93 | returns `True` iff every step succeeds; it then read the named object and wrote its transformation under the same key to the destination |
| HandlerProperties.HandlerReraises | src/lambda_function.py:94-98 | a failure re-raises the first failing step's exception unchanged, after exactly the calls made before it |
| HandlerProperties.LoadFollowsExtract | src/lambda_function.py:85-91 | at most one read and one write; the read comes first, and the write carries the transformation of what was read, under the key it was read from |
| HandlerProperties.FirstCallExtracts | src/lambda_function.py:80-85 | a handler that calls the store at all first reads the object the event names |
| HandlerProperties.SecondCallLoads | src/lambda_function.py:85-91 | a second store call means the read and the transform succeeded, and it writes the transformed table under the key that was read |
| HandlerProperties.EventTargetIff | src/lambda_function.py:80-82 | the target is found exactly when `event['Records'][0]['s3']` names a bucket and a string key, whatever other fields it holds; it is that bucket name and the key decoded with `unquote_plus` |
| HandlerProperties.NotificationTarget | src/lambda_function.py:80-82 | for a notification whose key is `quote_plus(key)`, the handler targets the named bucket and `key` itself, whatever records follow |
| HandlerProperties.OnlyFirstRecord | src/lambda_function.py:80 | for any event, cutting `Records` down to its first entry changes neither the outcome nor the calls |
| HandlerProperties.MissingRecords | src/lambda_function.py:80 | an event without `Records` raises `KeyError('Records')` before any call |
| HandlerProperties.EmptyRecords | src/lambda_function.py:80 | any event whose `Records` is an empty list raises `IndexError` before any call |
| HandlerProperties.KeyNotAString | src/lambda_function.py:82 | any event whose first record names a bucket and a key that is not a string raises `AttributeError` before any call |

## Left out

- `extract` (lines 33-39) and `load_s3` (lines 51-57) talk to S3 and parse or write CSV. They are the function parameters `fetch` and `upload` of `LambdaHandler`. The model does not describe CSV parsing, dtype inference or the CSV bytes written.
- `load_dynamodb` (lines 61-72) is not called by the handler. The `DESTINATION_TABLE` setting it reads (line 25, which reads the `DESTINATION_BUCKET` variable) is not part of this model.
- The destination bucket comes from the environment (line 24, default `sst-output`). It is the `destination` parameter of `LambdaHandler`.
- The `timer` context manager (lines 14-21), `print` output and the unused `context` argument have no effect on results and are not modelled.
- Cells are missing, text, integers or other opaque values. Floating point and dtype-driven behaviour are not modelled. A `Cabin` or `Name` column with no text at all (which makes pandas refuse `.str`) is treated like a column of missing values.
- Row labels are text. A missing passenger id is not modelled.
- TransformProperties.GroupIdsEffect / Transform.AssignGroupIds: on a frame without rows pandas raises `TypeError` at line 46 (building the split of an empty index), where the model succeeds. `transform` never reaches line 46 then, because line 45 already raises for a split of width 0.
- PyStr.ParseInt / PyStr.ParseSigned / Transform.GroupIdOf: a literal past the 4300-digit limit raises `ValueError` as in Python, but the model reports it as `InvalidIntLiteral`, the invalid-literal error, rather than with Python's digit-limit message. The limit is Python's default; a program that changes it with `sys.set_int_max_str_digits` is not modelled. `str(n)` has the same limit, which `PyStr.FormatInt` does not model; it is used only in lemmas.
- PyStr.ParseInt: digits are ASCII only, and Python's `_` digit separators are not modelled. Its precondition excludes `_`, which always holds for text taken before the first `_`.
- Transform.GroupIdOf: the C `long` the cast goes through is taken as 64 bits wide. Where it is 32 bits wide, a group beyond `int32` raises `OverflowError` instead of wrapping; Transform.GroupIdOfPassengerId and TransformProperties.TransformSucceedsIff state the 64-bit behaviour only.
- Handler.First: `[0]` on a dictionary raises `KeyError` with the key reported as the text `"0"` rather than the integer 0.
- Event values: JSON numbers keep their text. Strings are Unicode scalar values, so lone surrogates, which Python strings can hold, are not modelled.
- Transform.Transform: the frame is one object, and nothing else holds a reference to it. Aliasing between frames is not modelled.
