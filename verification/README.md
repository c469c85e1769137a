# RESP codec and frame reader of a small Redis command-line client

This project models, in Dafny, the core of a Python Redis client:

- the RESP version 2 codec of `resp.py`:
  - `serialize` turns lists, strings and `None` into arrays, bulk strings and the null bulk string;
  - `deserialize` and its inner position-passing `parse(index)` read one reply of any of the five types `+ - : $ *`;
- `read_full_response` of `ccredis_cli.py`, which appends socket chunks to a buffer until the buffer decodes;
- the syntax hints of `ccredis_cli.py`:
  - `load_redis_commands` builds a hint string for every command of the command table;
  - `get_hint` looks up the hint for the first word the user has typed.

The model uses one Dafny module per concern:

- `Optional` holds the `Option` datatype.
- `Decimal` models Python's `str(int)` and a plain-grammar `int()`.
- `Resp` holds the value type, the failure kinds, the encoder and the decoder.
- `RespProofs` holds what the decoder makes of the encoder's output, and the decoder's edge cases.
- `RespExamples` holds the concrete encodings and decodings of `test_rediscli.py`.
- `Text` holds the concatenation of chunks.
- `Reader` holds the frame reader.
- `Hints` holds hint construction and lookup.

Both codec directions work on decoded text (`string`). Every length is a character count, as `len()` of a Python `str` is. A decoded reply is a `Value`:

- `Str` is a simple or bulk string.
- `Err` is the `{"error": ...}` dictionary of an error reply.
- `Int` is an integer reply.
- `Null` is both `$-1` and `*-1`.
- `Arr` is a list.

A failure is one of three kinds:

- `RespErr` is every `raise RESPError`.
- `IntParseErr` is the `ValueError` of `int()`. It is not a `RESPError`, so it escapes the reader loop.
- `Unmodelled` marks the one input class the model does not follow: a bulk length below -1 that moves the next position back onto the tag or before it (see "Left out").

The decoder's quirks are kept as the code has them:

- The two characters after a bulk payload must be present, but they are never compared with CR LF.
- An array count below -1 gives an empty list.
- `$0` is the empty string, not `None`.
- Every bulk length below -1 passes the length check, because the end it checks, the end of the header plus the length plus 2, lies at or before the end of the header. The payload is then Python's slice whose end lies before its start. It is empty, unless that end is negative and counts back from the end of the data. While the next position stays after the tag, that can happen only at the start of the data. The next position is the end of the header plus the length plus 2, and the model follows Python as long as that position stays after the `$` tag. With the length written without leading zeros, those are the lengths -2 to -6, and the slice end is negative only for `$-6` at the start. `int()` accepts leading zeros, and a longer header moves the boundary: `$-007\r\n` reads as `""`, and `$-07\r\nabcd` reads as `"abc"`.

The frame reader's socket is a sequence of already-decoded chunks. An empty chunk, or the end of the sequence, is end-of-stream. The command table is an in-memory sequence of commands, in the order of the JSON object.

## Model

| member | source | states |
|---|---|---|
| Decimal.NatToString | resp.py:6 | `str(n)` of a count or length is non-empty, all digits, with no leading zero, and reads back as `n` |
| Decimal.ParseInt | resp.py:50 | `int()` succeeds exactly on an optional minus sign followed by at least one digit, and text without a sign gives a non-negative number |
| Decimal.IntToString | resp.py:6 | `str(n)` of any integer is text `int()` accepts, and starts with a minus sign exactly when `n` is negative |
| Decimal.IntRoundTrip | resp.py:62 | reading back the decimal text written for any integer gives that integer |
| Resp.Serialize | resp.py:4-15 | the only failure is `RESPError`; a success is at least four characters and starts with `$` or `*` |
| Resp.SerializeItems | resp.py:7-8 | the only failure is `RESPError`; the items' encodings are empty exactly when there are no items |
| Resp.Find | resp.py:29 | `find("\r\n", from)` gives the first CR LF at or after `from`, and gives none when no CR LF lies at or after `from` |
| Resp.ReadHeader | resp.py:47-51 | a header that reads ends in a CR LF at least three characters after the tag; a header never fails as `Unmodelled` |
| Resp.ParseLine | resp.py:28-44 | a line that reads ends within the data, at least three characters after its tag; a line never fails as `Unmodelled` |
| Resp.ParseBulk | resp.py:46-56 | a bulk string that reads ends within the data, after its tag |
| Resp.Parse | resp.py:21-75 | a value that reads starts with one of the five tags and ends within the data, after its start |
| Resp.ParseArray | resp.py:58-72 | an array that reads ends within the data, at least three characters after its tag |
| Resp.ParseItems | resp.py:66-72 | a successful element loop reads exactly `count` values and ends within the data, after its start when `count > 0` |
| Resp.Deserialize | resp.py:17-19 | empty input raises `RESPError`; a reply that decodes starts with one of the five tags |
| RespProofs.HeaderShape | resp.py:11 | a header is the tag, then the number's digits or minus sign with no CR or LF among them, then CR LF |
| RespProofs.HeaderRead | resp.py:59-63 | a complete header is read back as its own number, with the position just after its CR LF |
| RespProofs.HeaderCut | resp.py:47-49 | a header cut short at the end of the data has no CR LF, so a bulk string or array there raises `RESPError` |
| RespProofs.SerializeAccepts | resp.py:4-15 | `serialize` succeeds exactly on strings, `None`, and lists whose items all can be sent |
| RespProofs.SerializeItemsAccepts | resp.py:7-8 | a list's items encode exactly when every one of them can be sent |
| RespProofs.SerializeRejects | resp.py:14-15 | an error dictionary or an integer raises `RESPError` |
| RespProofs.StrEncodingRead | resp.py:46-56 | a string's encoding, wherever it sits in the data, reads back as the string and ends just after the encoding |
| RespProofs.NullEncodingRead | resp.py:52-53 | the encoding of `None` reads back as `None` |
| RespProofs.ParseEncoding | resp.py:46-72 | the encoding of any sendable value, wherever it sits in the data, reads back as that value and ends exactly where the encoding ends |
| RespProofs.ArrayEncodingRead | resp.py:58-72 | a list's encoding reads back as the list and ends where the encoding ends |
| RespProofs.ParseItemsEncoding | resp.py:66-72 | the concatenated encodings of items are read back by the element loop as those items, ending where the encodings end |
| RespProofs.TrailingDataIgnored | resp.py:77-78 | `parse(0)` on an encoding followed by any data stops at the encoding's end, and `deserialize` returns the encoded value |
| RespProofs.RoundTrip | resp.py:4-78 | `deserialize(serialize(v)) == v` for every value built from lists, strings and `None`, strings holding CR LF included |
| RespProofs.BulkCut | resp.py:54-55 | a bulk string cut short raises `RESPError` |
| RespProofs.ArrayCut | resp.py:66-69 | an array's encoding cut short raises `RESPError` |
| RespProofs.ParseCut | resp.py:21-72 | any encoding cut short at the end of the data raises `RESPError` |
| RespProofs.ParseItemsCut | resp.py:66-72 | the items' encodings cut short at the end of the data make the element loop raise `RESPError` |
| RespProofs.PrefixRejected | resp.py:17-72 | every proper prefix of an encoding, the empty one included, raises `RESPError`: never a wrong value and never `int()`'s error |
| RespProofs.LineRead | resp.py:28-44 | a `+`, `-` or `:` payload is the text between the tag and the first CR LF after it, and reading resumes after that CR LF; `+` gives a string, `-` an error dictionary, `:` an integer or `int()`'s error |
| RespProofs.LineForm | resp.py:28-38 | a `+` line whose text holds no CR decodes to that text as a string; a `-` line decodes to it as an error dictionary |
| RespProofs.LineUnterminated | resp.py:29-43 | a `+`, `-` or `:` line with no CR LF after its tag raises `RESPError` |
| RespProofs.UnknownTagRejected | resp.py:74-75 | a first character other than the five tags raises `RESPError`, whatever follows |
| RespProofs.BulkTerminatorUnchecked | resp.py:54-56 | any two characters after a bulk payload end it; they are never compared with CR LF |
| RespProofs.MinusOneIsNull | resp.py:46-65 | length -1 and count -1 both read as `None`, with the position just after the header |
| RespProofs.NegativeCountIsEmpty | resp.py:62-72 | an array count below -1 reads as an empty list |
| RespProofs.NegativeLengthEmpty | resp.py:50-56 | a bulk length below -1 whose slice end is not negative, and whose next position stays after the tag, reads as the empty string; the next position is the end of the header plus the length plus 2, that is `|length| - 2` characters before the end of the header |
| RespProofs.NegativeLengthWraps | resp.py:50-56 | a bulk length below -1 whose slice end is negative reads, as Python's slice counting from the end does, from after the header up to the last character but one; the position stays after the tag only at the start of the data |
| RespProofs.NegativeLengthUnmodelled | resp.py:50-56 | a bulk length below -1 that moves the next position back onto the tag or before it is the one input the model does not follow |
| RespExamples.StringListForms | test_rediscli.py:6-10 | lists of one, two and three strings encode as the count header and the bulk strings in order |
| RespExamples.SerializePing | test_rediscli.py:7 | `["ping"]` encodes as `*1\r\n$4\r\nping\r\n` |
| RespExamples.SerializeEcho | test_rediscli.py:8 | `["echo", "hello world"]` encodes with an 11-character bulk string |
| RespExamples.SerializeGet | test_rediscli.py:9 | `["get", "key"]` encodes element by element |
| RespExamples.SerializeSet | test_rediscli.py:10 | `["set", "key", "value"]` encodes element by element |
| RespExamples.SerializeScalars | test_rediscli.py:12-14 | `""` encodes as `$0\r\n\r\n`, `None` as `$-1\r\n`, and an integer raises `RESPError` |
| RespExamples.DeserializeOk | test_rediscli.py:17 | `+OK\r\n` decodes to `"OK"` |
| RespExamples.DeserializeHelloWorld | test_rediscli.py:18 | a simple string may hold a space |
| RespExamples.DeserializeError | test_rediscli.py:21 | `-Error message\r\n` decodes to the error dictionary |
| RespExamples.DeserializeInteger | test_rediscli.py:24 | `:1000\r\n` decodes to 1000 |
| RespExamples.EncodingReadsBack | resp.py:77-78 | a reply that is an encoding decodes to what it encodes |
| RespExamples.DeserializeEmptyAndNull | test_rediscli.py:27-28 | `$0\r\n\r\n` decodes to `""` and `$-1\r\n` to `None` |
| RespExamples.DeserializeBulk | test_rediscli.py:29 | `$5\r\nvalue\r\n` decodes to `"value"` |
| RespExamples.DeserializeArray | test_rediscli.py:32 | `*1\r\n$4\r\nping\r\n` decodes to `["ping"]` |
| RespExamples.DeserializeEchoArray | test_rediscli.py:33 | the encoding of `["echo", "hello world"]` decodes back to that list |
| RespExamples.DeserializeNullArray | test_rediscli.py:36 | `*-1\r\n` decodes to `None` |
| RespExamples.DeserializeMinusTwo | resp.py:50-56 | `$-2\r\n` passes the length check and decodes to `""` |
| RespExamples.DeserializeMinusSix | resp.py:50-56 | `$-6\r\nabcd` decodes to `"abc"`: the slice end -1 counts from the end of the data |
| RespExamples.DeserializeMinusSeven | resp.py:50-56 | `$-7\r\n` moves the position back onto the tag, which the model reports as `Unmodelled` |
| RespExamples.DeserializePaddedMinusSeven | resp.py:50-56 | `$-007\r\n`, -7 with leading zeros, keeps the next position after the tag and decodes to `""` |
| RespExamples.DeserializePaddedWrap | resp.py:50-56 | `$-07\r\nabcd` has the slice end -1, which counts from the end of the data, and decodes to `"abc"` |
| RespExamples.DeserializeUnknownTag | test_rediscli.py:40 | `~NotValid\r\n` raises `RESPError` |
| RespExamples.DeserializeMissingElement | test_rediscli.py:43 | an array announcing two elements but holding one raises `RESPError` |
| Text.Concat | ccredis_cli.py:102 | the buffer of appended chunks is empty exactly when every chunk is empty |
| Reader.StreamEnd | ccredis_cli.py:99-101 | the stream ends at the first empty chunk, or after the last chunk; every chunk before that point is non-empty |
| Reader.ReadFrom | ccredis_cli.py:98-107 | the loop returns the in-order concatenation of the chunks it pulled; every earlier buffer raised `RESPError`; it stops early only on a buffer that decodes; an error other than `RESPError` escapes |
| Reader.AppendChunk | ccredis_cli.py:102 | appending chunk `k` to the buffer of the chunks before it gives the buffer of chunks up to `k` |
| Reader.ReadFullResponse | ccredis_cli.py:96-108 | the returned data is exactly the concatenation of the chunks consumed, no chunk past end-of-stream is consumed, it stops at the first buffer that decodes, and at end-of-stream it returns without a decode check |
| Reader.StreamEndAtLeast | ccredis_cli.py:99-101 | the stream does not end within a run of non-empty chunks |
| Reader.ReadsToEndOfStream | ccredis_cli.py:103-107 | when every buffer raises `RESPError`, the loop reads every chunk up to end-of-stream |
| Reader.BufferStart | ccredis_cli.py:102 | a buffer starts with the first character of its first chunk |
| Reader.UnknownTagReadsToEnd | ccredis_cli.py:103-107 | a reply starting with an unknown tag makes the loop read up to end-of-stream, although more data cannot help |
| Reader.ReadFromEncoding | ccredis_cli.py:98-107 | resumed partway through an encoding split into non-empty chunks, the loop returns exactly the encoding |
| Reader.ReadSplitEncoding | ccredis_cli.py:96-108 | however an encoding is split into non-empty chunks, and whatever chunks follow, the loop returns exactly the encoding and pulls no chunk after it |
| Hints.Upper | ccredis_cli.py:23 | upper-casing keeps the length and upper-cases each character in place |
| Hints.ArgText | ccredis_cli.py:27 | an argument's text is its display text when that is non-empty, else its name, else empty; it is empty exactly when both are missing or empty |
| Hints.ArgToken | ccredis_cli.py:28-31 | an optional argument's token is its text in square brackets; a required one's is its text; the token is empty exactly when the argument is required and its text is empty |
| Hints.Tokens | ccredis_cli.py:26-31 | the tokens the argument loop appends are one per argument, token `k` being argument `k`'s token |
| Hints.Join | ccredis_cli.py:33 | `" ".join` starts with the first part, followed by a space when there is more than one part |
| Hints.JoinSpaced | ccredis_cli.py:33 | joining a first part and further parts is the first part followed by each further part after one space, empty parts included |
| Hints.SyntaxHint | ccredis_cli.py:24-33 | a hint starts with the upper-cased command name, followed by a space when the command has arguments |
| Hints.SyntaxHintForm | ccredis_cli.py:24-33 | for every command, the hint is the upper-cased name followed by each argument's token after one space, whatever the tokens hold |
| Hints.LoadHints | ccredis_cli.py:21-34 | the keys are the upper-cased command names, and each key holds the hint of the last command with that upper-cased name |
| Hints.LoadHintsStep | ccredis_cli.py:22-34 | storing the last command's hint over the hints of the others gives the hints of the whole table |
| Hints.Words | ccredis_cli.py:51 | every word `split()` returns is non-empty and holds no whitespace |
| Hints.UpperIdempotent | ccredis_cli.py:54 | upper-casing twice is upper-casing once, and the result has no lower-case ASCII letter |
| Hints.WordsSkipSpace | ccredis_cli.py:51 | whitespace in front of the text changes none of its words |
| Hints.FirstWord | ccredis_cli.py:51 | a word followed by whitespace or the end of the text is the text's first word |
| Hints.NoWords | ccredis_cli.py:51-53 | text of whitespace only has no words |
| Hints.SplitJoin | ccredis_cli.py:33 | splitting what `" ".join` built gives back the parts, when none is empty or holds whitespace |
| Hints.SyntaxHintTokens | ccredis_cli.py:24-33 | when the name and every token are non-empty and hold no whitespace, the hint splits back into the upper-cased name and the tokens, each the argument's text, bracketed when optional |
| Hints.SyntaxHintOddTokens | ccredis_cli.py:26-33 | an argument with nothing to show leaves two spaces in a row, and a display text holding a space stays whole inside its brackets |
| Hints.GetHint | ccredis_cli.py:50-57 | the hint shown is empty or one of the stored hints |
| Hints.BlankHint | ccredis_cli.py:50-53 | blank input gives the empty hint |
| Hints.HintOfFirstWord | ccredis_cli.py:50-57 | the hint is the one stored for the first word typed, upper-cased, whatever whitespace surrounds it; an unknown command gives the empty hint |
| Hints.HintFromTable | ccredis_cli.py:50-57 | typing a command name in any case shows the hint of the last table entry with that name; a name the table lacks shows nothing |

Members without a row are definitions and proof helpers:

- Definitions the contracts are written in:
  - `Optional.GetOr`;
  - `Decimal`: `IsDigit`, `AllDigits`, `DigitChar`, `DigitValue`, `DigitsValue`, `IsIntLiteral`;
  - `Resp`: `IsTag`, `CrlfAt`, `Sendable`, and `Header` and `BulkString`, the `f"..."` lines of resp.py:6 and resp.py:11;
  - `Hints`: `UpperChar`, `IsSpace`, `NoSpace`, `AllSpace`, `SpaceBefore`, `LastOfName`, and `NextSpace`, the scan behind `Words`;
  - `Reader.KeptReading`.
- Proof helpers:
  - slicing: `SplitWindow`, `SplitCut`, and the `Text` lemmas `ConcatSplit`, `ConcatAppend`, `ConcatPrepend`, `ConcatLength`;
  - one-step unfoldings of the encoder: `SerializeArraySplit`, `SerializeItemsSplit`, `SerializeArrayOf`, `SerializeItemsCons`, `NullForm`;
  - one-step unfoldings of the decoder: `HeaderNoCrlf`, `HeaderFails`, `ArrayRead`, `ParseItemsNone`, `ParseItemsStep`, `BulkRead`, `NegativeBulkRead`, `NegativeCountRead`, `DeserializeOf`, `ParseAtEnd`, `ArrayItemsFail`, `ParseItemsAtEnd`, `ParseItemsFirstFails`, `ParseItemsRestFails`;
  - `Decimal.IntToStringChars`;
  - `Reader.KeepReading`;
  - `Hints`: `JoinFirst`, `SpaceBeforeFirst`, `LoadHintsKeys`, `LastOfNameFront`, `WordEndsAt`, `HintOfWords`, `OddTokens`, `OddSpaced`;
  - the pieces of the concrete examples: `SmallHeaders`, `BulkForm`, `OneItem`, `TwoItems`, `EchoPieces`, `SetPieces`, `ThousandReads`, `PaddedSevenReads`.

## Left out

- Socket I/O: connecting, `recv` and `sendall` are left out. The reader takes the chunks `recv` would return as a sequence, so the 4096-byte chunk size plays no part.
- Command-line and console: argument parsing, the interactive loop, response printing, `print_help`, the completer, the toolbar and the command history are all left out. They are I/O and user interface around a library that is not part of this model.
- The command table file: reading `commands.json` is filesystem I/O. The table is given in memory.
- Hints.LoadHints: models only the stored `syntax_hint`. The other fields of a stored entry are not modelled, because `get_hint` reads nothing else.
- Reader.ReadFullResponse: chunks are already-decoded strings, so the `UnicodeDecodeError` of a chunk that splits a multi-byte character is not modelled.
- Reader.ReadFullResponse: running past the end of the chunk sequence counts as end-of-stream, standing for a `recv` that returns nothing.
- Decimal.ParseInt: accepts only an optional minus sign and ASCII digits. Python's `int()` also accepts surrounding whitespace, a `+` sign, underscores and non-ASCII digits; on such text the model reports `IntParseErr` where Python would read a number. In the other direction, Python's `int()` raises `ValueError` on a decimal literal of more than 4300 digits (the default `sys.set_int_max_str_digits` limit), where the model reads the number. So an integer reply, or a `$` or `*` header, with more than 4300 digits gives a value in the model, where in Python the `ValueError` escapes the reader loop.
- Resp.ParseBulk: fails as `Unmodelled` on a bulk length below -1 whose next position falls onto the `$` tag or before it. That position is the end of the header plus the length plus 2. For lengths written without leading zeros, this covers every length from -7 down.
  - Python goes on instead. At the top level, `deserialize` drops the position and returns the slice, so `$-7\r\n` gives `""` where the model reports `Unmodelled`.
  - When the bulk string is an array's last element, Python's array ends there and `deserialize` returns it, with the slice as that element. For `*1\r\n$-12\r\n0123456789`, 20 characters, the slice `data[10:-2]` is `"01234567"` and Python returns `["01234567"]`, where the model reports `Unmodelled`.
  - When more elements follow, Python reads the next element from that earlier position.
  - A negative position makes `data[index]` count from the end of the data. It raises `IndexError` when the position lies before the start: `*2\r\n$-99\r\n` indexes `data[-87]` of a 10-character string.
  - Reading the same elements over and over can recurse until Python raises `RecursionError`.
  - Following all this needs Python's negative indexing and its recursion limit.
- Reader.ReadFrom: on such a length, the model's reader stops with the escaping `Unmodelled` failure. Python's loop may instead return, keep reading, or let the escaping `IndexError` or `RecursionError` end it, since neither is a `RESPError`.
- Hints.Upper: upper-cases ASCII letters only. Python's `str.upper()` also maps non-ASCII letters, some of them to several characters.
- Hints.Words: treats as whitespace only space, tab to carriage return, and characters 28 to 31. Python's `str.split()` also splits at non-ASCII whitespace.
- Hints.GetHint: the `strip()` before `split()` is folded away, because `split()` with no separator already ignores whitespace at both ends.
- JSON values of the wrong type are not modelled. Examples are an argument whose `name` is `null`, or an `arguments` value that is not a list. The model's argument has an optional display text, an optional name and a boolean `optional` flag.
- Python's recursion limit on deeply nested arrays is not modelled.
