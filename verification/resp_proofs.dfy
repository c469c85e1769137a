/**
 * Properties of the RESP codec: what the decoder makes of the encoder's
 * output (round trip, trailing data, truncation), how a single line is read,
 * and the edge cases of the Python decoder that the model keeps.
 */
module RespProofs {
  import opened Optional
  import opened Decimal
  import opened Resp

  // ------------------------------------------------------ slicing helpers

  /** A window of `data` that spells `a + b` spells `a`, then `b`. */
  lemma SplitWindow(data: string, i: nat, a: string, b: string)
    requires i + |a| + |b| <= |data|
    requires data[i..i + |a| + |b|] == a + b
    ensures data[i..i + |a|] == a
    ensures data[i + |a|..i + |a| + |b|] == b
  {
    assert data[i..i + |a|] == data[i..i + |a| + |b|][..|a|];
    assert data[i + |a|..i + |a| + |b|] == data[i..i + |a| + |b|][|a|..];
  }

  /** The shape of a header line: tag, then digits or '-', then CR LF. */
  lemma HeaderShape(tag: char, n: int)
    ensures |Header(tag, n)| == |IntToString(n)| + 3
    ensures Header(tag, n)[0] == tag
    ensures Header(tag, n)[1..|Header(tag, n)| - 2] == IntToString(n)
    ensures Header(tag, n)[|Header(tag, n)| - 2] == '\r'
    ensures Header(tag, n)[|Header(tag, n)| - 1] == '\n'
    ensures forall t :: 1 <= t < |Header(tag, n)| - 2 ==>
              Header(tag, n)[t] != '\r' && Header(tag, n)[t] != '\n'
  {
    IntToStringChars(n);
    var h := Header(tag, n);
    var d := IntToString(n);
    forall t | 1 <= t < |h| - 2
      ensures h[t] != '\r' && h[t] != '\n'
    {
      assert h[t] == d[t - 1];
    }
  }

  /** A complete header at `i` is read back as its number, with the position after it. */
  lemma HeaderRead(data: string, i: nat, tag: char, n: int)
    requires i + |Header(tag, n)| <= |data|
    requires data[i..i + |Header(tag, n)|] == Header(tag, n)
    ensures data[i] == tag
    ensures ReadHeader(data, i) == Success((n, i + |Header(tag, n)|))
  {
    var h := Header(tag, n);
    HeaderShape(tag, n);
    var w := data[i..i + |h|];
    assert data[i] == w[0];
    var e := i + |h| - 2;
    assert data[e] == w[|h| - 2] && data[e + 1] == w[|h| - 1];
    assert CrlfAt(data, e);
    forall k | i + 1 <= k < e
      ensures !CrlfAt(data, k)
    {
      assert data[k] == w[k - i];
    }
    assert Find(data, i + 1) == Some(e);
    assert data[i + 1..e] == IntToString(n) by {
      forall t | 0 <= t < e - i - 1
        ensures data[i + 1..e][t] == IntToString(n)[t]
      {
        assert data[i + 1 + t] == w[1 + t] == h[1..|h| - 2][t];
      }
    }
    IntRoundTrip(n);
  }

  /** A header cut short at the end of `data` has no CR LF, so reading it raises `RESPError`. */
  lemma HeaderCut(data: string, i: nat, tag: char, n: int)
    requires i < |data| < i + |Header(tag, n)|
    requires data[i..] == Header(tag, n)[..|data| - i]
    ensures data[i] == tag
    ensures ReadHeader(data, i) == Failure(RespErr)
    ensures tag == '$' || tag == '*' ==> Parse(data, i) == Failure(RespErr)
  {
    hide *;
    HeaderNoCrlf(data, i, tag, n);
    HeaderFails(data, i, tag);
  }

  /** A header cut short has no CR LF after its tag. */
  lemma HeaderNoCrlf(data: string, i: nat, tag: char, n: int)
    requires i < |data| < i + |Header(tag, n)|
    requires data[i..] == Header(tag, n)[..|data| - i]
    ensures data[i] == tag
    ensures ReadHeader(data, i) == Failure(RespErr)
  {
    var h := Header(tag, n);
    HeaderShape(tag, n);
    assert data[i] == data[i..][0];
    forall k | i + 1 <= k
      ensures !CrlfAt(data, k)
    {
      if k + 1 < |data| {
        assert data[k + 1] == data[i..][k + 1 - i];
      }
    }
    assert Find(data, i + 1) == None;
  }

  /** A bulk string or array whose header does not read raises `RESPError`. */
  lemma HeaderFails(data: string, i: nat, tag: char)
    requires i < |data| && data[i] == tag
    requires ReadHeader(data, i) == Failure(RespErr)
    ensures tag == '$' || tag == '*' ==> Parse(data, i) == Failure(RespErr)
  {
  }

  // ------------------------------------------------------------- encoder

  /** `serialize` succeeds exactly on strings, `None`, and lists of those. */
  lemma {:induction false} SerializeAccepts(v: Value)
    ensures Serialize(v).Success? <==> Sendable(v)
    decreases v, 1
  {
    match v
    case Arr(items) =>
      SerializeItemsAccepts(items);
    case _ =>
  }

  /** The items encode exactly when every one of them can be sent. */
  lemma {:induction false} SerializeItemsAccepts(items: seq<Value>)
    ensures SerializeItems(items).Success? <==> forall k | 0 <= k < |items| :: Sendable(items[k])
    decreases items, 0
  {
    if |items| > 0 {
      SerializeAccepts(items[0]);
      SerializeItemsAccepts(items[1..]);
      assert forall k | 1 <= k < |items| :: items[k] == items[1..][k - 1];
    }
  }

  /** An error reply or an integer cannot be sent: `serialize` raises `RESPError`. */
  lemma SerializeRejects(v: Value)
    requires v.Err? || v.Int?
    ensures Serialize(v) == Failure(RespErr)
  {
  }

  // ------------------------------------------------- encodings parse back

  /** A list's encoding is its header followed by its items' encodings. */
  lemma SerializeArraySplit(items: seq<Value>, enc: string) returns (body: string)
    requires Serialize(Arr(items)) == Success(enc)
    ensures SerializeItems(items) == Success(body)
    ensures enc == Header('*', |items|) + body
  {
    body := SerializeItems(items).value;
  }

  /** The items' encodings split into the first item's encoding and the rest's. */
  lemma SerializeItemsSplit(items: seq<Value>, enc: string) returns (first: string, rest: string)
    requires |items| > 0 && SerializeItems(items) == Success(enc)
    ensures Serialize(items[0]) == Success(first) && SerializeItems(items[1..]) == Success(rest)
    ensures enc == first + rest
  {
    first := Serialize(items[0]).value;
    rest := SerializeItems(items[1..]).value;
  }

  /** `None` encodes as the null bulk string. */
  lemma NullForm()
    ensures Serialize(Null) == Success(Header('$', -1))
  {
  }

  /** A list whose items encode to `body` encodes as its header and then `body`. */
  lemma SerializeArrayOf(items: seq<Value>, body: string)
    requires SerializeItems(items) == Success(body)
    ensures Serialize(Arr(items)) == Success(Header('*', |items|) + body)
  {
  }

  /** The items encode to the first item's encoding followed by the rest's. */
  lemma SerializeItemsCons(items: seq<Value>, first: string, rest: string)
    requires |items| > 0
    requires Serialize(items[0]) == Success(first) && SerializeItems(items[1..]) == Success(rest)
    ensures SerializeItems(items) == Success(first + rest)
  {
  }

  // ------------------------------------------------- encodings parse back

  /** When the header reads and the element loop reads its items, the array reads as a list. */
  lemma ArrayRead(data: string, i: nat, items: seq<Value>, j: nat, e: nat)
    requires i < |data| && data[i] == '*'
    requires ReadHeader(data, i) == Success((|items|, j))
    requires ParseItems(data, j, |items|) == Success((items, e))
    ensures Parse(data, i) == Success((Arr(items), e))
  {
    assert ParseArray(data, i) == Success((Arr(items), e));
  }

  /** Reading no items reads nothing. */
  lemma ParseItemsNone(data: string, j: nat)
    requires j <= |data|
    ensures ParseItems(data, j, 0) == Success(([], j))
  {
  }

  /** Reading the first item and then the rest reads all the items. */
  lemma ParseItemsStep(data: string, items: seq<Value>, j: nat, k: nat, e: nat)
    requires |items| > 0 && j < k <= e <= |data|
    requires Parse(data, j) == Success((items[0], k))
    requires ParseItems(data, k, |items[1..]|) == Success((items[1..], e))
    ensures ParseItems(data, j, |items|) == Success((items, e))
  {
    assert [items[0]] + items[1..] == items;
  }

  /** The encoding of a string is read back as the string. */
  lemma StrEncodingRead(s: string, enc: string, data: string, i: nat)
    requires Serialize(Str(s)) == Success(enc)
    requires i + |enc| <= |data| && data[i..i + |enc|] == enc
    ensures Parse(data, i) == Success((Str(s), i + |enc|))
  {
    assert enc == Header('$', |s|) + s + ['\r', '\n'];
    BulkTerminatorUnchecked(data, i, s, '\r', '\n');
  }

  /** The encoding of `None` is read back as `None`. */
  lemma NullEncodingRead(enc: string, data: string, i: nat)
    requires Serialize(Null) == Success(enc)
    requires i + |enc| <= |data| && data[i..i + |enc|] == enc
    ensures Parse(data, i) == Success((Null, i + |enc|))
  {
    MinusOneIsNull(data, i, '$');
  }

  /** The encoding of a sendable value is read back whole, wherever it starts. */
  lemma {:induction false} ParseEncoding(v: Value, enc: string, data: string, i: nat)
    requires Serialize(v) == Success(enc)
    requires i + |enc| <= |data| && data[i..i + |enc|] == enc
    ensures Parse(data, i) == Success((v, i + |enc|))
    decreases v, 1
  {
    hide *;
    match v
    case Str(s) =>
      StrEncodingRead(s, enc, data, i);
    case Null =>
      NullEncodingRead(enc, data, i);
    case Arr(items) =>
      ArrayEncodingRead(items, enc, data, i);
    case Err(_) =>
      SerializeRejects(v);
    case Int(_) =>
      SerializeRejects(v);
  }

  /** The encoding of a list is read back as the list. */
  lemma {:induction false} ArrayEncodingRead(items: seq<Value>, enc: string, data: string, i: nat)
    requires Serialize(Arr(items)) == Success(enc)
    requires i + |enc| <= |data| && data[i..i + |enc|] == enc
    ensures Parse(data, i) == Success((Arr(items), i + |enc|))
    decreases Arr(items), 0
  {
    hide *;
    var body := SerializeArraySplit(items, enc);
    var h := Header('*', |items|);
    SplitWindow(data, i, h, body);
    HeaderRead(data, i, '*', |items|);
    ParseItemsEncoding(items, body, data, i + |h|);
    ArrayRead(data, i, items, i + |h|, i + |h| + |body|);
  }

  /** The concatenated encodings of sendable items are read back as those items. */
  lemma {:induction false} ParseItemsEncoding(items: seq<Value>, enc: string, data: string, j: nat)
    requires SerializeItems(items) == Success(enc)
    requires j + |enc| <= |data| && data[j..j + |enc|] == enc
    ensures ParseItems(data, j, |items|) == Success((items, j + |enc|))
    decreases items
  {
    hide *;
    if |items| == 0 {
      ParseItemsNone(data, j);
    } else {
      var first, rest := SerializeItemsSplit(items, enc);
      SplitWindow(data, j, first, rest);
      ParseEncoding(items[0], first, data, j);
      ParseItemsEncoding(items[1..], rest, data, j + |first|);
      ParseItemsStep(data, items, j, j + |first|, j + |first| + |rest|);
    }
  }

  /** Decoding an encoding returns the value and ignores anything after it. */
  lemma TrailingDataIgnored(v: Value, enc: string, rest: string)
    requires Serialize(v) == Success(enc)
    ensures Parse(enc + rest, 0) == Success((v, |enc|))
    ensures Deserialize(enc + rest) == Success(v)
  {
    hide *;
    var data := enc + rest;
    assert data[0..|enc|] == enc;
    ParseEncoding(v, enc, data, 0);
    DeserializeOf(data, v, |enc|);
  }

  /** `deserialize` returns the value `parse(0)` reads. */
  lemma DeserializeOf(data: string, v: Value, e: nat)
    requires Parse(data, 0) == Success((v, e))
    ensures Deserialize(data) == Success(v)
  {
  }

  /** `deserialize(serialize(v)) == v` for every value built from lists, strings and `None`. */
  lemma RoundTrip(v: Value)
    requires Sendable(v)
    ensures Serialize(v).Success?
    ensures Deserialize(Serialize(v).value) == Success(v)
  {
    SerializeAccepts(v);
    var enc := Serialize(v).value;
    TrailingDataIgnored(v, enc, "");
    assert enc + "" == enc;
  }

  // ------------------------------------------------ truncations are rejected

  /** A tail of `data` that is a prefix of `a + b` splits into pieces of `a` and `b`. */
  lemma SplitCut(data: string, i: nat, a: string, b: string)
    requires i <= |data| <= i + |a| + |b|
    requires data[i..] == (a + b)[..|data| - i]
    ensures |data| - i < |a| ==> data[i..] == a[..|data| - i]
    ensures |data| - i >= |a| ==> data[i..i + |a|] == a && data[i + |a|..] == b[..|data| - (i + |a|)]
  {
    var m := |data| - i;
    if m >= |a| {
      assert data[i..i + |a|] == data[i..][..|a|];
      assert data[i + |a|..] == data[i..][|a|..];
      assert (a + b)[..m][|a|..] == b[..m - |a|];
    }
  }

  /** A bulk string cut short fails with `RESPError`. */
  lemma BulkCut(s: string, enc: string, data: string, i: nat)
    requires Serialize(Str(s)) == Success(enc)
    requires i < |data| < i + |enc|
    requires data[i..] == enc[..|data| - i]
    ensures Parse(data, i) == Failure(RespErr)
  {
    var h := Header('$', |s|);
    assert enc == h + (s + CRLF);
    SplitCut(data, i, h, s + CRLF);
    if |data| - i < |h| {
      HeaderCut(data, i, '$', |s|);
    } else {
      HeaderRead(data, i, '$', |s|);
    }
  }

  /** When the header reads and the element loop fails, the array fails the same way. */
  lemma ArrayItemsFail(data: string, i: nat, n: nat, j: nat, e: ErrorKind)
    requires i < |data| && data[i] == '*'
    requires ReadHeader(data, i) == Success((n, j))
    requires ParseItems(data, j, n) == Failure(e)
    ensures Parse(data, i) == Failure(e)
  {
    assert ParseArray(data, i) == Failure(e);
  }

  /** An array cut short fails with `RESPError`. */
  lemma {:induction false} ArrayCut(items: seq<Value>, body: string, data: string, i: nat)
    requires SerializeItems(items) == Success(body)
    requires i < |data| < i + |Header('*', |items|)| + |body|
    requires data[i..] == (Header('*', |items|) + body)[..|data| - i]
    ensures Parse(data, i) == Failure(RespErr)
    decreases Arr(items), 0
  {
    hide *;
    var h := Header('*', |items|);
    SplitCut(data, i, h, body);
    if |data| - i < |h| {
      HeaderCut(data, i, '*', |items|);
    } else {
      HeaderRead(data, i, '*', |items|);
      ParseItemsCut(items, body, data, i + |h|);
      ArrayItemsFail(data, i, |items|, i + |h|, RespErr);
    }
  }

  /** An encoding cut short at the end of `data` fails with `RESPError`. */
  lemma {:induction false} ParseCut(v: Value, enc: string, data: string, i: nat)
    requires Serialize(v) == Success(enc)
    requires i <= |data| < i + |enc|
    requires data[i..] == enc[..|data| - i]
    ensures Parse(data, i) == Failure(RespErr)
    decreases v, 1
  {
    hide *;
    if |data| == i {
      ParseAtEnd(data, i);
      return;
    }
    match v
    case Str(s) =>
      BulkCut(s, enc, data, i);
    case Null =>
      assert enc == Header('$', -1) by {
        NullForm();
      }
      HeaderCut(data, i, '$', -1);
    case Arr(items) =>
      var body := SerializeArraySplit(items, enc);
      ArrayCut(items, body, data, i);
    case Err(_) =>
      SerializeRejects(v);
    case Int(_) =>
      SerializeRejects(v);
  }

  /** Nothing can be read at the end of the input. */
  lemma ParseAtEnd(data: string, i: nat)
    requires i == |data|
    ensures Parse(data, i) == Failure(RespErr)
  {
  }

  /** The element loop fails with `RESPError` when the input ends before an element starts. */
  lemma ParseItemsAtEnd(data: string, j: nat, n: nat)
    requires j == |data| && n > 0
    ensures ParseItems(data, j, n) == Failure(RespErr)
  {
  }

  /** The element loop fails the way its first element fails. */
  lemma ParseItemsFirstFails(data: string, j: nat, n: nat, e: ErrorKind)
    requires j < |data| && n > 0
    requires Parse(data, j) == Failure(e)
    ensures ParseItems(data, j, n) == Failure(e)
  {
  }

  /** The element loop fails the way the rest of it fails after a first element reads. */
  lemma ParseItemsRestFails(data: string, j: nat, items: seq<Value>, k: nat, e: ErrorKind)
    requires j < |data| && |items| > 0
    requires Parse(data, j) == Success((items[0], k))
    requires ParseItems(data, k, |items[1..]|) == Failure(e)
    ensures ParseItems(data, j, |items|) == Failure(e)
  {
  }

  /** Concatenated item encodings cut short at the end of `data` fail with `RESPError`. */
  lemma {:induction false} ParseItemsCut(items: seq<Value>, enc: string, data: string, j: nat)
    requires SerializeItems(items) == Success(enc)
    requires j <= |data| < j + |enc|
    requires data[j..] == enc[..|data| - j]
    ensures ParseItems(data, j, |items|) == Failure(RespErr)
    decreases items
  {
    hide *;
    assert |items| > 0;
    var first, rest := SerializeItemsSplit(items, enc);
    SplitCut(data, j, first, rest);
    if |data| == j {
      ParseItemsAtEnd(data, j, |items|);
    } else if |data| - j < |first| {
      ParseCut(items[0], first, data, j);
      ParseItemsFirstFails(data, j, |items|, RespErr);
    } else {
      ParseEncoding(items[0], first, data, j);
      ParseItemsCut(items[1..], rest, data, j + |first|);
      ParseItemsRestFails(data, j, items, j + |first|, RespErr);
    }
  }

  /**
   * Every proper prefix of an encoding, the empty one included, fails with
   * `RESPError`: never with a wrong value and never with `int()`'s error.
   */
  lemma PrefixRejected(v: Value, enc: string, n: nat)
    requires Serialize(v) == Success(enc)
    requires n < |enc|
    ensures Deserialize(enc[..n]) == Failure(RespErr)
  {
    var p := enc[..n];
    if n > 0 {
      assert p[0..] == enc[..|p| - 0];
      ParseCut(v, enc, p, 0);
    }
  }

  // ----------------------------------------------------------- single lines

  /**
   * For `+`, `-` and `:`, the payload is exactly the text between the tag and
   * the first CR LF after it, and reading resumes just after that CR LF.
   */
  lemma LineRead(data: string, i: nat, e: nat)
    requires i < |data| && (data[i] == '+' || data[i] == '-' || data[i] == ':')
    requires i + 1 <= e && CrlfAt(data, e)
    requires forall k :: i + 1 <= k < e ==> !CrlfAt(data, k)
    ensures data[i] == '+' ==> Parse(data, i) == Success((Str(data[i + 1..e]), e + 2))
    ensures data[i] == '-' ==> Parse(data, i) == Success((Err(data[i + 1..e]), e + 2))
    ensures data[i] == ':' && IsIntLiteral(data[i + 1..e]) ==>
              Parse(data, i) == Success((Int(ParseInt(data[i + 1..e]).value), e + 2))
    ensures data[i] == ':' && !IsIntLiteral(data[i + 1..e]) ==> Parse(data, i) == Failure(IntParseErr)
  {
    assert Find(data, i + 1) == Some(e);
  }

  /** A `+` or `-` line whose text holds no CR reads, on its own, as that text. */
  lemma LineForm(tag: char, text: string)
    requires tag == '+' || tag == '-'
    requires forall k :: 0 <= k < |text| ==> text[k] != '\r'
    ensures tag == '+' ==> Deserialize([tag] + text + CRLF) == Success(Str(text))
    ensures tag == '-' ==> Deserialize([tag] + text + CRLF) == Success(Err(text))
  {
    var line := [tag] + text + CRLF;
    var e := |text| + 1;
    forall k | 1 <= k < e
      ensures !CrlfAt(line, k)
    {
      assert line[k] == text[k - 1];
    }
    LineRead(line, 0, e);
    assert line[1..e] == text;
  }

  /** A `+`, `-` or `:` line with no CR LF after its tag fails with `RESPError`. */
  lemma LineUnterminated(data: string, i: nat)
    requires i < |data| && (data[i] == '+' || data[i] == '-' || data[i] == ':')
    requires forall k :: i + 1 <= k ==> !CrlfAt(data, k)
    ensures Parse(data, i) == Failure(RespErr)
  {
    assert Find(data, i + 1) == None;
  }

  /** A leading character that is not one of the five tags fails with `RESPError`, whatever follows. */
  lemma UnknownTagRejected(data: string)
    requires |data| > 0 && !IsTag(data[0])
    ensures Deserialize(data) == Failure(RespErr)
  {
  }

  // ------------------------------------------------------------ edge cases

  /**
   * The two characters after a bulk payload are required to be present but
   * are never compared with CR LF: any two characters end the payload.
   */
  lemma BulkTerminatorUnchecked(data: string, i: nat, s: string, x: char, y: char)
    requires i + |Header('$', |s|)| + |s| + 2 <= |data|
    requires data[i..i + |Header('$', |s|)| + |s| + 2] == Header('$', |s|) + s + [x, y]
    ensures Parse(data, i) == Success((Str(s), i + |Header('$', |s|)| + |s| + 2))
  {
    hide *;
    var h := Header('$', |s|);
    assert h + s + [x, y] == h + (s + [x, y]);
    SplitWindow(data, i, h, s + [x, y]);
    HeaderRead(data, i, '$', |s|);
    SplitWindow(data, i + |h|, s, [x, y]);
    BulkRead(data, i, |s|, i + |h|);
  }

  /** When the header reads a length `n >= 0` and `n + 2` characters follow, the payload is the next `n`. */
  lemma BulkRead(data: string, i: nat, n: nat, j: nat)
    requires i < |data| && data[i] == '$'
    requires ReadHeader(data, i) == Success((n, j))
    requires j + n + 2 <= |data|
    ensures Parse(data, i) == Success((Str(data[j..j + n]), j + n + 2))
  {
    assert ParseBulk(data, i) == Success((Str(data[j..j + n]), j + n + 2));
  }

  /** Length -1 and count -1 both read as `None`, and say nothing about what follows. */
  lemma MinusOneIsNull(data: string, i: nat, tag: char)
    requires tag == '$' || tag == '*'
    requires i + |Header(tag, -1)| <= |data|
    requires data[i..i + |Header(tag, -1)|] == Header(tag, -1)
    ensures Parse(data, i) == Success((Null, i + |Header(tag, -1)|))
  {
    HeaderRead(data, i, tag, -1);
    if tag == '$' {
      assert ParseBulk(data, i) == Success((Null, i + |Header(tag, -1)|));
    } else {
      assert ParseArray(data, i) == Success((Null, i + |Header(tag, -1)|));
    }
  }

  /** An array count below -1 reads as an empty list: the element loop runs no times. */
  lemma NegativeCountIsEmpty(data: string, i: nat, n: int)
    requires n < -1
    requires i + |Header('*', n)| <= |data|
    requires data[i..i + |Header('*', n)|] == Header('*', n)
    ensures Parse(data, i) == Success((Arr([]), i + |Header('*', n)|))
  {
    hide *;
    HeaderRead(data, i, '*', n);
    NegativeCountRead(data, i, n, i + |Header('*', n)|);
  }

  /** Once the header says a count below -1, the array is empty and ends with the header. */
  lemma NegativeCountRead(data: string, i: nat, n: int, j: nat)
    requires n < -1 && i < |data| && data[i] == '*'
    requires ReadHeader(data, i) == Success((n, j))
    ensures Parse(data, i) == Success((Arr([]), j))
  {
    assert ParseArray(data, i) == Success((Arr([]), j));
  }

  /**
   * A bulk length below -1 reads as the empty string, with the next position
   * `length + 2` characters after the header, that is before its end, as long
   * as the slice does not wrap and the position stays after the tag.
   */
  lemma NegativeLengthEmpty(data: string, i: nat, n: int)
    requires n < -1
    requires i + |Header('$', n)| <= |data|
    requires data[i..i + |Header('$', n)|] == Header('$', n)
    requires 0 <= i + |Header('$', n)| + n && i < i + |Header('$', n)| + n + 2
    ensures Parse(data, i) == Success((Str(""), i + |Header('$', n)| + n + 2))
  {
    hide *;
    HeaderRead(data, i, '$', n);
    NegativeBulkRead(data, i, n, i + |Header('$', n)|);
  }

  /**
   * A bulk length whose slice end is negative but whose position stays after
   * the tag (which happens only at the very start of the data) reads, as
   * Python's slice does, up to the last character but one.
   */
  lemma NegativeLengthWraps(data: string, i: nat, n: int)
    requires n < -1
    requires i + |Header('$', n)| <= |data|
    requires data[i..i + |Header('$', n)|] == Header('$', n)
    requires i + |Header('$', n)| + n < 0 && i < i + |Header('$', n)| + n + 2
    ensures i == 0
    ensures Parse(data, i) == Success((Str(if i + |Header('$', n)| < |data| - 1
                                           then data[i + |Header('$', n)|..|data| - 1] else ""),
                                       i + |Header('$', n)| + n + 2))
  {
    hide *;
    HeaderRead(data, i, '$', n);
    NegativeBulkRead(data, i, n, i + |Header('$', n)|);
  }

  /** Once the header says a length below -1 and the position stays after the tag, the slice is Python's. */
  lemma NegativeBulkRead(data: string, i: nat, n: int, j: nat)
    requires n < -1 && i < |data| && data[i] == '$'
    requires ReadHeader(data, i) == Success((n, j))
    requires i < j + n + 2
    ensures 0 <= j + n ==> Parse(data, i) == Success((Str(""), j + n + 2))
    ensures j + n < 0 ==> Parse(data, i) == Success((Str(if j < |data| + (j + n) then data[j..|data| + (j + n)] else ""), j + n + 2))
  {
    assert Parse(data, i) == ParseBulk(data, i);
  }

  /** A bulk length below -1 whose position falls back onto the tag or before it is outside this model. */
  lemma NegativeLengthUnmodelled(data: string, i: nat, n: int)
    requires n < -1
    requires i + |Header('$', n)| <= |data|
    requires data[i..i + |Header('$', n)|] == Header('$', n)
    requires i + |Header('$', n)| + n + 2 <= i
    ensures Parse(data, i) == Failure(Unmodelled)
  {
    HeaderRead(data, i, '$', n);
    assert ParseBulk(data, i) == Failure(Unmodelled);
  }

}
