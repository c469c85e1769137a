/**
 * The RESP version 2 codec of `resp.py`.
 *
 * Both directions work on decoded text (`string`), and every length is a
 * character count, as in the Python code. The decoder passes a position
 * along: `Parse(data, i)` reads one value starting at `data[i]` and returns
 * it with the position just after it.
 */
module Resp {
  import opened Optional
  import opened Decimal

  /**
   * A Python value as the codec sees it. `Str` covers simple and bulk
   * strings, `Err` the `{"error": ...}` dictionary, and `Null` both the null
   * bulk string and the null array.
   */
  datatype Value =
    | Str(s: string)
    | Err(msg: string)
    | Int(i: int)
    | Null
    | Arr(items: seq<Value>)

  /**
   * Why an operation failed. `RespErr` is every `raise RESPError`;
   * `IntParseErr` is the `ValueError` of `int()`, which is not a `RESPError`.
   * `Unmodelled` marks a bulk length below -1 that moves the next position
   * back onto the tag or before it, which this model does not follow.
   */
  datatype ErrorKind = RespErr | IntParseErr | Unmodelled

  datatype Result<+T> = Success(value: T) | Failure(error: ErrorKind)

  const CRLF: string := "\r\n"

  /** The five type prefixes of RESP version 2. */
  predicate IsTag(c: char) {
    c == '+' || c == '-' || c == ':' || c == '$' || c == '*'
  }

  /** The line `<tag><n>\r\n` that starts a bulk string or an array. */
  function Header(tag: char, n: int): string {
    [tag] + IntToString(n) + CRLF
  }

  /** The bulk-string form of `s`: its length line, then `s` and CR LF. */
  function BulkString(s: string): string {
    Header('$', |s|) + s + CRLF
  }

  /** The values `serialize` accepts: strings, `None`, and lists of those. */
  predicate Sendable(v: Value) {
    match v
    case Str(_) => true
    case Null => true
    case Arr(items) => forall k | 0 <= k < |items| :: Sendable(items[k])
    case _ => false
  }

  // ---------------------------------------------------------------- encoder

  /**
   * `serialize`: a list becomes an array, a string a bulk string, `None` the
   * null bulk string; anything else raises `RESPError`.
   */
  function Serialize(v: Value): (r: Result<string>)
    ensures r.Failure? ==> r.error == RespErr
    ensures r.Success? ==> |r.value| >= 4 && (r.value[0] == '$' || r.value[0] == '*')
    decreases v, 1
  {
    match v
    case Arr(items) =>
      (match SerializeItems(items)
       case Success(body) => Success(Header('*', |items|) + body)
       case Failure(e) => Failure(e))
    case Str(s) => Success(BulkString(s))
    case Null => Success(Header('$', -1))
    case _ => Failure(RespErr)
  }

  /** The encodings of `items`, concatenated in order. */
  function SerializeItems(items: seq<Value>): (r: Result<string>)
    ensures r.Failure? ==> r.error == RespErr
    ensures r.Success? ==> (|r.value| == 0 <==> |items| == 0)
    decreases items, 0
  {
    if |items| == 0 then Success("")
    else
      match Serialize(items[0])
      case Failure(e) => Failure(e)
      case Success(first) =>
        match SerializeItems(items[1..])
        case Failure(e) => Failure(e)
        case Success(rest) => Success(first + rest)
  }

  // ---------------------------------------------------------------- decoder

  /** There is a CR LF pair starting at `k`. */
  predicate CrlfAt(data: string, k: int) {
    0 <= k && k + 1 < |data| && data[k] == '\r' && data[k + 1] == '\n'
  }

  /** `data.find("\r\n", from)`: the first CR LF at or after `from`, if any. */
  function Find(data: string, from: nat): (r: Option<nat>)
    ensures r.Some? ==> from <= r.value && CrlfAt(data, r.value)
    ensures r.Some? ==> forall k :: from <= k < r.value ==> !CrlfAt(data, k)
    ensures r.None? ==> forall k :: from <= k ==> !CrlfAt(data, k)
    decreases |data| - from
  {
    if from + 1 >= |data| then None
    else if data[from] == '\r' && data[from + 1] == '\n' then Some(from)
    else Find(data, from + 1)
  }

  /**
   * The number on the line after the tag at `data[i]`, and the position after
   * that line: a missing CR LF raises `RESPError`, text `int()` rejects raises
   * `ValueError`.
   */
  function ReadHeader(data: string, i: nat): (r: Result<(int, nat)>)
    requires i < |data|
    ensures r.Success? ==> i + 3 <= r.value.1 <= |data| && CrlfAt(data, r.value.1 - 2)
    ensures r.Failure? ==> r.error != Unmodelled
  {
    match Find(data, i + 1)
    case None => Failure(RespErr)
    case Some(end) =>
      match ParseInt(data[i + 1..end])
      case None => Failure(IntParseErr)
      case Some(n) => Success((n, end + 2))
  }

  /**
   * A `+`, `-` or `:` line: the text between the tag and the first CR LF,
   * as a string, an error reply or an integer.
   */
  function ParseLine(data: string, i: nat): (r: Result<(Value, nat)>)
    requires i < |data| && (data[i] == '+' || data[i] == '-' || data[i] == ':')
    ensures r.Success? ==> i + 3 <= r.value.1 <= |data|
    ensures r.Failure? ==> r.error != Unmodelled
  {
    var tag := data[i];
    match Find(data, i + 1)
    case None => Failure(RespErr)
    case Some(end) =>
      var text := data[i + 1..end];
      if tag == '+' then Success((Str(text), end + 2))
      else if tag == '-' then Success((Err(text), end + 2))
      else
        match ParseInt(text)
        case None => Failure(IntParseErr)
        case Some(n) => Success((Int(n), end + 2))
  }

  /**
   * A `$` bulk string: length -1 is `None`; otherwise the payload is the next
   * `length` characters, and two more characters must follow it.
   *
   * A length below -1 passes the length check, since `j + length + 2 <= j`.
   * The slice `data[j:j + length]` then ends before it starts, and is empty,
   * unless its end is negative: Python counts a negative end back from the
   * end of the data, which can leave a non-empty tail. The next position is
   * `j + length + 2`, which lies at or before `j`; when it falls back onto the tag
   * or before it, reading goes on from there (from the end of the data when
   * negative), which this model does not follow.
   */
  function ParseBulk(data: string, i: nat): (r: Result<(Value, nat)>)
    requires i < |data| && data[i] == '$'
    ensures r.Success? ==> i < r.value.1 <= |data|
  {
    match ReadHeader(data, i)
    case Failure(e) => Failure(e)
    case Success((length, j)) =>
      if length == -1 then Success((Null, j))
      else if length < -1 then
        if j + length + 2 <= i then Failure(Unmodelled)
        else
          var stop := if j + length < 0 then |data| + (j + length) else j + length;
          Success((Str(if j < stop then data[j..stop] else ""), j + length + 2))
      else if j + length + 2 > |data| then Failure(RespErr)
      else Success((Str(data[j..j + length]), j + length + 2))
  }

  /**
   * The inner `parse(index)` of `deserialize`: the value that starts at
   * `data[i]` and the position just after it.
   */
  function Parse(data: string, i: nat): (r: Result<(Value, nat)>)
    ensures r.Success? ==> i < r.value.1 <= |data|
    ensures r.Success? ==> IsTag(data[i])
    decreases |data| - i, 1, 0
  {
    if i >= |data| then Failure(RespErr)
    else
      var tag := data[i];
      if tag == '+' || tag == '-' || tag == ':' then ParseLine(data, i)
      else if tag == '$' then ParseBulk(data, i)
      else if tag == '*' then ParseArray(data, i)
      else Failure(RespErr)
  }

  /**
   * A `*` array: count -1 is `None`, a count below -1 an empty list (the
   * element loop runs no times); otherwise `count` elements follow.
   */
  function ParseArray(data: string, i: nat): (r: Result<(Value, nat)>)
    requires i < |data| && data[i] == '*'
    ensures r.Success? ==> i + 3 <= r.value.1 <= |data|
    decreases |data| - i, 0, 0
  {
    match ReadHeader(data, i)
    case Failure(e) => Failure(e)
    case Success((count, j)) =>
      if count == -1 then Success((Null, j))
      else if count < -1 then Success((Arr([]), j))
      else
        match ParseItems(data, j, count)
        case Failure(e) => Failure(e)
        case Success((items, k)) => Success((Arr(items), k))
  }

  /**
   * The element loop of an array: `count` values read one after another from
   * position `j`, failing when the input ends before an element starts.
   */
  function ParseItems(data: string, j: nat, count: nat): (r: Result<(seq<Value>, nat)>)
    requires j <= |data|
    ensures r.Success? ==> j <= r.value.1 <= |data| && |r.value.0| == count
    ensures r.Success? && count > 0 ==> j < r.value.1
    decreases |data| - j, 2, count
  {
    if count == 0 then Success(([], j))
    else if j >= |data| then Failure(RespErr)
    else
      match Parse(data, j)
      case Failure(e) => Failure(e)
      case Success((v, k)) =>
        match ParseItems(data, k, count - 1)
        case Failure(e) => Failure(e)
        case Success((rest, end)) => Success(([v] + rest, end))
  }

  /** `deserialize`: the first value of `data`; anything after it is ignored. */
  function Deserialize(data: string): (r: Result<Value>)
    ensures r.Success? ==> |data| > 0 && IsTag(data[0])
    ensures |data| == 0 ==> r == Failure(RespErr)
  {
    if |data| == 0 then Failure(RespErr)
    else
      match Parse(data, 0)
      case Failure(e) => Failure(e)
      case Success((v, _)) => Success(v)
  }
}
