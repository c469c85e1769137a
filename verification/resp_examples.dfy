/**
 * The concrete encodings and decodings the repository's unit tests check
 * (test_rediscli.py), derived from the general properties of the model.
 */
module RespExamples {
  import opened Optional
  import opened Decimal
  import opened Resp
  import opened RespProofs

  /** The headers the examples use. */
  lemma SmallHeaders()
    ensures Header('*', 1) == "*1\r\n" && Header('*', 2) == "*2\r\n" && Header('*', 3) == "*3\r\n"
    ensures Header('$', 0) == "$0\r\n" && Header('$', 3) == "$3\r\n" && Header('$', 4) == "$4\r\n"
    ensures Header('$', 5) == "$5\r\n" && Header('$', -1) == "$-1\r\n"
    ensures Header('$', 11) == "$11\r\n"
  {
    assert NatToString(11) == NatToString(1) + [DigitChar(1)];
  }

  /** A string encodes as its bulk-string form. */
  lemma BulkForm(s: string)
    ensures Serialize(Str(s)) == Success(BulkString(s))
  {
  }

  /** A single string item encodes as its bulk string. */
  lemma OneItem(a: string)
    ensures SerializeItems([Str(a)]) == Success(BulkString(a))
  {
    BulkForm(a);
    assert [Str(a)][1..] == [];
    SerializeItemsCons([Str(a)], BulkString(a), "");
    assert BulkString(a) + "" == BulkString(a);
  }

  /** Two string items encode as their bulk strings in order. */
  lemma TwoItems(a: string, b: string)
    ensures SerializeItems([Str(a), Str(b)]) == Success(BulkString(a) + BulkString(b))
  {
    BulkForm(a);
    OneItem(b);
    assert [Str(a), Str(b)][1..] == [Str(b)];
    SerializeItemsCons([Str(a), Str(b)], BulkString(a), BulkString(b));
  }

  /** Lists of one, two and three strings encode as a count and the bulk strings in order. */
  lemma StringListForms(a: string, b: string, c: string)
    ensures Serialize(Arr([Str(a)])) == Success(Header('*', 1) + BulkString(a))
    ensures Serialize(Arr([Str(a), Str(b)])) == Success(Header('*', 2) + (BulkString(a) + BulkString(b)))
    ensures Serialize(Arr([Str(a), Str(b), Str(c)]))
            == Success(Header('*', 3) + (BulkString(a) + (BulkString(b) + BulkString(c))))
  {
    hide *;
    OneItem(a);
    SerializeArrayOf([Str(a)], BulkString(a));
    TwoItems(a, b);
    SerializeArrayOf([Str(a), Str(b)], BulkString(a) + BulkString(b));
    var three := [Str(a), Str(b), Str(c)];
    assert three[0] == Str(a) && three[1..] == [Str(b), Str(c)];
    BulkForm(a);
    TwoItems(b, c);
    SerializeItemsCons(three, BulkString(a), BulkString(b) + BulkString(c));
    SerializeArrayOf(three, BulkString(a) + (BulkString(b) + BulkString(c)));
  }

  /** A one-element list encodes as a count of 1 and the element's bulk string. */
  lemma SerializePing()
    ensures Serialize(Arr([Str("ping")])) == Success("*1\r\n$4\r\nping\r\n")
  {
    StringListForms("ping", "", "");
    SmallHeaders();
    assert Header('*', 1) + BulkString("ping") == "*1\r\n$4\r\nping\r\n";
  }

  /** A two-element list, one element holding a space, encodes element by element. */
  lemma SerializeEcho()
    ensures Serialize(Arr([Str("echo"), Str("hello world")]))
            == Success("*2\r\n$4\r\necho\r\n$11\r\nhello world\r\n")
  {
    hide *;
    StringListForms("echo", "hello world", "");
    EchoPieces();
    assert "*2\r\n" + ("$4\r\necho\r\n" + "$11\r\nhello world\r\n")
           == "*2\r\n$4\r\necho\r\n$11\r\nhello world\r\n";
  }

  /** The pieces of the `echo` request, each on its own. */
  lemma EchoPieces()
    ensures Header('*', 2) == "*2\r\n"
    ensures BulkString("echo") == "$4\r\necho\r\n"
    ensures BulkString("hello world") == "$11\r\nhello world\r\n"
  {
    SmallHeaders();
  }

  /** A two-element list of short strings encodes element by element. */
  lemma SerializeGet()
    ensures Serialize(Arr([Str("get"), Str("key")])) == Success("*2\r\n$3\r\nget\r\n$3\r\nkey\r\n")
  {
    TwoItems("get", "key");
    SerializeArrayOf([Str("get"), Str("key")], BulkString("get") + BulkString("key"));
    SmallHeaders();
    assert Header('*', 2) + (BulkString("get") + BulkString("key"))
           == "*2\r\n$3\r\nget\r\n$3\r\nkey\r\n";
  }

  /** A three-element list encodes element by element, in order. */
  lemma SerializeSet()
    ensures Serialize(Arr([Str("set"), Str("key"), Str("value")]))
            == Success("*3\r\n$3\r\nset\r\n$3\r\nkey\r\n$5\r\nvalue\r\n")
  {
    hide *;
    StringListForms("set", "key", "value");
    SetPieces();
    assert "*3\r\n" + ("$3\r\nset\r\n" + ("$3\r\nkey\r\n" + "$5\r\nvalue\r\n"))
           == "*3\r\n$3\r\nset\r\n$3\r\nkey\r\n$5\r\nvalue\r\n";
  }

  /** The pieces of the `set` request, each on its own. */
  lemma SetPieces()
    ensures Header('*', 3) == "*3\r\n"
    ensures BulkString("set") == "$3\r\nset\r\n"
    ensures BulkString("key") == "$3\r\nkey\r\n"
    ensures BulkString("value") == "$5\r\nvalue\r\n"
  {
    SmallHeaders();
  }

  /** The empty string and `None` have their own bulk-string forms; an integer cannot be sent. */
  lemma SerializeScalars()
    ensures Serialize(Str("")) == Success("$0\r\n\r\n")
    ensures Serialize(Null) == Success("$-1\r\n")
    ensures Serialize(Int(5)) == Failure(RespErr)
  {
    SmallHeaders();
    BulkForm("");
    assert BulkString("") == "$0\r\n\r\n";
  }

  /** A simple string reads up to its CR LF. */
  lemma DeserializeOk()
    ensures Deserialize("+OK\r\n") == Success(Str("OK"))
  {
    assert "+OK\r\n" == ['+'] + "OK" + CRLF;
    LineForm('+', "OK");
  }

  /** A simple string may hold a space. */
  lemma DeserializeHelloWorld()
    ensures Deserialize("+hello world\r\n") == Success(Str("hello world"))
  {
    var text := "hello world";
    assert "+hello world\r\n" == ['+'] + text + CRLF;
    LineForm('+', text);
  }

  /** An error reply reads as the error dictionary, not as a string. */
  lemma DeserializeError()
    ensures Deserialize("-Error message\r\n") == Success(Err("Error message"))
  {
    var text := "Error message";
    assert "-Error message\r\n" == ['-'] + text + CRLF;
    LineForm('-', text);
  }

  /** `int("1000")` is 1000. */
  lemma ThousandReads()
    ensures ParseInt("1000") == Some(1000)
  {
    assert IntToString(1000) == "1000" by {
      assert NatToString(10) == "10";
      assert NatToString(100) == "100";
    }
    IntRoundTrip(1000);
  }

  /** An integer reply reads as its number. */
  lemma DeserializeInteger()
    ensures Deserialize(":1000\r\n") == Success(Int(1000))
  {
    var num := ":1000\r\n";
    assert num[1..5] == "1000";
    LineRead(num, 0, 5);
    ThousandReads();
  }


  /** A reply that is an encoding reads back as what it encodes. */
  lemma EncodingReadsBack(v: Value, enc: string)
    requires Serialize(v) == Success(enc)
    ensures Deserialize(enc) == Success(v)
  {
    hide *;
    TrailingDataIgnored(v, enc, "");
    assert enc + "" == enc;
  }

  /** `$0` is the empty string and `$-1` is `None`. */
  lemma DeserializeEmptyAndNull()
    ensures Deserialize("$0\r\n\r\n") == Success(Str(""))
    ensures Deserialize("$-1\r\n") == Success(Null)
  {
    SerializeScalars();
    EncodingReadsBack(Str(""), "$0\r\n\r\n");
    EncodingReadsBack(Null, "$-1\r\n");
  }

  /** A bulk string reads as its payload. */
  lemma DeserializeBulk()
    ensures Deserialize("$5\r\nvalue\r\n") == Success(Str("value"))
  {
    assert Serialize(Str("value")) == Success("$5\r\nvalue\r\n") by {
      SmallHeaders();
      BulkForm("value");
      assert BulkString("value") == "$5\r\nvalue\r\n";
    }
    EncodingReadsBack(Str("value"), "$5\r\nvalue\r\n");
  }

  /** An array of one bulk string reads as a one-element list. */
  lemma DeserializeArray()
    ensures Deserialize("*1\r\n$4\r\nping\r\n") == Success(Arr([Str("ping")]))
  {
    hide *;
    SerializePing();
    EncodingReadsBack(Arr([Str("ping")]), "*1\r\n$4\r\nping\r\n");
  }

  /** An array of two bulk strings, one holding a space, reads as a two-element list. */
  lemma DeserializeEchoArray()
    ensures Deserialize("*2\r\n$4\r\necho\r\n$11\r\nhello world\r\n")
            == Success(Arr([Str("echo"), Str("hello world")]))
  {
    hide *;
    SerializeEcho();
    EncodingReadsBack(Arr([Str("echo"), Str("hello world")]), "*2\r\n$4\r\necho\r\n$11\r\nhello world\r\n");
  }

  /** `*-1` is the null array and reads as `None`. */
  lemma DeserializeNullArray()
    ensures Deserialize("*-1\r\n") == Success(Null)
  {
    SmallHeaders();
    var nullArray := "*-1\r\n";
    assert nullArray[0..5] == Header('*', -1) by {
      assert NatToString(1) == "1";
    }
    MinusOneIsNull(nullArray, 0, '*');
  }

  /** `$-2` passes the length check and reads as the empty string, ending where the header ends. */
  lemma DeserializeMinusTwo()
    ensures Deserialize("$-2\r\n") == Success(Str(""))
  {
    var data := "$-2\r\n";
    assert Header('$', -2) == data by {
      assert NatToString(2) == "2";
    }
    assert data[0..5] == data;
    NegativeLengthEmpty(data, 0, -2);
  }

  /** `$-6` at the start slices from after the header up to the last character but one. */
  lemma DeserializeMinusSix()
    ensures Deserialize("$-6\r\nabcd") == Success(Str("abc"))
  {
    var data := "$-6\r\nabcd";
    assert Header('$', -6) == data[0..5] by {
      assert NatToString(6) == "6";
    }
    NegativeLengthWraps(data, 0, -6);
    assert data[5..8] == "abc";
  }

  /** `$-7` moves the position back onto the tag, which this model does not follow. */
  lemma DeserializeMinusSeven()
    ensures Deserialize("$-7\r\n") == Failure(Unmodelled)
  {
    var data := "$-7\r\n";
    assert Header('$', -7) == data by {
      assert NatToString(7) == "7";
    }
    assert data[0..5] == data;
    NegativeLengthUnmodelled(data, 0, -7);
  }

  /** `int()` accepts leading zeros: `-007` and `-07` both read as -7. */
  lemma PaddedSevenReads()
    ensures ParseInt("-007") == Some(-7) && ParseInt("-07") == Some(-7)
  {
    assert "-007"[1..] == "007" && "-07"[1..] == "07";
    assert "007"[..2] == "00" && "00"[..1] == "0" && "07"[..1] == "0" && "0"[..0] == "";
    assert DigitsValue("0") == 0;
    assert DigitsValue("00") == 0;
    assert DigitsValue("007") == 7;
    assert DigitsValue("07") == 7;
  }

  /**
   * `$-007` is -7 written with leading zeros; its longer header keeps the
   * next position after the tag, so it reads as the empty string.
   */
  lemma DeserializePaddedMinusSeven()
    ensures Deserialize("$-007\r\n") == Success(Str(""))
  {
    var data := "$-007\r\n";
    assert Find(data, 1) == Some(5);
    assert data[1..5] == "-007";
    PaddedSevenReads();
    assert ReadHeader(data, 0) == Success((-7, 7));
    NegativeBulkRead(data, 0, -7, 7);
  }

  /** `$-07` at the start has a slice end of -1, which counts from the end of the data. */
  lemma DeserializePaddedWrap()
    ensures Deserialize("$-07\r\nabcd") == Success(Str("abc"))
  {
    var data := "$-07\r\nabcd";
    assert Find(data, 1) == Some(4);
    assert data[1..4] == "-07";
    PaddedSevenReads();
    assert ReadHeader(data, 0) == Success((-7, 6));
    NegativeBulkRead(data, 0, -7, 6);
    assert data[6..9] == "abc";
  }

  /** `~` is not a RESP version 2 tag. */
  lemma DeserializeUnknownTag()
    ensures Deserialize("~NotValid\r\n") == Failure(RespErr)
  {
    UnknownTagRejected("~NotValid\r\n");
  }

  /** An array that announces two elements but holds one fails with `RESPError`. */
  lemma DeserializeMissingElement()
    ensures Deserialize("*2\r\n$3\r\nfoo\r\n") == Failure(RespErr)
  {
    SmallHeaders();
    var items := [Str("foo"), Str("")];
    var enc := "*2\r\n$3\r\nfoo\r\n$0\r\n\r\n";
    assert Serialize(Arr(items)) == Success(enc) by {
      StringListForms("foo", "", "");
      assert Header('*', 2) + (BulkString("foo") + BulkString("")) == enc;
    }
    PrefixRejected(Arr(items), enc, 13);
    assert enc[..13] == "*2\r\n$3\r\nfoo\r\n";
  }
}
