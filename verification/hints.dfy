/**
 * Command syntax hints from `ccredis_cli.py`: the hint text built for every
 * command of the table (`load_redis_commands`) and the lookup the prompt's
 * toolbar makes with what the user has typed so far (`get_hint`).
 *
 * The command table is given in memory, in the order of its JSON object.
 * `str.upper()` is modelled on ASCII letters and `str.split()` on ASCII
 * whitespace.
 */
module Hints {
  import opened Optional
  import opened Text

  /** One entry of a command's `arguments` list; `None` is a missing key. */
  datatype Arg = Arg(displayText: Option<string>, name: Option<string>, optional: bool)

  /** One command of the table: its key, and its `arguments` (an absent list is empty). */
  datatype Command = Command(name: string, arguments: seq<Arg>)

  // ------------------------------------------------------------- characters

  function UpperChar(c: char): char {
    if 'a' <= c <= 'z' then (c as int - 32) as char else c
  }

  /** `s.upper()` on ASCII: lower-case letters become capitals, everything else stays. */
  function Upper(s: string): (r: string)
    ensures |r| == |s|
    ensures forall k :: 0 <= k < |s| ==> r[k] == UpperChar(s[k])
  {
    if |s| == 0 then "" else [UpperChar(s[0])] + Upper(s[1..])
  }

  /** The characters `str.split()` and `str.strip()` treat as whitespace, in ASCII. */
  predicate IsSpace(c: char) {
    // space, tab to carriage return (9-13), and the separators 28-31
    c == ' ' || ('\t' <= c <= '\r') || (28 <= c as int <= 31)
  }

  predicate NoSpace(s: string) {
    forall k :: 0 <= k < |s| ==> !IsSpace(s[k])
  }

  predicate AllSpace(s: string) {
    forall k :: 0 <= k < |s| ==> IsSpace(s[k])
  }

  // ---------------------------------------------------------- syntax hints

  /**
   * `arg.get("display_text") or arg.get("name", "")`: an empty display text
   * falls back too. The text is empty exactly when neither gives any, and
   * otherwise it is the display text, or the name when the display text is
   * missing or empty.
   */
  function ArgText(a: Arg): (r: string)
    ensures r == "" <==> a.displayText.GetOr("") == "" && a.name.GetOr("") == ""
    ensures r != "" ==> r == a.displayText.GetOr("") || (a.displayText.GetOr("") == "" && r == a.name.GetOr(""))
  {
    match a.displayText
    case Some(t) => if t != "" then t else a.name.GetOr("")
    case None => a.name.GetOr("")
  }

  /** An argument's token in the hint: its text, bracketed when the argument is optional. */
  function ArgToken(a: Arg): (r: string)
    ensures |r| == |ArgText(a)| + (if a.optional then 2 else 0)
    ensures a.optional ==> r[0] == '[' && r[1..|r| - 1] == ArgText(a) && r[|r| - 1] == ']'
    ensures !a.optional ==> r == ArgText(a)
    ensures r == "" <==> !a.optional && ArgText(a) == ""
  {
    if a.optional then "[" + ArgText(a) + "]" else ArgText(a)
  }

  /** The tokens the argument loop appends, one per argument: token `k` is argument `k`'s. */
  function Tokens(args: seq<Arg>): (r: seq<string>)
    ensures |r| == |args|
    ensures forall k :: 0 <= k < |args| ==> r[k] == ArgToken(args[k])
  {
    if |args| == 0 then []
    else
      var front := args[..|args| - 1];
      assert forall k :: 0 <= k < |front| ==> front[k] == args[k];
      Tokens(front) + [ArgToken(args[|args| - 1])]
  }

  /** `" ".join(parts)`: the parts with one space between neighbours. */
  function Join(parts: seq<string>): (r: string)
    ensures |parts| > 0 ==> |parts[0]| <= |r| && r[..|parts[0]|] == parts[0]
    ensures |parts| > 1 ==> |parts[0]| < |r| && r[|parts[0]|] == ' '
  {
    if |parts| == 0 then ""
    else if |parts| == 1 then parts[0]
    else
      var r := parts[0] + " " + Join(parts[1..]);
      assert r[..|parts[0]|] == parts[0];
      r
  }

  /** Each part with one space in front of it. */
  function SpaceBefore(parts: seq<string>): (r: seq<string>)
    ensures |r| == |parts|
  {
    seq(|parts|, k requires 0 <= k < |parts| => " " + parts[k])
  }

  /** The `syntax_hint` of a command: it starts with the upper-cased name, followed by a space when there are arguments. */
  function SyntaxHint(c: Command): (r: string)
    ensures |c.name| <= |r| && r[..|c.name|] == Upper(c.name)
    ensures |c.arguments| > 0 ==> |c.name| < |r| && r[|c.name|] == ' '
  {
    Join([Upper(c.name)] + Tokens(c.arguments))
  }

  /**
   * The hint is the upper-cased name, then for every argument a space and
   * its token, whatever the tokens hold: an empty token leaves two spaces in
   * a row, and a display text holding a space is kept whole.
   */
  lemma SyntaxHintForm(c: Command)
    ensures SyntaxHint(c) == Upper(c.name) + Concat(SpaceBefore(Tokens(c.arguments)))
  {
    JoinSpaced(Upper(c.name), Tokens(c.arguments));
  }

  /** Joining a first part and the rest is the first part followed by each other part after a space. */
  lemma {:induction false} JoinSpaced(x: string, rest: seq<string>)
    ensures Join([x] + rest) == x + Concat(SpaceBefore(rest))
    decreases |rest|
  {
    hide *;
    JoinFirst(x, rest);
    if |rest| > 0 {
      assert rest == [rest[0]] + rest[1..];
      JoinSpaced(rest[0], rest[1..]);
      SpaceBeforeFirst(rest);
      ConcatPrepend(" " + rest[0], SpaceBefore(rest[1..]));
      var tail := Concat(SpaceBefore(rest[1..]));
      assert x + " " + (rest[0] + tail) == x + ((" " + rest[0]) + tail);
    }
  }

  /** One step of `Join`: the first part alone, or the first part, a space, and the join of the rest. */
  lemma JoinFirst(x: string, rest: seq<string>)
    ensures |rest| == 0 ==> Join([x] + rest) == x && Concat(SpaceBefore(rest)) == "" && x + "" == x
    ensures |rest| > 0 ==> Join([x] + rest) == x + " " + Join(rest)
  {
    assert ([x] + rest)[1..] == rest;
  }

  /** One step of `SpaceBefore`. */
  lemma SpaceBeforeFirst(parts: seq<string>)
    requires |parts| > 0
    ensures SpaceBefore(parts) == [" " + parts[0]] + SpaceBefore(parts[1..])
  {
  }


  /**
   * The hints `load_redis_commands` stores, keyed by upper-cased command name.
   * Two keys that upper-case alike share an entry, and the later one wins.
   */
  function LoadHints(table: seq<Command>): (r: map<string, string>)
    ensures r.Keys == set k | 0 <= k < |table| :: Upper(table[k].name)
    ensures forall k :: 0 <= k < |table| && LastOfName(table, k) ==> r[Upper(table[k].name)] == SyntaxHint(table[k])
  {
    if |table| == 0 then map[]
    else
      var front := table[..|table| - 1];
      var last := table[|table| - 1];
      var r := LoadHints(front)[Upper(last.name) := SyntaxHint(last)];
      LoadHintsStep(table, front, LoadHints(front), r);
      r
  }

  /** Storing the last entry's hint over the hints of the other entries gives the hints of the table. */
  lemma LoadHintsStep(table: seq<Command>, front: seq<Command>, prev: map<string, string>, r: map<string, string>)
    requires |table| > 0 && front == table[..|table| - 1]
    requires prev.Keys == set k | 0 <= k < |front| :: Upper(front[k].name)
    requires forall k :: 0 <= k < |front| && LastOfName(front, k) ==> prev[Upper(front[k].name)] == SyntaxHint(front[k])
    requires r == prev[Upper(table[|table| - 1].name) := SyntaxHint(table[|table| - 1])]
    ensures r.Keys == set k | 0 <= k < |table| :: Upper(table[k].name)
    ensures forall k :: 0 <= k < |table| && LastOfName(table, k) ==> r[Upper(table[k].name)] == SyntaxHint(table[k])
  {
    hide *;
    LoadHintsKeys(table, front, prev.Keys, r.Keys);
    forall k | 0 <= k < |table| && LastOfName(table, k)
      ensures r[Upper(table[k].name)] == SyntaxHint(table[k])
    {
      if k < |table| - 1 {
        LastOfNameFront(table, front, k);
      }
    }
  }

  /** An entry of the front that is the last of its name in the table is so in the front too, and differs from the last entry. */
  lemma LastOfNameFront(table: seq<Command>, front: seq<Command>, k: nat)
    requires |table| > 0 && front == table[..|table| - 1]
    requires k < |table| - 1 && LastOfName(table, k)
    ensures front[k] == table[k]
    ensures Upper(table[|table| - 1].name) != Upper(table[k].name)
    ensures LastOfName(front, k)
  {
    forall j | k < j < |front|
      ensures Upper(front[j].name) != Upper(front[k].name)
    {
      assert front[j] == table[j];
    }
  }

  /** The keys of the table are those of its front and the last entry's. */
  lemma LoadHintsKeys(table: seq<Command>, front: seq<Command>, prev: set<string>, keys: set<string>)
    requires |table| > 0 && front == table[..|table| - 1]
    requires prev == set k | 0 <= k < |front| :: Upper(front[k].name)
    requires keys == prev + {Upper(table[|table| - 1].name)}
    ensures keys == set k | 0 <= k < |table| :: Upper(table[k].name)
  {
    var n := |table| - 1;
    var all := set k | 0 <= k < |table| :: Upper(table[k].name);
    forall key | key in all
      ensures key in keys
    {
      var k :| 0 <= k < |table| && Upper(table[k].name) == key;
      if k < n {
        assert front[k] == table[k];
      }
    }
    forall key | key in keys
      ensures key in all
    {
      var k := n;
      if key != Upper(table[n].name) {
        k :| 0 <= k < |front| && Upper(front[k].name) == key;
        assert front[k] == table[k];
      }
      assert 0 <= k < |table| && Upper(table[k].name) == key;
    }
  }

  /** No later entry of the table upper-cases to the same name as entry `k`. */
  ghost predicate LastOfName(table: seq<Command>, k: nat)
    requires k < |table|
  {
    forall j :: k < j < |table| ==> Upper(table[j].name) != Upper(table[k].name)
  }

  // ----------------------------------------------------------- typed input

  /** The first whitespace character of `s` at or after `from`, or `|s|` when there is none. */
  function NextSpace(s: string, from: nat): (r: nat)
    requires from <= |s|
    ensures from <= r <= |s|
    ensures r < |s| ==> IsSpace(s[r])
    ensures forall k :: from <= k < r ==> !IsSpace(s[k])
    decreases |s| - from
  {
    if from == |s| || IsSpace(s[from]) then from else NextSpace(s, from + 1)
  }

  /** `s.split()`: the maximal runs of non-whitespace characters, in order. */
  function Words(s: string): (r: seq<string>)
    ensures forall k :: 0 <= k < |r| ==> |r[k]| > 0 && NoSpace(r[k])
    decreases |s|
  {
    if |s| == 0 then []
    else if IsSpace(s[0]) then Words(s[1..])
    else
      var n := NextSpace(s, 0);
      assert forall k :: 0 <= k < n ==> s[..n][k] == s[k];
      [s[..n]] + Words(s[n..])
  }

  /**
   * `get_hint(text)`: the stored hint of the first word typed, upper-cased;
   * `""` when nothing but whitespace was typed or the command is unknown.
   * Stripping `text` first changes nothing, since `split()` already drops
   * whitespace at both ends.
   */
  function GetHint(hints: map<string, string>, text: string): (r: string)
    ensures r == "" || r in hints.Values
  {
    var parts := Words(text);
    if |parts| == 0 then ""
    else
      var cmd := Upper(parts[0]);
      if cmd in hints then hints[cmd] else ""
  }

  // ------------------------------------------------------------ properties

  /** Upper-casing twice is upper-casing once, so "get", "Get" and "GET" meet at one key. */
  lemma UpperIdempotent(s: string)
    ensures Upper(Upper(s)) == Upper(s)
    ensures forall k :: 0 <= k < |s| ==> !('a' <= Upper(s)[k] <= 'z')
  {
  }

  /** Whitespace in front of the text changes none of its words. */
  lemma {:induction false} WordsSkipSpace(pre: string, s: string)
    requires AllSpace(pre)
    ensures Words(pre + s) == Words(s)
    decreases |pre|
  {
    if |pre| > 0 {
      assert (pre + s)[1..] == pre[1..] + s;
      WordsSkipSpace(pre[1..], s);
    } else {
      assert pre + s == s;
    }
  }

  /** The first word of `s` ends at `m` when `m` is where whitespace or the text begins. */
  lemma WordEndsAt(s: string, m: nat)
    requires m <= |s|
    requires forall k :: 0 <= k < m ==> !IsSpace(s[k])
    requires m < |s| ==> IsSpace(s[m])
    ensures NextSpace(s, 0) == m
  {
  }

  /** A word followed by the end of the text or by whitespace is the text's first word. */
  lemma FirstWord(w: string, post: string)
    requires |w| > 0 && NoSpace(w)
    requires post == "" || IsSpace(post[0])
    ensures Words(w + post) == [w] + Words(post)
  {
    var s := w + post;
    WordEndsAt(s, |w|);
    var n := NextSpace(s, 0);
    assert s[..n] == w;
    assert s[n..] == post;
  }

  /** Text of whitespace only has no words. */
  lemma NoWords(s: string)
    requires AllSpace(s)
    ensures Words(s) == []
  {
    WordsSkipSpace(s, "");
    assert s + "" == s;
  }

  /** Splitting what `" ".join` built gives back the parts, when none is empty or holds whitespace. */
  lemma {:induction false} SplitJoin(parts: seq<string>)
    requires forall k :: 0 <= k < |parts| ==> |parts[k]| > 0 && NoSpace(parts[k])
    ensures Words(Join(parts)) == parts
    decreases |parts|
  {
    if |parts| == 1 {
      FirstWord(parts[0], "");
      assert parts[0] + "" == parts[0];
    } else if |parts| > 1 {
      var rest := Join(parts[1..]);
      assert parts[0] + " " + rest == parts[0] + (" " + rest);
      FirstWord(parts[0], " " + rest);
      WordsSkipSpace(" ", rest);
      SplitJoin(parts[1..]);
      assert [parts[0]] + parts[1..] == parts;
    }
  }

  /**
   * The hint is the upper-cased name and then one token per argument, in
   * order, each token the argument's display text (else its name, else
   * nothing), bracketed when optional, all separated by single spaces:
   * splitting it at whitespace gives those tokens back whenever they are
   * non-empty and hold no whitespace.
   */
  lemma SyntaxHintTokens(c: Command)
    requires |c.name| > 0 && NoSpace(c.name)
    requires forall k :: 0 <= k < |c.arguments| ==> |ArgToken(c.arguments[k])| > 0 && NoSpace(ArgToken(c.arguments[k]))
    ensures Words(SyntaxHint(c)) == [Upper(c.name)] + Tokens(c.arguments)
    ensures forall k :: 0 <= k < |c.arguments| ==>
              Words(SyntaxHint(c))[k + 1] == (if c.arguments[k].optional then "[" + ArgText(c.arguments[k]) + "]"
                                              else ArgText(c.arguments[k]))
  {
    var parts := [Upper(c.name)] + Tokens(c.arguments);
    forall k | 0 <= k < |parts|
      ensures |parts[k]| > 0 && NoSpace(parts[k])
    {
      if k > 0 {
        assert parts[k] == ArgToken(c.arguments[k - 1]);
      }
    }
    SplitJoin(parts);
  }

  /**
   * An argument with neither display text nor name still gets its (empty)
   * token, leaving two spaces in a row, and a display text holding a space
   * is kept whole: such a hint does not split back into its tokens.
   */
  lemma SyntaxHintOddTokens()
    ensures SyntaxHint(Command("get", [Arg(None, None, false), Arg(Some("a b"), None, true)])) == "GET  [a b]"
  {
    hide *;
    var c := Command("get", [Arg(None, None, false), Arg(Some("a b"), None, true)]);
    SyntaxHintForm(c);
    OddTokens();
    OddSpaced();
    assert "GET" + "  [a b]" == "GET  [a b]";
  }

  /** The tokens of an argument with nothing to show and of an optional one with a spaced display text. */
  lemma OddTokens()
    ensures Tokens([Arg(None, None, false), Arg(Some("a b"), None, true)]) == ["", "[a b]"]
  {
    var tokens := Tokens([Arg(None, None, false), Arg(Some("a b"), None, true)]);
    assert tokens[0] == ArgToken(Arg(None, None, false)) == "";
    assert tokens[1] == ArgToken(Arg(Some("a b"), None, true)) == "[a b]";
  }

  /** Spacing out and joining those two tokens, and the upper-cased command name. */
  lemma OddSpaced()
    ensures Upper(Command("get", [Arg(None, None, false), Arg(Some("a b"), None, true)]).name) == "GET"
    ensures Concat(SpaceBefore(["", "[a b]"])) == "  [a b]"
  {
    assert Upper("get") == "GET";
    var spaced := SpaceBefore(["", "[a b]"]);
    assert spaced[0] == " " && spaced[1] == " [a b]";
    assert spaced == [" ", " [a b]"];
    ConcatPrepend(" ", [" [a b]"]);
    ConcatPrepend(" [a b]", []);
    assert [" [a b]"] == [" [a b]"] + [];
  }

  /** `get_hint` of text with nothing but whitespace is empty. */
  lemma BlankHint(hints: map<string, string>, text: string)
    requires AllSpace(text)
    ensures GetHint(hints, text) == ""
  {
    NoWords(text);
  }

  /**
   * `get_hint` looks up the first word typed, upper-cased, whatever
   * whitespace comes before it and whatever follows it.
   */
  lemma HintOfFirstWord(hints: map<string, string>, pre: string, w: string, post: string)
    requires AllSpace(pre) && |w| > 0 && NoSpace(w)
    requires post == "" || IsSpace(post[0])
    ensures GetHint(hints, pre + w + post) == (if Upper(w) in hints then hints[Upper(w)] else "")
  {
    hide *;
    var text := pre + w + post;
    assert text == pre + (w + post);
    WordsSkipSpace(pre, w + post);
    FirstWord(w, post);
    assert Words(text) == [w] + Words(post);
    HintOfWords(hints, text, w);
  }

  /** `get_hint` looks up the first word, upper-cased. */
  lemma HintOfWords(hints: map<string, string>, text: string, w: string)
    requires |Words(text)| > 0 && Words(text)[0] == w
    ensures GetHint(hints, text) == (if Upper(w) in hints then hints[Upper(w)] else "")
  {
  }

  /**
   * With the hints of a command table, typing a command name in any case
   * shows the hint of the last table entry with that name, and typing a name
   * the table lacks shows nothing.
   */
  lemma HintFromTable(table: seq<Command>, pre: string, w: string, post: string)
    requires AllSpace(pre) && |w| > 0 && NoSpace(w)
    requires post == "" || IsSpace(post[0])
    ensures forall k :: 0 <= k < |table| && Upper(table[k].name) == Upper(w) && LastOfName(table, k) ==>
              GetHint(LoadHints(table), pre + w + post) == SyntaxHint(table[k])
    ensures (forall k :: 0 <= k < |table| ==> Upper(table[k].name) != Upper(w)) ==>
              GetHint(LoadHints(table), pre + w + post) == ""
  {
    HintOfFirstWord(LoadHints(table), pre, w, post);
  }
}
