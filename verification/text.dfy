/** Concatenation of a sequence of strings, as `"".join(parts)` and `data += chunk` build it. */
module Text {

  /** All the parts, in order, with nothing between them. */
  function Concat(parts: seq<string>): (r: string)
    ensures r == "" <==> forall k :: 0 <= k < |parts| ==> parts[k] == ""
  {
    if |parts| == 0 then ""
    else
      var front := parts[..|parts| - 1];
      assert forall k :: 0 <= k < |front| ==> front[k] == parts[k];
      Concat(front) + parts[|parts| - 1]
  }

  /** The concatenation of a whole sequence is that of a prefix followed by that of the rest. */
  lemma {:induction false} ConcatSplit(parts: seq<string>, m: nat)
    requires m <= |parts|
    ensures Concat(parts) == Concat(parts[..m]) + Concat(parts[m..])
    decreases |parts|
  {
    if m == |parts| {
      assert parts[..m] == parts;
      assert parts[m..] == [];
    } else {
      var n := |parts| - 1;
      var front := parts[..n];
      ConcatSplit(front, m);
      assert front[..m] == parts[..m];
      assert front[m..] == parts[m..n];
      assert parts[m..][..|parts[m..]| - 1] == parts[m..n];
    }
  }

  /** Appending one part appends its text. */
  lemma ConcatAppend(parts: seq<string>, x: string)
    ensures Concat(parts + [x]) == Concat(parts) + x
  {
    assert (parts + [x])[..|parts|] == parts;
  }

  /** Prepending one part prepends its text. */
  lemma ConcatPrepend(x: string, parts: seq<string>)
    ensures Concat([x] + parts) == x + Concat(parts)
  {
    var all := [x] + parts;
    ConcatSplit(all, 1);
    assert all[..1] == [x];
    assert all[1..] == parts;
    assert Concat([x]) == Concat([]) + x;
  }

  /** Parts that are all non-empty have a concatenation at least as long as their number. */
  lemma {:induction false} ConcatLength(parts: seq<string>)
    requires forall k :: 0 <= k < |parts| ==> parts[k] != ""
    ensures |Concat(parts)| >= |parts|
    decreases |parts|
  {
    if |parts| > 0 {
      ConcatLength(parts[..|parts| - 1]);
    }
  }
}
