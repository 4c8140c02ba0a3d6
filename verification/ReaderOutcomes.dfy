/** What the reader's operations yield, as functions of the bytes still to come and the buffer size alone. */
module ReaderOutcomes {
  import opened Sizes

  datatype Outcome = Outcome(status: Status, bytes: seq<bv8>)

  function ByteOutcome(pending: seq<bv8>): Outcome
  {
    if pending == [] then Outcome(EOF, []) else Outcome(OK, pending[..1])
  }

  function ArrayOutcome(pending: seq<bv8>, count: nat, capacity: nat): Outcome
  {
    if count > capacity then Outcome(OVERFLOW, [])
    else if count > |pending| then Outcome(EOF, [])
    else Outcome(OK, pending[..count])
  }

  /** `memchr`: the index of the first `d`, or the length. */
  function Find(s: seq<bv8>, d: bv8): (i: nat)
    ensures i <= |s|
    ensures i < |s| ==> s[i] == d
    ensures d !in s[..i]
  {
    if s == [] then 0 else if s[0] == d then 0 else 1 + Find(s[1..], d)
  }

  function DelimiterOutcome(pending: seq<bv8>, d: bv8, capacity: nat): Outcome
  {
    var i := Find(pending, d);
    if pending == [] then Outcome(EOF, [])
    else if i < |pending| && i < capacity then Outcome(OK, pending[..i + 1])
    else if |pending| >= capacity then Outcome(OVERFLOW, [])
    else Outcome(OK, pending)
  }

  /**
   Nothing is left only of an exhausted stream, and a piece overflows only when a full buffer lacks
   the delimiter. A piece ends in the first delimiter, or is the short tail that has none.
   */
  lemma DelimiterExactly(pending: seq<bv8>, d: bv8, capacity: nat)
    requires capacity > 0
    ensures var r := DelimiterOutcome(pending, d, capacity);
            && r.status in {OK, EOF, OVERFLOW}
            && (r.status == EOF <==> pending == [])
            && (r.status == OVERFLOW <==> |pending| >= capacity && d !in pending[..capacity])
            && (r.status != OK ==> r.bytes == [])
            && (r.status == OK ==> 0 < |r.bytes| <= capacity && r.bytes <= pending)
            && (r.status == OK ==> d !in r.bytes[..|r.bytes| - 1])
            && (r.status == OK && d !in r.bytes ==> r.bytes == pending)
  {
    var i := Find(pending, d);
    if i < |pending| && i < capacity {
      assert pending[..i + 1][i] == d && pending[..i + 1][..i] == pending[..i];
      assert |pending| >= capacity ==> pending[..capacity][i] == d;
    } else if pending != [] {
      assert d !in pending[..i];
    }
  }

  lemma FirstIs(s: seq<bv8>, d: bv8, i: nat)
    requires i <= |s| && d !in s[..i] && (i < |s| ==> s[i] == d)
    ensures Find(s, d) == i
  {
  }

  lemma FindInPrefix(s: seq<bv8>, t: seq<bv8>, d: bv8)
    ensures Find(s, d) < |s| ==> Find(s + t, d) == Find(s, d)
    ensures Find(s, d) == |s| ==> Find(s + t, d) >= |s|
  {
    var i := Find(s, d);
    if i < |s| {
      assert (s + t)[..i] == s[..i];
      FirstIs(s + t, d, i);
    } else {
      assert s[..|s|] == s;
      forall j | 0 <= j < |s| ensures (s + t)[j] != d {
        assert (s + t)[j] == s[j];
      }
    }
  }

  /** What the buffered `window` already decides about the outcome on `window + rest`. */
  lemma DelimiterInWindow(window: seq<bv8>, rest: seq<bv8>, d: bv8, capacity: nat)
    requires |window| <= capacity && capacity > 0
    ensures var i, r := Find(window, d), DelimiterOutcome(window + rest, d, capacity);
            && (i < |window| ==> r == Outcome(OK, window[..i + 1]))
            && (i == |window| == capacity ==> r == Outcome(OVERFLOW, []))
            && (window == [] && rest == [] ==> r == Outcome(EOF, []))
            && (0 < i == |window| < capacity && rest == [] ==> r == Outcome(OK, window))
  {
    FindInPrefix(window, rest, d);
    var i := Find(window, d);
    if i < |window| {
      assert (window + rest)[..i + 1] == window[..i + 1];
    }
    if rest == [] {
      assert window + rest == window;
    }
  }
}
