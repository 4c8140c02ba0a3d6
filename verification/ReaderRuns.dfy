/** Whole runs of requests against a reader, and reading a stream line by line. */
module ReaderRuns {
  import opened Sequences
  import opened Sizes
  import opened ReaderOutcomes
  import opened Readers

  datatype Request = Byte | Array(count: nat) | Delimiter(d: bv8)

  function Answer(pending: seq<bv8>, q: Request, capacity: nat): (r: Outcome)
    ensures r.bytes <= pending
    ensures r.status != OK ==> r.bytes == []
  {
    match q
    case Byte => ByteOutcome(pending)
    case Array(count) => ArrayOutcome(pending, count, capacity)
    case Delimiter(d) => DelimiterOutcome(pending, d, capacity)
  }

  function Serve(pending: seq<bv8>, qs: seq<Request>, capacity: nat): (rs: seq<Outcome>)
    ensures |rs| == |qs|
    decreases |qs|
  {
    if qs == [] then []
    else
      var r := Answer(pending, qs[0], capacity);
      [r] + Serve(pending[|r.bytes|..], qs[1..], capacity)
  }

  function Concat(rs: seq<Outcome>): seq<bv8>
  {
    if rs == [] then [] else rs[0].bytes + Concat(rs[1..])
  }

  // What is still to come after a run.
  function Left(pending: seq<bv8>, qs: seq<Request>, capacity: nat): seq<bv8>
    decreases |qs|
  {
    if qs == [] then pending
    else Left(pending[|Answer(pending, qs[0], capacity).bytes|..], qs[1..], capacity)
  }

  /** The bytes handed out over a run are a prefix of the stream: none is lost, repeated or reordered. */
  lemma {:induction false} ServeInOrder(pending: seq<bv8>, qs: seq<Request>, capacity: nat)
    ensures Concat(Serve(pending, qs, capacity)) + Left(pending, qs, capacity) == pending
    decreases |qs|
  {
    if qs != [] {
      var r := Answer(pending, qs[0], capacity);
      var rest := pending[|r.bytes|..];
      ServeInOrder(rest, qs[1..], capacity);
      assert pending == r.bytes + rest;
      ConcatCons(r, Serve(rest, qs[1..], capacity));
      Associate(r.bytes, Concat(Serve(rest, qs[1..], capacity)), Left(rest, qs[1..], capacity));
    }
  }

  lemma ConcatCons(r: Outcome, rs: seq<Outcome>)
    ensures Concat([r] + rs) == r.bytes + Concat(rs)
  {
  }

  lemma {:induction false} ServeSnoc(pending: seq<bv8>, qs: seq<Request>, q: Request, capacity: nat)
    ensures Serve(pending, qs + [q], capacity) ==
            Serve(pending, qs, capacity) + [Answer(Left(pending, qs, capacity), q, capacity)]
    decreases |qs|
  {
    if qs == [] {
      assert [] + [q] == [q] + [];
      ServeCons(pending, q, [], capacity);
    } else {
      var rest := pending[|Answer(pending, qs[0], capacity).bytes|..];
      ServeSnoc(rest, qs[1..], q, capacity);
      ServeCons(pending, qs[0], qs[1..] + [q], capacity);
      assert qs + [q] == [qs[0]] + (qs[1..] + [q]);
    }
  }

  lemma ServeCons(pending: seq<bv8>, q: Request, qs: seq<Request>, capacity: nat)
    ensures var r := Answer(pending, q, capacity);
            Serve(pending, [q] + qs, capacity) == [r] + Serve(pending[|r.bytes|..], qs, capacity)
  {
  }

  lemma {:induction false} ConcatSnoc(rs: seq<Outcome>, r: Outcome)
    ensures Concat(rs + [r]) == Concat(rs) + r.bytes
  {
    if rs == [] {
      assert [r][1..] == [];
    } else {
      assert (rs + [r])[1..] == rs[1..] + [r];
      ConcatSnoc(rs[1..], r);
    }
  }

  lemma SameRest(a: seq<bv8>, b: seq<bv8>, c: seq<bv8>)
    requires a + b == a + c
    ensures b == c
  {
    assert (a + b)[|a|..] == b && (a + c)[|a|..] == c;
  }

  method Ask(r: Reader, q: Request) returns (out: Outcome)
    requires r.Valid()
    modifies r, r.data, r.source
    ensures r.Valid()
    ensures r.source.reliable ==> out == Answer(old(r.Pending()), q, r.capacity)
    ensures r.consumed == old(r.consumed) + out.bytes && out.bytes + r.Pending() == old(r.Pending())
  {
    match q
    case Byte =>
      var st, b := r.TakeByte();
      out := Outcome(st, if st == OK then [b] else []);
    case Array(count) =>
      var st, c := r.TakeArray(count);
      out := Outcome(st, if st == OK then r.data[c.start..c.start + c.len] else []);
    case Delimiter(d) =>
      var st, c := r.TakeDelimiter(d);
      out := Outcome(st, if st == OK then r.data[c.start..c.start + c.len] else []);
  }

  /**
   Chunking is unobservable: over a reliable source every run of requests is answered as
   `Serve` says, whatever lengths the source chooses for its deliveries.
   */
  method Converse(r: Reader, qs: seq<Request>) returns (rs: seq<Outcome>)
    requires r.Valid()
    modifies r, r.data, r.source
    ensures r.Valid()
    ensures r.source.reliable ==> rs == Serve(old(r.Pending()), qs, r.capacity)
    ensures r.consumed == old(r.consumed) + Concat(rs) && Concat(rs) + r.Pending() == old(r.Pending())
  {
    ghost var start := r.Pending();
    rs := [];
    for i := 0 to |qs|
      invariant r.Valid() && r.consumed == old(r.consumed) + Concat(rs)
      invariant Answered(start, qs[..i], rs, r.Pending(), r.capacity, r.source.reliable)
    {
      ghost var before, got := r.Pending(), Concat(rs);
      var out := Ask(r, qs[i]);
      AnsweredMore(start, qs[..i], qs[i], rs, before, out, r.Pending(), r.capacity, r.source.reliable);
      Associate(old(r.consumed), got, out.bytes);
      assert qs[..i + 1] == qs[..i] + [qs[i]];
      rs := rs + [out];
    }
    assert qs[..|qs|] == qs;
  }

  // The run `qs` over the stream `start` has given `rs` and leaves `left`.
  ghost predicate Answered(start: seq<bv8>, qs: seq<Request>, rs: seq<Outcome>, left: seq<bv8>, capacity: nat,
                           reliable: bool)
  {
    Concat(rs) + left == start && (reliable ==> rs == Serve(start, qs, capacity))
  }

  lemma AnsweredMore(start: seq<bv8>, qs: seq<Request>, q: Request, rs: seq<Outcome>, before: seq<bv8>,
                     out: Outcome, after: seq<bv8>, capacity: nat, reliable: bool)
    requires Answered(start, qs, rs, before, capacity, reliable) && out.bytes + after == before
    requires reliable ==> out == Answer(before, q, capacity)
    ensures Answered(start, qs + [q], rs + [out], after, capacity, reliable)
    ensures Concat(rs + [out]) == Concat(rs) + out.bytes
  {
    ConcatSnoc(rs, out);
    Associate(Concat(rs), out.bytes, after);
    if reliable {
      ServeInOrder(start, qs, capacity);
      SameRest(Concat(rs), before, Left(start, qs, capacity));
      ServeSnoc(start, qs, q, capacity);
    }
  }

  // ---------- line by line ----------

  /** The stream cut after every delimiter. */
  function Lines(s: seq<bv8>, d: bv8): seq<seq<bv8>>
    decreases |s|
  {
    if s == [] then []
    else
      var i := Find(s, d);
      if i == |s| then [s] else [s[..i + 1]] + Lines(s[i + 1..], d)
  }

  function Flatten(ls: seq<seq<bv8>>): seq<bv8>
  {
    if ls == [] then [] else ls[0] + Flatten(ls[1..])
  }

  // A terminated line may fill the buffer; an unterminated one must leave room for one byte.
  predicate LineFits(line: seq<bv8>, d: bv8, capacity: nat)
  {
    if d in line then |line| <= capacity else |line| < capacity
  }

  /** Putting the lines together again gives the stream. */
  lemma {:induction false} LinesJoin(s: seq<bv8>, d: bv8)
    ensures Flatten(Lines(s, d)) == s
    decreases |s|
  {
    if s != [] {
      var i := Find(s, d);
      if i == |s| {
        assert Lines(s, d)[1..] == [];
      } else {
        LinesJoin(s[i + 1..], d);
        FlattenCons(s[..i + 1], Lines(s[i + 1..], d));
        assert s == s[..i + 1] + s[i + 1..];
      }
    }
  }

  lemma FlattenCons(line: seq<bv8>, ls: seq<seq<bv8>>)
    ensures Flatten([line] + ls) == line + Flatten(ls)
  {
  }

  // `d` occurs in a line only as its last byte.
  predicate IsLine(line: seq<bv8>, d: bv8)
  {
    line != [] && d !in line[..|line| - 1]
  }

  /** Every piece is a line, and all but the last end in the delimiter. */
  lemma {:induction false} LinesShape(s: seq<bv8>, d: bv8)
    ensures forall l :: l in Lines(s, d) ==> IsLine(l, d)
    ensures forall i :: 0 <= i < |Lines(s, d)| - 1 ==> d in Lines(s, d)[i]
    decreases |s|
  {
    if s != [] {
      var i := Find(s, d);
      if i == |s| {
        assert s[..i] == s;
        assert IsLine(s, d);
      } else {
        var line, rest := s[..i + 1], s[i + 1..];
        LinesShape(rest, d);
        assert line[..i] == s[..i] && line[i] == d;
      }
    }
  }

  function Repeat(q: Request, n: nat): (qs: seq<Request>)
    ensures |qs| == n
  {
    if n == 0 then [] else [q] + Repeat(q, n - 1)
  }

  function Delivered(ls: seq<seq<bv8>>): seq<Outcome>
  {
    if ls == [] then [Outcome(EOF, [])] else [Outcome(OK, ls[0])] + Delivered(ls[1..])
  }

  /** The next line comes out exactly when it fits; otherwise the call overflows. */
  lemma NextLine(s: seq<bv8>, d: bv8, capacity: nat)
    requires s != [] && capacity > 0
    ensures var line := Lines(s, d)[0];
            DelimiterOutcome(s, d, capacity) ==
            if LineFits(line, d, capacity) then Outcome(OK, line) else Outcome(OVERFLOW, [])
    ensures Lines(s, d)[1..] == Lines(s[|Lines(s, d)[0]|..], d)
  {
    LinesCons(s, d);
    var i := Find(s, d);
    if i == |s| {
      assert s[..|s|] == s;
    } else {
      assert s[..i + 1][i] == d;
    }
  }

  lemma LinesCons(s: seq<bv8>, d: bv8)
    requires s != []
    ensures var i := Find(s, d);
            && Lines(s, d)[0] == (if i == |s| then s else s[..i + 1])
            && Lines(s, d)[1..] == Lines(s[|Lines(s, d)[0]|..], d)
  {
    var i := Find(s, d);
    if i == |s| {
      assert s[|s|..] == [] && [s][1..] == [];
    } else {
      assert ([s[..i + 1]] + Lines(s[i + 1..], d))[1..] == Lines(s[i + 1..], d);
    }
  }

  /**
   Asking for delimited pieces until the end of the stream yields its lines one by one and then
   EOF exactly when every line fits the buffer.
   */
  lemma {:induction false} LinesServed(s: seq<bv8>, d: bv8, capacity: nat)
    requires capacity > 0
    ensures Serve(s, Repeat(Delimiter(d), |Lines(s, d)| + 1), capacity) == Delivered(Lines(s, d))
            <==> AllFit(Lines(s, d), d, capacity)
    decreases |s|
  {
    var ls := Lines(s, d);
    var qs := Repeat(Delimiter(d), |ls|);
    ServeCons(s, Delimiter(d), qs, capacity);
    if s != [] {
      NextLine(s, d, capacity);
      HeadAndTail(ls, d, capacity);
      if LineFits(ls[0], d, capacity) {
        var rest := s[|ls[0]|..];
        LinesServed(rest, d, capacity);
        SameTail(Outcome(OK, ls[0]), Serve(rest, qs, capacity), Delivered(ls[1..]));
      } else {
        assert Delivered(ls)[0].status == OK;
      }
    }
  }

  ghost predicate AllFit(ls: seq<seq<bv8>>, d: bv8, capacity: nat)
  {
    forall l :: l in ls ==> LineFits(l, d, capacity)
  }

  lemma HeadAndTail(ls: seq<seq<bv8>>, d: bv8, capacity: nat)
    requires ls != []
    ensures AllFit(ls, d, capacity) <==> LineFits(ls[0], d, capacity) && AllFit(ls[1..], d, capacity)
  {
  }

  lemma SameTail(r: Outcome, a: seq<Outcome>, b: seq<Outcome>)
    ensures [r] + a == [r] + b <==> a == b
  {
    assert ([r] + a)[1..] == a && ([r] + b)[1..] == b;
  }

  /** A line that does not fit blocks the stream: every further request for it overflows and consumes nothing. */
  lemma {:induction false} LongLineBlocks(s: seq<bv8>, d: bv8, capacity: nat, n: nat)
    requires capacity > 0 && s != [] && !LineFits(Lines(s, d)[0], d, capacity)
    ensures forall r :: r in Serve(s, Repeat(Delimiter(d), n), capacity) ==> r == Outcome(OVERFLOW, [])
  {
    if n > 0 {
      NextLine(s, d, capacity);
      assert s[0..] == s;
      var qs := Repeat(Delimiter(d), n);
      assert qs[0] == Delimiter(d) && qs[1..] == Repeat(Delimiter(d), n - 1);
      LongLineBlocks(s, d, capacity, n - 1);
    }
  }
}
