/** The buffered reader (lib/io/reader/reader.c) over a source that delivers in chunks of its own choosing. */
module Readers {
  import opened Sizes
  import opened ReaderOutcomes

  // The concrete reader behind the vtable.
  class Source {
    const reliable: bool
    var pending: seq<bv8>  // what it has yet to deliver
    ghost var delivered: seq<bv8>
    ghost var answers: seq<Status>  // of all reads so far

    constructor (stream: seq<bv8>, dependable: bool)
      ensures pending == stream && reliable == dependable && delivered == [] && answers == []
    {
      pending, reliable, delivered, answers := stream, dependable, [], [];
    }

    /**
     Writes up to `room` bytes at `data[at..]` and reports how many. A reliable source delivers
     at least one byte until it is exhausted, then none, with status OK or EOF. Any other source
     may stop short at any time and report anything, bytes or not. The rest of the room may be
     scribbled over.
     */
    method Read(data: array<bv8>, at: nat, room: nat) returns (n: nat, st: Status)
      requires room > 0 && at + room <= data.Length
      modifies this, data
      ensures n <= room && n <= |old(pending)|
      ensures data[at..at + n] == old(pending)[..n] && pending == old(pending)[n..]
      ensures delivered == old(delivered) + data[at..at + n] && answers == old(answers) + [st]
      ensures data[..at] == old(data[..at])
      ensures reliable ==> (n == 0 <==> old(pending) == []) && (n == 0 ==> st in {OK, EOF})
    {
      var want: int := *;
      n := if 0 <= want <= room then want else room;
      if n > |pending| {
        n := |pending|;
      }
      if reliable && n == 0 && pending != [] {
        n := 1;
      }
      st := *;
      if reliable && n == 0 && st != EOF {
        st := OK;
      }
      var chunk := pending[..n];
      pending := pending[n..];
      delivered, answers := delivered + chunk, answers + [st];
      Deliver(chunk, data, at, room);
    }

    static method Deliver(chunk: seq<bv8>, data: array<bv8>, at: nat, room: nat)
      requires |chunk| <= room && at + room <= data.Length
      modifies data
      ensures data[at..at + |chunk|] == chunk && data[..at] == old(data[..at])
    {
      for j := 0 to room
        invariant forall k :: 0 <= k < at ==> data[k] == old(data[k])
        invariant forall k :: at <= k < at + j && k < at + |chunk| ==> data[k] == chunk[k - at]
      {
        if j < |chunk| {
          data[at + j] := chunk[j];
        } else {
          data[at + j] := *;
        }
      }
    }
  }

  // A view into the reader's buffer, good until the next refill.
  datatype Cursor = Cursor(start: nat, len: nat)

  class Reader {
    const source: Source
    const data: array<bv8>
    const capacity: nat
    var pos: nat
    var len: nat
    ghost var consumed: seq<bv8>

    ghost function Window(): seq<bv8>
      reads this, data
      requires pos <= len <= data.Length
    {
      data[pos..len]
    }

    // What a caller can still take: the buffered bytes and those to come.
    ghost function Pending(): seq<bv8>
      reads this, data, source
      requires pos <= len <= data.Length
    {
      Window() + source.pending
    }

    ghost predicate Valid()
      reads this, data, source
    {
      && data.Length == capacity > 0
      && pos <= len <= capacity
      && consumed + Window() == source.delivered
    }

    constructor (src: Source, buffer: array<bv8>)
      requires buffer.Length > 0 && src.delivered == []
      ensures Valid() && source == src && data == buffer && capacity == buffer.Length
      ensures Pending() == src.pending && consumed == []
    {
      source, data, capacity := src, buffer, buffer.Length;
      pos, len, consumed := 0, 0, [];
    }

    ghost function Bytes(c: Cursor): seq<bv8>
      reads data
      requires c.start + c.len <= data.Length
    {
      data[c.start..c.start + c.len]
    }

    ghost function Yield(st: Status, c: Cursor): Outcome
      reads data
      requires c.start + c.len <= data.Length
    {
      Outcome(st, if st == OK then Bytes(c) else [])
    }

    // On success the cursor covers what was consumed; a failing call consumes nothing.
    ghost predicate Took(st: Status, c: Cursor, before: seq<bv8>, pending: seq<bv8>)
      reads this, data, source
      requires pos <= len <= data.Length
    {
      && c.start + c.len <= data.Length
      && (st == OK ==> consumed == before + Bytes(c) && pending == Bytes(c) + Pending())
      && (st != OK ==> consumed == before && pending == Pending())
    }

    // `st` is what the source answered last, after its first `before` answers.
    ghost predicate Refused(st: Status, before: nat)
      reads source
    {
      |source.answers| > before &&
      st == var answer := source.answers[|source.answers| - 1]; if answer == OK then EOF else answer
    }

    /** A cursor over the next `n` buffered bytes, which count as consumed. */
    method Consume(n: nat) returns (c: Cursor)
      requires Valid() && n <= |Window()|
      modifies this`pos, this`consumed
      ensures Valid() && c.start + c.len <= data.Length && c.len == n
      ensures Bytes(c) == old(Window())[..n] && Window() == old(Window())[n..]
      ensures Took(OK, c, old(consumed), old(Pending()))
    {
      c := Cursor(pos, n);
      consumed := consumed + data[pos..pos + n];
      pos := pos + n;
    }

    /** `memchr` over the window. */
    method FindIn(lo: nat, hi: nat, d: bv8) returns (i: nat)
      requires lo <= hi <= data.Length
      ensures i == Find(data[lo..hi], d)
    {
      i := 0;
      while i < hi - lo && data[lo + i] != d
        invariant i <= hi - lo && d !in data[lo..hi][..i]
      {
        i := i + 1;
      }
      FirstIs(data[lo..hi], d, i);
    }

    /** Makes `room` bytes addressable from `pos`, moving the window down only when it must. */
    method Rebase(room: nat) returns (st: Status)
      requires Valid()
      modifies this`pos, this`len, data
      ensures Valid() && Window() == old(Window())
      ensures st == if room > capacity || |Window()| > room > capacity - old(pos) then OVERFLOW else OK
      ensures st == OK ==> capacity - pos >= room
      ensures capacity - old(pos) >= room ==> pos == old(pos)
    {
      if room > capacity {
        return OVERFLOW;
      }
      if capacity - pos >= room {
        return OK;
      }
      var available := len - pos;
      if available > room {
        return OVERFLOW;
      }
      if available == 0 {
        pos, len := 0, 0;
      } else {
        forall k | 0 <= k < available {
          data[k] := data[pos + k];
        }
        pos, len := 0, available;
      }
      st := OK;
    }

    /** One read from the source behind the window. */
    method FillMore(room: nat, limit: nat) returns (st: Status)
      requires Valid()
      modifies this`pos, this`len, data, source
      ensures Valid() && Pending() == old(Pending())
      ensures st == OK <==> |Window()| > old(|Window()|)
      ensures |Window()| <= old(|Window()|) + limit
      ensures st != OK ==> Window() == old(Window())
      // For a caller that lacks some of `room` bytes, a refusal is the source's own.
      ensures old(|Window()|) < room <= capacity && limit > 0 && st != OK ==>
                Refused(st, old(|source.answers|))
      ensures |source.answers| >= old(|source.answers|)
      ensures old(|Window()|) < room <= capacity && limit > 0 && source.reliable ==>
                st == if old(source.pending) == [] then EOF else OK
    {
      st := Rebase(room);
      if st != OK {
        return;
      }
      var free := capacity - len;
      var chunk := if limit < free then limit else free;
      if chunk == 0 {
        return OVERFLOW;
      }
      ghost var before := data[..];
      var n;
      n, st := source.Read(data, len, chunk);
      WindowExtended(before, data[..], pos, len, n);
      len := len + n;
      if n > 0 {
        return OK;
      }
      if st == OK {
        st := EOF;
      }
    }

    static lemma WindowExtended(before: seq<bv8>, after: seq<bv8>, pos: nat, len: nat, n: nat)
      requires pos <= len && len + n <= |before| == |after| && after[..len] == before[..len]
      ensures after[pos..len + n] == before[pos..len] + after[len..len + n]
    {
    }

    /** `k4c_reader_take_byte` */
    method TakeByte() returns (st: Status, out: bv8)
      requires Valid()
      modifies this, data, source
      ensures Valid()
      ensures st == OK ==> old(Pending()) == [out] + Pending() && consumed == old(consumed) + [out]
      ensures st != OK ==> Pending() == old(Pending()) && consumed == old(consumed)
      ensures st != OK ==> Refused(st, old(|source.answers|))
      ensures source.reliable ==>
                Outcome(st, if st == OK then [out] else []) == ByteOutcome(old(Pending()))
      ensures source.reliable ==> st == if old(Pending()) == [] then EOF else OK
      // What is buffered is handed out without a read.
      ensures old(Window()) != [] ==> st == OK && source.answers == old(source.answers)
    {
      out := 0;
      if pos >= len {
        st := FillMore(1, capacity);
        if st != OK {
          return;
        }
      }
      out := data[pos];
      consumed := consumed + [out];
      pos := pos + 1;
      st := OK;
    }

    /** `k4c_reader_take_array` */
    method TakeArray(count: nat) returns (st: Status, out: Cursor)
      requires Valid()
      modifies this, data, source
      ensures Valid() && Took(st, out, old(consumed), old(Pending()))
      // A count that the buffer cannot hold is refused without a read, whatever the source.
      ensures count > capacity ==> st == OVERFLOW && source.answers == old(source.answers)
      ensures count <= capacity && st != OK ==> Refused(st, old(|source.answers|))
      ensures count <= old(|Window()|) ==> st == OK && source.answers == old(source.answers)
      ensures st == OK ==> out.len == count
      // What has to be fetched is fetched exactly: nothing is left over in the buffer.
      ensures st == OK && old(|Window()|) < count ==> Window() == []
      ensures source.reliable ==> Yield(st, out) == ArrayOutcome(old(Pending()), count, capacity)
      ensures source.reliable ==>
                st == if count > capacity then OVERFLOW else if count > |old(Pending())| then EOF else OK
    {
      out := Cursor(0, 0);
      if count > capacity {
        return OVERFLOW, out;
      }
      while len - pos < count
        invariant Valid() && Pending() == old(Pending()) && consumed == old(consumed)
        invariant |Window()| <= count || Window() == old(Window())
        invariant |source.answers| >= old(|source.answers|) && |Window()| >= old(|Window()|)
        invariant |Window()| == old(|Window()|) ==> source.answers == old(source.answers)
        decreases count - (len - pos)
      {
        var available := len - pos;
        st := FillMore(count, count - available);
        if st != OK {
          return;
        }
      }
      out := Consume(count);
      st := OK;
    }

    /** `k4c_reader_take_delimiter` */
    method TakeDelimiter(d: bv8) returns (st: Status, out: Cursor)
      requires Valid()
      modifies this, data, source
      ensures Valid() && Took(st, out, old(consumed), old(Pending()))
      ensures st == OK ==> out.len > 0 && d !in Bytes(out)[..out.len - 1]
      // Only the end of the stream leaves the delimiter out.
      ensures st == OK && d !in Bytes(out) ==> Refused(EOF, old(|source.answers|))
      ensures st != OK ==>
                (st == OVERFLOW && |Window()| == capacity && d !in Window()) || Refused(st, old(|source.answers|))
      ensures source.reliable ==> Yield(st, out) == DelimiterOutcome(old(Pending()), d, capacity)
      ensures source.reliable ==> st in {OK, EOF, OVERFLOW} && (st == EOF <==> old(Pending()) == [])
      ensures source.reliable ==>
                (st == OVERFLOW <==> |old(Pending())| >= capacity && d !in old(Pending())[..capacity])
      ensures source.reliable && st == OK && d !in Bytes(out) ==> Pending() == []
      // A piece that is buffered, and a full buffer without the delimiter, are answered without a read.
      ensures d in old(Window()) ==> st == OK && source.answers == old(source.answers)
      ensures old(|Window()|) == capacity && d !in old(Window()) ==>
                st == OVERFLOW && source.answers == old(source.answers)
    {
      DelimiterExactly(Pending(), d, capacity);
      out := Cursor(0, 0);
      var n;
      st, n := SeekDelimiter(d);
      if st == OK {
        ghost var taken := Window()[..n];
        out := Consume(n);
        assert Bytes(out) == taken;
      }
    }

    /** The loop of `take_delimiter`: buffers until the first `n` bytes are known to be the answer. */
    method SeekDelimiter(d: bv8) returns (st: Status, n: nat)
      requires Valid()
      modifies this`pos, this`len, data, source
      ensures Valid() && Pending() == old(Pending())
      ensures st == OK ==> 0 < n <= |Window()| && d !in Window()[..n - 1]
      ensures st == OK && d !in Window()[..n] ==> Refused(EOF, old(|source.answers|))
      ensures st != OK ==>
                (st == OVERFLOW && |Window()| == capacity && d !in Window()) || Refused(st, old(|source.answers|))
      ensures source.reliable ==>
                DelimiterOutcome(Pending(), d, capacity) == Outcome(st, if st == OK then Window()[..n] else [])
      ensures d in old(Window()) ==> st == OK && source.answers == old(source.answers)
      ensures old(|Window()|) == capacity && d !in old(Window()) ==>
                st == OVERFLOW && source.answers == old(source.answers)
    {
      while true
        invariant Valid() && Pending() == old(Pending()) && |source.answers| >= old(|source.answers|)
        invariant d in old(Window()) || old(|Window()|) == capacity ==>
                    Window() == old(Window()) && source.answers == old(source.answers)
        decreases capacity - (len - pos)
      {
        var available := len - pos;
        DelimiterInWindow(Window(), source.pending, d, capacity);
        if available == 0 {
          st := FetchBehind(1);
          if st != OK {
            return st, 0;
          }
          continue;
        }
        var found := FindIn(pos, len, d);
        assert d !in Window()[..found];
        if found == available && available == capacity {
          return OVERFLOW, 0;
        }
        if found == available {
          st := FetchBehind(available + 1);
          if st == EOF {
            return OK, available;
          }
          if st != OK {
            return st, 0;
          }
          continue;
        }
        return OK, found + 1;
      }
    }

    /** `FillMore` as `take_delimiter` uses it, for one byte more than are buffered. */
    method FetchBehind(room: nat) returns (st: Status)
      requires Valid() && |Window()| + 1 == room <= capacity
      modifies this`pos, this`len, data, source
      ensures Valid() && Pending() == old(Pending())
      ensures st == OK ==> |Window()| > old(|Window()|)
      ensures st != OK ==> Window() == old(Window())
      ensures st != OK ==> Refused(st, old(|source.answers|))
      ensures |source.answers| >= old(|source.answers|)
      ensures source.reliable && st != OK ==> st == EOF && old(source.pending) == []
    {
      st := FillMore(room, capacity);
    }
  }
}
