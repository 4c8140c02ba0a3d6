/** A vector and a string that grow side by side on one allocator, in particular on one arena. */
module ArenaClients {
  import opened Sizes
  import opened ArenaChunks
  import opened Allocators
  import opened Vectors
  import opened Strings

  datatype Op<T> =
    | Push(x: T) | Pop | Reserve(slots: SizeT)         // on the vector
    | Append(suffix: Text) | Prepend(prefix: Text) | Clear  // on the string

  // What the two containers show.
  datatype Shown<T> = Shown(items: seq<T>, text: seq<bv8>)

  function Effect<T>(was: Shown<T>, op: Op<T>, st: Status): Shown<T>
  {
    match op
    case Push(x) => if st == OK then was.(items := was.items + [x]) else was
    case Pop => if was.items == [] then was else was.(items := was.items[..|was.items| - 1])
    case Reserve(_) => was
    case Append(t) => if st == OK then was.(text := was.text + t) else was
    case Prepend(t) => if st == OK then was.(text := t + was.text) else was
    case Clear => was.(text := [])
  }

  function Replay<T>(start: Shown<T>, ops: seq<Op<T>>, sts: seq<Status>): Shown<T>
    requires |ops| == |sts|
    decreases |ops|
  {
    if ops == [] then start
    else Effect(Replay(start, ops[..|ops| - 1], sts[..|ops| - 1]), ops[|ops| - 1], sts[|ops| - 1])
  }

  // The failures of one operation that have a cause in sizes alone, and none without one.
  predicate Warranted<T>(was: Shown<T>, elemSize: SizeT, op: Op<T>, st: Status)
  {
    match op
    case Push(_) => st in {OK, NO_MEMORY, OVERFLOW} && (st == OVERFLOW ==> Crowded(|was.items| + 1, elemSize))
    case Pop => st == OK
    case Reserve(n) => st in {OK, NO_MEMORY, OVERFLOW} && (st == OVERFLOW ==> n * elemSize > SIZE_MAX)
    case Append(t) => TextWarranted(|was.text|, |t|, st)
    case Prepend(t) => TextWarranted(|was.text|, |t|, st)
    case Clear => st == OK
  }

  predicate TextWarranted(len: nat, more: nat, st: Status)
  {
    && st in {OK, NO_MEMORY, OVERFLOW}
    && (st == OVERFLOW ==> more > 0 && (len + more > SIZE_MAX || TooLong(len + more)))
  }

  predicate RunWarranted<T>(start: Shown<T>, elemSize: SizeT, ops: seq<Op<T>>, sts: seq<Status>)
    requires |ops| == |sts|
    decreases |ops|
  {
    ops == [] ||
    var n := |ops| - 1;
    RunWarranted(start, elemSize, ops[..n], sts[..n])
    && Warranted(Replay(start, ops[..n], sts[..n]), elemSize, ops[n], sts[n])
  }

  lemma RunSnoc<T>(start: Shown<T>, elemSize: SizeT, ops: seq<Op<T>>, i: nat, sts: seq<Status>, st: Status)
    requires i < |ops| && |sts| == i
    ensures Replay(start, ops[..i + 1], sts + [st]) == Effect(Replay(start, ops[..i], sts), ops[i], st)
    ensures RunWarranted(start, elemSize, ops[..i + 1], sts + [st]) <==>
            RunWarranted(start, elemSize, ops[..i], sts) &&
                Warranted(Replay(start, ops[..i], sts), elemSize, ops[i], st)
    ensures Refusals(sts + [st]) == Refusals(sts) + if st == NO_MEMORY then 1 else 0
  {
    RefusalsSnoc(sts, st);
    assert ops[..i + 1][..i] == ops[..i] && (sts + [st])[..i] == sts;
  }

  // Both hold blocks of the same allocator, and share none.
  ghost predicate SideBySide<T(0)>(v: Vector<T>, s: String)
    reads v, s, s.buf, v.a
  {
    && v.a == s.a && v.Valid() && s.Valid()
    && s.block != v.block && s.block != v.handle
    && (v.buffer as object) != (s.buf as object)
  }

  ghost function Show<T(0)>(v: Vector<T>, s: String): Shown<T>
    reads v, v.buffer, s, s.buf, v.a
    requires SideBySide(v, s)
  {
    Shown(v.Items(), s.Contents())
  }

  method Apply<T(0)>(v: Vector<T>, s: String, op: Op<T>) returns (st: Status)
    requires SideBySide(v, s)
    modifies v, v.buffer, s, s.buf, v.a
    ensures SideBySide(v, s) && Show(v, s) == Effect(old(Show(v, s)), op, st)
    ensures Warranted(old(Show(v, s)), v.elemSize, op, st)
    ensures v.a.failed == old(v.a.failed) + (if st == NO_MEMORY then 1 else 0) && SameBacking(old(v.a.books), v.a.books)
    ensures v.a.tripped == old(v.a.tripped)
    ensures (v.buffer == old(v.buffer) || fresh(v.buffer)) && (s.buf == old(s.buf) || fresh(s.buf))
  {
    match op
    case Push(_) | Pop | Reserve(_) => st := ApplyVector(v, s, op);
    case Append(_) | Prepend(_) | Clear => st := ApplyString(v, s, op);
  }

  method ApplyVector<T(0)>(v: Vector<T>, s: String, op: Op<T>) returns (st: Status)
    requires SideBySide(v, s) && (op.Push? || op.Pop? || op.Reserve?)
    modifies v, v.buffer, v.a
    ensures SideBySide(v, s) && Show(v, s) == Effect(old(Show(v, s)), op, st)
    ensures Warranted(old(Show(v, s)), v.elemSize, op, st)
    ensures v.a.failed == old(v.a.failed) + (if st == NO_MEMORY then 1 else 0) && SameBacking(old(v.a.books), v.a.books)
    ensures v.a.tripped == old(v.a.tripped) && (v.buffer == old(v.buffer) || fresh(v.buffer))
  {
    match op {
      case Push(x) =>
        st := v.Push(x);
        if st == OVERFLOW {
          PushOverflowsBound(old(v.size), old(v.capacity), v.elemSize);
        }
      case Reserve(n) => st := v.Reserve(n);
      case Pop =>
        var _, _ := v.Pop();
        st := OK;
    }
    OtherKept(old(v.a.books), old(v.block), v.a.books, v.block, s.block);
  }

  method ApplyString<T(0)>(v: Vector<T>, s: String, op: Op<T>) returns (st: Status)
    requires SideBySide(v, s) && (op.Append? || op.Prepend? || op.Clear?)
    modifies s, s.buf, v.a
    ensures SideBySide(v, s) && Show(v, s) == Effect(old(Show(v, s)), op, st)
    ensures Warranted(old(Show(v, s)), v.elemSize, op, st)
    ensures v.a.failed == old(v.a.failed) + (if st == NO_MEMORY then 1 else 0) && SameBacking(old(v.a.books), v.a.books)
    ensures v.a.tripped == old(v.a.tripped) && (s.buf == old(s.buf) || fresh(s.buf))
  {
    match op {
      case Append(t) => st := s.Append(t);
      case Prepend(t) => st := s.Prepend(t);
      case Clear =>
        s.Clear();
        st := OK;
    }
    OtherKept(old(v.a.books), old(s.block), v.a.books, s.block, v.block);
    OtherKept(old(v.a.books), old(s.block), v.a.books, s.block, v.handle);
  }

  /**
   Over any run, whatever requests are refused, no resize trips the arena's assertion, and both
   containers show what the successful operations give.
   */
  method Execute<T(0)>(v: Vector<T>, s: String, ops: seq<Op<T>>) returns (sts: seq<Status>)
    requires SideBySide(v, s)
    modifies v, v.buffer, s, s.buf, v.a
    ensures SideBySide(v, s) && v.a.tripped == old(v.a.tripped)
    ensures |sts| == |ops| && Show(v, s) == Replay(old(Show(v, s)), ops, sts)
    ensures RunWarranted(old(Show(v, s)), v.elemSize, ops, sts) && v.a.failed == old(v.a.failed) + Refusals(sts)
    ensures SameBacking(old(v.a.books), v.a.books)
  {
    sts := [];
    ghost var start := Show(v, s);
    for i := 0 to |ops|
      invariant SideBySide(v, s) && v.a.tripped == old(v.a.tripped)
      invariant |sts| == i && Show(v, s) == Replay(start, ops[..i], sts)
      invariant RunWarranted(start, v.elemSize, ops[..i], sts) && v.a.failed == old(v.a.failed) + Refusals(sts)
      invariant SameBacking(old(v.a.books), v.a.books)
      invariant (v.buffer == old(v.buffer) || fresh(v.buffer)) && (s.buf == old(s.buf) || fresh(s.buf))
    {
      var st := Apply(v, s, ops[i]);
      RunSnoc(start, v.elemSize, ops, i, sts, st);
      sts := sts + [st];
    }
    assert ops[..|ops|] == ops;
  }

  /** On an arena the buffers of both are chunks of the bytes they need, rounded up, and disjoint. */
  lemma BuffersAreChunks<T(0)>(v: Vector<T>, s: String)
    requires SideBySide(v, s) && v.a.books.Bump?
    ensures var pool := v.a.books.pool;
            IsChunk(pool, v.block, v.elemSize * v.capacity) && IsChunk(pool, s.block, Strings.HEADER + s.capacity)
    ensures v.block + v.elemSize * v.capacity <= s.block || s.block + Strings.HEADER + s.capacity <= v.block
  {
    var l := v.a.books;
    assert IsChunk(l.pool, v.block, l.granted[v.block]) && IsChunk(l.pool, s.block, l.granted[s.block]);
    HoldersApart(l.pool, l.capacity, v.block, AlignUpOverflow(l.granted[v.block]).value,
                 s.block, AlignUpOverflow(l.granted[s.block]).value);
  }

  /** A session on a fresh arena of any capacity, from creating both containers on. */
  method Session<T(0)>(capacity: SizeT, bytes: SizeT, initial: Text, ops: seq<Op<T>>)
    returns (a: Allocator, v: Vector?<T>, s: String?, sts: seq<Status>)
    requires bytes > 0 && capacity <= MAX_OBJECT
    ensures !a.tripped && a.books.Bump? && a.books.capacity == capacity
    ensures v == null || s == null ==>
              a.failed > 0 || bytes * Vectors.DEFAULT_CAPACITY > SIZE_MAX || TooLong(|initial|)
    ensures v != null && s != null ==>
              && SideBySide(v, s) && v.a == a && |sts| == |ops|
              && Show(v, s) == Replay(Shown([], initial), ops, sts)
              && RunWarranted(Shown([], initial), bytes, ops, sts) && a.failed == Refusals(sts)
  {
    sts, s := [], null;
    a := new Allocator.OverArena(capacity);
    var st;
    st, v := Vector<T>.Create(bytes, Vectors.DEFAULT_CAPACITY, a);
    if st != OK {
      return;
    }
    st, s := String.Create(initial, a);
    if st != OK {
      return;
    }
    assert v.handle in a.books.granted - {s.block} && v.block in a.books.granted - {s.block};
    assert Show(v, s) == Shown([], initial);
    sts := Execute(v, s, ops);
  }
}
