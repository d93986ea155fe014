/** What a lossy ring of bytes promises its two users, stated without counters that
    wrap and without a buffer: a sequence of bytes that only ever grows, and the number
    of bytes its reader has moved past. */
module ByteStream {
  import opened Machine

  datatype Stream = Stream(written: seq<u8>, consumed: nat) {

    ghost predicate Ok() {
      consumed <= |written|
    }

    function Lag(): int {
      |written| - consumed
    }

    /** What two counters that wrap at 2^32 show of the lag. */
    function Shown(): nat
      requires Ok()
    {
      Lag() % TWO32
    }

    /** How many unread bytes a reader takes a ring of `size` bytes to hold. */
    function Held(size: nat): (n: nat)
      requires Ok()
      ensures n <= size && n <= Shown()
      ensures Lag() < TWO32 ==> n == Readable(size)
    {
      Min(size, Shown())
    }

    /** After dropping what was overrun, as far as the counters show it. */
    function Resynced(size: nat): (s: Stream)
      requires Ok()
      ensures s.Ok()
    {
      Skip(Shown() - Held(size))
    }

    /** The bytes that the counters forgot are whole rounds of the ring; so they are when the lag
        is below 2^32 or the size divides 2^32. */
    ghost predicate RoundsFit(size: nat)
      requires Ok() && 0 < size
    {
      Rem(Lag() - Shown(), size) == 0
    }

    /** The first unread byte that a ring of `size` bytes still holds. */
    function ReadStart(size: nat): (start: nat)
      ensures consumed < start ==> start + size == |written|
      ensures start == consumed || Lag() > size
    {
      Max(consumed, |written| - size)
    }

    function Readable(size: nat): int {
      Min(size, Lag())
    }

    function Put(bytes: seq<u8>): Stream {
      Stream(written + bytes, consumed)
    }

    function Skip(n: nat): Stream {
      Stream(written, consumed + n)
    }
  }

  /** One use of the ring. `Take` asks for at most `n` bytes, `Drop` skips up to `n`
      readable bytes, `Flush` keeps the newest `leave` bytes. */
  datatype Op =
    | Put(bytes: seq<u8>)
    | Take(n: nat)
    | Drop(n: nat)
    | Flush(leave: nat)

  /** What became of the positions from..to of the stream. */
  datatype Event =
    | Got(from: nat, to: nat, bytes: seq<u8>)
    | Lost(from: nat, to: nat)

  function TakeCount(s: Stream, size: nat, n: nat): (m: nat)
    requires s.Ok()
    ensures m <= n && m <= size && s.ReadStart(size) + m <= |s.written|
  {
    Min(n, |s.written| - s.ReadStart(size))
  }

  function FlushTarget(s: Stream, size: nat, leave: nat): (c: nat)
    requires s.Ok()
    ensures s.consumed <= c <= |s.written|
  {
    |s.written| - Min(Min(leave, size), s.Lag())
  }

  function After(s: Stream, size: nat, op: Op): (s': Stream)
    requires s.Ok()
    ensures s'.Ok()
  {
    match op
    case Put(bytes) => s.Put(bytes)
    case Take(n) => Stream(s.written, s.ReadStart(size) + TakeCount(s, size, n))
    case Drop(n) => s.Skip(Min(n, s.Readable(size)))
    case Flush(leave) => Stream(s.written, FlushTarget(s, size, leave))
  }

  function Events(s: Stream, size: nat, op: Op): seq<Event>
    requires s.Ok()
  {
    match op
    case Put(_) => []
    case Take(n) =>
      var start, m := s.ReadStart(size), TakeCount(s, size, n);
      (if s.consumed < start then [Lost(s.consumed, start)] else []) +
      [Got(start, start + m, s.written[start..start + m])]
    case Drop(_) => [Lost(s.consumed, After(s, size, op).consumed)]
    case Flush(_) => [Lost(s.consumed, After(s, size, op).consumed)]
  }

  function RunState(s: Stream, size: nat, ops: seq<Op>): (s': Stream)
    requires s.Ok()
    ensures s'.Ok()
    decreases ops
  {
    if ops == [] then s else RunState(After(s, size, ops[0]), size, ops[1..])
  }

  function RunEvents(s: Stream, size: nat, ops: seq<Op>): seq<Event>
    requires s.Ok()
    decreases ops
  {
    if ops == [] then [] else Events(s, size, ops[0]) + RunEvents(After(s, size, ops[0]), size, ops[1..])
  }

  /** Everything that a run puts in, in order. */
  function PutBytes(ops: seq<Op>): seq<u8> {
    if ops == [] then [] else (if ops[0].Put? then ops[0].bytes else []) + PutBytes(ops[1..])
  }

  /** A run appends exactly what is put in. */
  lemma {:induction false} RunAppends(s: Stream, size: nat, ops: seq<Op>)
    requires s.Ok()
    ensures RunState(s, size, ops).written == s.written + PutBytes(ops)
    decreases ops
  {
    if ops != [] {
      RunAppends(After(s, size, ops[0]), size, ops[1..]);
      ConcatAssoc(s.written, if ops[0].Put? then ops[0].bytes else [], PutBytes(ops[1..]));
      assert s.written + [] == s.written;
    }
  }

  /** The events cover the positions lo..hi one after the other, with no gap and no overlap. */
  ghost predicate Tiles(es: seq<Event>, lo: nat, hi: nat) {
    if es == [] then lo == hi
    else es[0].from == lo && lo <= es[0].to && Tiles(es[1..], es[0].to, hi)
  }

  /** Every delivered byte is the byte that was written at its position. */
  ghost predicate Truthful(es: seq<Event>, w: seq<u8>) {
    forall e | e in es && e.Got? :: e.from <= e.to <= |w| && e.bytes == w[e.from..e.to]
  }

  function Delivered(es: seq<Event>): seq<u8> {
    if es == [] then [] else (if es[0].Got? then es[0].bytes else []) + Delivered(es[1..])
  }

  function LostBytes(es: seq<Event>): int {
    if es == [] then 0 else (if es[0].Lost? then es[0].to - es[0].from else 0) + LostBytes(es[1..])
  }

  lemma {:induction false} DeliveredConcat(a: seq<Event>, b: seq<Event>)
    ensures Delivered(a + b) == Delivered(a) + Delivered(b)
  {
    if a == [] {
      assert a + b == b;
    } else {
      DeliveredConcat(a[1..], b);
      assert (a + b)[1..] == a[1..] + b;
      ConcatAssoc(if a[0].Got? then a[0].bytes else [], Delivered(a[1..]), Delivered(b));
    }
  }

  lemma {:induction false} TilesConcat(a: seq<Event>, b: seq<Event>, lo: nat, mid: nat, hi: nat)
    requires Tiles(a, lo, mid) && Tiles(b, mid, hi)
    ensures Tiles(a + b, lo, hi)
  {
    if a == [] {
      assert a + b == b;
    } else {
      TilesConcat(a[1..], b, a[0].to, mid, hi);
      assert (a + b)[1..] == a[1..] + b;
    }
  }

  /** One use of the ring: the stream only grows at its end, and the events of the use
      account for exactly the positions the reader moved past. */
  lemma StepTiles(s: Stream, size: nat, op: Op)
    requires s.Ok()
    ensures s.written <= After(s, size, op).written
    ensures Tiles(Events(s, size, op), s.consumed, After(s, size, op).consumed)
    ensures Truthful(Events(s, size, op), s.written)
  {
    var es, s' := Events(s, size, op), After(s, size, op);
    if op.Take? && |es| == 2 {
      assert es[1..] == [es[1]];
      assert Tiles([es[1]], es[1].from, s'.consumed);
    }
  }

  /** An account stays truthful when the stream grows, and two make one. */
  lemma TruthfulConcat(a: seq<Event>, b: seq<Event>, v: seq<u8>, w: seq<u8>)
    requires Truthful(a, v) && v <= w && Truthful(b, w)
    ensures Truthful(a + b, w)
  {
    forall e: Event | e in a + b && e.Got?
      ensures e.from <= e.to <= |w| && e.bytes == w[e.from..e.to]
    {
      if e in a {
        assert v[e.from..e.to] == w[e.from..e.to];
      }
    }
  }

  /** Over every run, whatever the ring's size: reads deliver the written bytes, in order
      and never twice, and delivered plus lost positions tile everything the reader passed. */
  lemma {:induction false} RunRefinesStream(s: Stream, size: nat, ops: seq<Op>)
    requires s.Ok()
    ensures s.written <= RunState(s, size, ops).written
    ensures Tiles(RunEvents(s, size, ops), s.consumed, RunState(s, size, ops).consumed)
    ensures Truthful(RunEvents(s, size, ops), RunState(s, size, ops).written)
    decreases ops
  {
    if ops != [] {
      var s1, s' := After(s, size, ops[0]), RunState(s, size, ops);
      var es, rest := Events(s, size, ops[0]), RunEvents(s1, size, ops[1..]);
      StepTiles(s, size, ops[0]);
      RunRefinesStream(s1, size, ops[1..]);
      TilesConcat(es, rest, s.consumed, s1.consumed, s'.consumed);
      TruthfulConcat(es, rest, s.written, s'.written);
    }
  }

  /** Conservation: what a tiled account delivered and what it lost add up to what was passed. */
  lemma {:induction false} DeliveredPlusLost(es: seq<Event>, lo: nat, hi: nat, w: seq<u8>)
    requires Tiles(es, lo, hi) && Truthful(es, w)
    ensures lo <= hi
    ensures |Delivered(es)| + LostBytes(es) == hi - lo
  {
    if es != [] {
      assert es[0] in es;
      assert forall e | e in es[1..] :: e in es;
      DeliveredPlusLost(es[1..], es[0].to, hi, w);
    }
  }

  /** A reader that never loses a byte has read exactly the stream. */
  lemma {:induction false} LosslessIsExact(es: seq<Event>, lo: nat, hi: nat, w: seq<u8>)
    requires Tiles(es, lo, hi) && Truthful(es, w) && hi <= |w|
    requires forall e | e in es :: e.Got?
    ensures lo <= hi && Delivered(es) == w[lo..hi]
  {
    if es != [] {
      assert es[0] in es;
      assert forall e | e in es[1..] :: e in es;
      LosslessIsExact(es[1..], es[0].to, hi, w);
      assert w[lo..hi] == w[lo..es[0].to] + w[es[0].to..hi];
    }
  }

  /** A run in which every read finds the reader at most `size` bytes behind. */
  ghost predicate NeverOverrun(s: Stream, size: nat, ops: seq<Op>)
    requires s.Ok()
    decreases ops
  {
    ops != [] ==>
      (ops[0].Put? || (ops[0].Take? && s.Lag() <= size)) && NeverOverrun(After(s, size, ops[0]), size, ops[1..])
  }

  /** Reads and writes alone, with no overrun: the reads concatenate to the stream. */
  lemma {:induction false} RunWithoutOverrun(s: Stream, size: nat, ops: seq<Op>)
    requires s.Ok() && NeverOverrun(s, size, ops)
    ensures s.consumed <= RunState(s, size, ops).consumed
    ensures Delivered(RunEvents(s, size, ops)) ==
            RunState(s, size, ops).written[s.consumed..RunState(s, size, ops).consumed]
  {
    var es, s' := RunEvents(s, size, ops), RunState(s, size, ops);
    RunRefinesStream(s, size, ops);
    AllGot(s, size, ops);
    LosslessIsExact(es, s.consumed, s'.consumed, s'.written);
  }

  lemma {:induction false} AllGot(s: Stream, size: nat, ops: seq<Op>)
    requires s.Ok() && NeverOverrun(s, size, ops)
    ensures forall e | e in RunEvents(s, size, ops) :: e.Got?
    decreases ops
  {
    if ops != [] {
      AllGot(After(s, size, ops[0]), size, ops[1..]);
    }
  }
}
