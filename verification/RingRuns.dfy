/** Whole runs of calls on a ring: what the calls read out of the buffer is what the byte stream
    promises. */
module RingRuns {
  import opened Machine
  import opened ByteStream
  import opened RingRegion

  /** A ring without a slot refuses messages both ways; any ring refuses a message that could
      never fit. */
  predicate Accepts(size: u32, slots: u32, op: Op) {
    match op
    case Put(bytes) => slots != 0 && |bytes| <= size
    case Take(_) => slots != 0
    case _ => true
  }

  /** The calls of a run that are not refused. */
  function Accepted(size: u32, slots: u32, ops: seq<Op>): seq<Op> {
    if ops == [] then []
    else (if Accepts(size, slots, ops[0]) then [ops[0]] else []) + Accepted(size, slots, ops[1..])
  }

  /** The bytes of all writes that a ring with a slot and of that size can hold, in order. */
  function FittingBytes(size: u32, slots: u32, ops: seq<Op>): seq<u8> {
    if ops == [] then []
    else
      (if slots > 0 && ops[0].Put? && |ops[0].bytes| <= size then ops[0].bytes else []) +
      FittingBytes(size, slots, ops[1..])
  }

  /** They are what the accepted calls put in. */
  lemma {:induction false} AcceptedBytes(size: u32, slots: u32, ops: seq<Op>)
    ensures PutBytes(Accepted(size, slots, ops)) == FittingBytes(size, slots, ops)
  {
    if ops != [] {
      AcceptedBytes(size, slots, ops[1..]);
      var rest := Accepted(size, slots, ops[1..]);
      if Accepts(size, slots, ops[0]) {
        assert Accepted(size, slots, ops) == [ops[0]] + rest && ([ops[0]] + rest)[1..] == rest;
      } else {
        assert Accepted(size, slots, ops) == [] + rest == rest;
      }
    }
  }

  /** The limits within which the counters and the read pointer can follow the stream: a lag below
      2^32 whenever the reader looks, and a safe pointer sum at a flush. */
  ghost predicate Safe(s: Stream, size: u32, op: Op)
    requires s.Ok() && 0 < size
  {
    && (!op.Put? ==> s.Lag() < TWO32)
    && (op.Flush? ==> SumSafe(s.consumed % size, After(s, size, op).consumed - s.consumed, size))
  }

  ghost predicate SafeRun(s: Stream, size: u32, ops: seq<Op>)
    requires s.Ok() && 0 < size
    decreases ops
  {
    ops != [] ==> Safe(s, size, ops[0]) && SafeRun(After(s, size, ops[0]), size, ops[1..])
  }

  /** One read, into a buffer of n bytes. */
  method TakeOnce(r: Ring, n: nat) returns (got: seq<u8>)
    requires r.Valid() && r.slots != 0 && r.stream.Lag() < TWO32
    modifies r`rx, r`rp, r`stream
    ensures r.Valid() && r.stream == After(old(r.stream), r.size, Take(n))
    ensures got == Delivered(Events(old(r.stream), r.size, Take(n)))
  {
    var buffer := new u8[n];
    var ok, count := r.ReadMessage(buffer, n);
    SmallLagFits(old(r.stream), r.size);
    TakeDelivers(old(r.stream), r.size, n);
    got := if ok then buffer[..count] else [];
  }

  lemma TakeDelivers(s: Stream, size: nat, n: nat)
    requires s.Ok()
    ensures var s' := After(s, size, Take(n));
            Delivered(Events(s, size, Take(n))) == s.written[s'.consumed - TakeCount(s, size, n)..s'.consumed]
    ensures 0 < size && s.Lag() == 0 ==> After(s, size, Take(n)) == s && TakeCount(s, size, n) == 0
  {
    var es := Events(s, size, Take(n));
    var got := es[|es| - 1];
    if |es| == 2 {
      assert es[1..] == [got];
    }
    assert Delivered([got]) == got.bytes + Delivered([]) == got.bytes;
  }

  /** One call; it reads out exactly the bytes that the stream delivers for it. */
  method Perform(r: Ring, op: Op) returns (got: seq<u8>)
    requires r.Valid() && Accepts(r.size, r.slots, op) && Safe(r.stream, r.size, op)
    modifies r`tx, r`rx, r`wp, r`rp, r`stream, r.data
    ensures r.Valid() && r.stream == After(old(r.stream), r.size, op)
    ensures got == Delivered(Events(old(r.stream), r.size, op))
  {
    got := [];
    match op
    case Put(bytes) =>
      var buffer := new u8[|bytes|](i requires 0 <= i < |bytes| => bytes[i]);
      assert buffer[..|bytes|] == bytes;
      var _ := r.WriteMessage(buffer, |bytes|);
    case Take(n) =>
      got := TakeOnce(r, n);
    case Drop(n) =>
      var _ := r.AdvanceReadIndex(if n < TWO32 then n else TWO32 - 1);
    case Flush(leave) =>
      var _ := r.FlushReadData(leave);
  }

  /** A call that the ring refuses changes nothing and delivers nothing. */
  method Refused(r: Ring, op: Op) returns (ok: bool)
    requires r.Valid() && !Accepts(r.size, r.slots, op)
    modifies r`tx, r`rx, r`wp, r`rp, r`stream, r.data
    ensures r.Valid() && r.stream == old(r.stream) && !ok
  {
    if op.Put? {
      var buffer := new u8[|op.bytes|](i requires 0 <= i < |op.bytes| => op.bytes[i]);
      ok := r.WriteMessage(buffer, |op.bytes|);
    } else {
      var buffer := new u8[op.n];
      var done, _ := r.ReadMessage(buffer, op.n);
      ok := done;
    }
  }

  lemma RunStep(s: Stream, size: u32, slots: u32, ops: seq<Op>)
    requires s.Ok() && ops != []
    ensures var rest := Accepted(size, slots, ops[1..]);
            if Accepts(size, slots, ops[0]) then
              var s1, es := After(s, size, ops[0]), Events(s, size, ops[0]);
              && RunState(s, size, Accepted(size, slots, ops)) == RunState(s1, size, rest)
              && Delivered(RunEvents(s, size, Accepted(size, slots, ops))) ==
                 Delivered(es) + Delivered(RunEvents(s1, size, rest))
            else Accepted(size, slots, ops) == rest
  {
    var rest := Accepted(size, slots, ops[1..]);
    if Accepts(size, slots, ops[0]) {
      assert Accepted(size, slots, ops)[1..] == rest;
      DeliveredConcat(Events(s, size, ops[0]), RunEvents(After(s, size, ops[0]), size, rest));
    }
  }

  /** Any sequence of calls on a ring, from any valid state: the ring stays valid, and the bytes
      its reads took out of the buffer are those that the stream's own account delivers. */
  method Drive(r: Ring, ops: seq<Op>) returns (got: seq<u8>)
    requires r.Valid() && SafeRun(r.stream, r.size, Accepted(r.size, r.slots, ops))
    modifies r`tx, r`rx, r`wp, r`rp, r`stream, r.data
    ensures r.Valid() && r.stream == RunState(old(r.stream), r.size, Accepted(r.size, r.slots, ops))
    ensures got == Delivered(RunEvents(old(r.stream), r.size, Accepted(r.size, r.slots, ops)))
    decreases ops
  {
    got := [];
    if ops != [] {
      RunStep(r.stream, r.size, r.slots, ops);
      if Accepts(r.size, r.slots, ops[0]) {
        assert Accepted(r.size, r.slots, ops)[1..] == Accepted(r.size, r.slots, ops[1..]);
        got := Perform(r, ops[0]);
      } else {
        var _ := Refused(r, ops[0]);
      }
      var rest := Drive(r, ops[1..]);
      got := got + rest;
    }
  }

  /** So over every run the stream grows by exactly the bytes of the writes that fit, what was read
      and what was lost add up to what the reader passed, and without drops, flushes and overrun
      the reads are the written stream itself, byte for byte. */
  method DriveAndAccount(r: Ring, ops: seq<Op>) returns (got: seq<u8>)
    requires r.Valid() && SafeRun(r.stream, r.size, Accepted(r.size, r.slots, ops))
    modifies r`tx, r`rx, r`wp, r`rp, r`stream, r.data
    ensures r.Valid() && r.stream.written == old(r.stream.written) + FittingBytes(r.size, r.slots, ops)
    ensures |got| + LostBytes(RunEvents(old(r.stream), r.size, Accepted(r.size, r.slots, ops))) ==
            r.stream.consumed - old(r.stream.consumed)
    ensures NeverOverrun(old(r.stream), r.size, Accepted(r.size, r.slots, ops)) ==>
              old(r.stream.consumed) <= r.stream.consumed &&
              got == r.stream.written[old(r.stream.consumed)..r.stream.consumed]
  {
    ghost var s, done := r.stream, Accepted(r.size, r.slots, ops);
    got := Drive(r, ops);
    RunAppends(s, r.size, done);
    AcceptedBytes(r.size, r.slots, ops);
    RunRefinesStream(s, r.size, done);
    DeliveredPlusLost(RunEvents(s, r.size, done), s.consumed, r.stream.consumed, r.stream.written);
    if NeverOverrun(s, r.size, done) {
      RunWithoutOverrun(s, r.size, done);
    }
  }
}
