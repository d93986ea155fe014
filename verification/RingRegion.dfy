/** The lossy byte ring of aoc_ipc_core.c: two free-running u32 byte counters and two
    pointers kept modulo a size that need not divide 2^32. */
module RingRegion {
  import opened Machine
  import opened ByteStream

  /** Cell k of a window that starts at cell p of a ring of `size` cells. */
  function Cell(p: nat, k: nat, size: nat): (c: nat)
    requires p < size && k <= size
    ensures c < size
  {
    if p + k < size then p + k else p + k - size
  }

  /** The n bytes found at cell p and after it. */
  function Window(d: seq<u8>, p: nat, n: nat): (w: seq<u8>)
    requires p < |d| && n <= |d|
    ensures |w| == n
  {
    seq(n, k requires 0 <= k < n => d[Cell(p, k, |d|)])
  }

  /** The ring d holds the newest |d| bytes of w, or all of w, each at its own cell. */
  ghost predicate Holds(d: seq<u8>, w: seq<u8>) {
    |d| > 0 && forall i :: Max(0, |w| - |d|) <= i < |w| ==> d[i % |d|] == w[i]
  }

  lemma WindowIsSlice(d: seq<u8>, w: seq<u8>, s: nat, n: nat)
    requires Holds(d, w) && |w| - |d| <= s && s + n <= |w| && n <= |d|
    ensures Window(d, s % |d|, n) == w[s..s + n]
  {
    forall k | 0 <= k < n
      ensures Window(d, s % |d|, n)[k] == w[s..s + n][k]
    {
      if k < |d| { ModWindow(s, k, |d|); }
      assert d[(s + k) % |d|] == w[s + k];
    }
  }

  /** Publishing the n bytes at the write pointer appends them to the stream, provided only
      the cells of the window were changed since the ring last held w. */
  lemma PublishWindow(before: seq<u8>, d: seq<u8>, w: seq<u8>, n: nat)
    requires Holds(before, w) && |before| == |d| && n <= |d|
    requires forall k :: n <= k < |d| ==> d[Cell(|w| % |d|, k, |d|)] == before[Cell(|w| % |d|, k, |d|)]
    ensures Holds(d, w + Window(d, |w| % |d|, n))
  {
    var m := |d|;
    var w' := w + Window(d, |w| % m, n);
    forall i | Max(0, |w'| - m) <= i < |w'|
      ensures d[i % m] == w'[i]
    {
      if |w| <= i {
        ModWindow(|w|, i - |w|, m);
      } else {
        var k := i - |w| + m;
        ModWindow(|w|, k, m);
        assert Cell(|w| % m, k, m) == i % m;
        assert before[i % m] == w[i];
      }
    }
  }

  /** The byte count that the reader derives from the two pointers; the counters only tell a
      full ring from an empty one. */
  function CountOf(tx: u32, rx: u32, wp: u32, rp: u32, size: u32): (n: u32)
    requires wp < size <= TWO31 && rp < size
  {
    if wp > rp then wp - rp
    else if wp < rp then wp + size - rp
    else if tx == rx then 0
    else size
  }

  /** It is the lag, as long as the lag is at most the ring's size. */
  lemma PointersGiveLag(t: nat, r: nat, size: nat)
    requires 0 < size <= TWO31 && r <= t <= r + size
    ensures CountOf(Wrap32(t), Wrap32(r), t % size, r % size, size) == t - r
  {
    if t < r + size {
      ModWindow(r, t - r, size);
    } else {
      DivModUnique(r + size, size, r / size + 1, r % size);
    }
    ReadWriteDeltaIsLag(t, r);
  }

  /** A write publishes its counter first and its pointer second. A reader that samples between
      the two stores, with n new bytes on the way, derives the lag from before the write if and
      only if there was something to read; on an empty ring it takes it for full. */
  lemma TornSampleIff(t: nat, n: nat, r: nat, size: nat)
    requires 0 < size <= TWO31 && r <= t && 0 < n && t + n - r <= size
    ensures CountOf(Wrap32(t + n), Wrap32(r), t % size, r % size, size) == t - r <==> t != r
    ensures t == r ==> CountOf(Wrap32(t + n), Wrap32(r), t % size, r % size, size) == size
  {
    ModWindow(r, t - r, size);
    ReadWriteDeltaIsLag(t + n, r);
  }

  /** For every distance of the positions: the remainder of the lag, and for whole rounds a full
      ring unless the counters agree. */
  lemma PointersGiveRemainder(t: nat, r: nat, size: nat)
    requires 0 < size <= TWO31 && r <= t
    ensures CountOf(Wrap32(t), Wrap32(r), t % size, r % size, size) ==
            if Rem(t - r, size) != 0 then Rem(t - r, size) else if Wrap32(t - r) == 0 then 0 else size
  {
    var m := (t - r) % size;
    RemIsMod(t - r, size);
    SameCell(t, r, size);
    ModWindow(t - m, m, size);
    WrapEqual(t, r);
  }

  /** The newest position below t that shares its cell with position i. */
  function Newest(i: int, t: int, size: nat): int
    requires 0 < size
  {
    t - 1 - Rem(t - 1 - i, size)
  }

  /** It is i itself if and only if i has been reached and the position a round later has not. */
  lemma NewestIff(i: int, t: int, size: nat)
    requires 0 < size
    ensures t - size <= Newest(i, t, size) < t && Newest(i, t, size) % size == i % size
    ensures Newest(i, t, size) == i <==> i < t <= i + size
    ensures i < t ==> i <= Newest(i, t, size)
  {
    SameCell(t - 1, i, size);
    RemIsMod(t - 1 - i, size);
    if i < t {
      RemBound(t - 1 - i, size);
    }
  }

  /** The bytes are those of the newest positions that share their cells with pos and after. */
  ghost predicate AreNewest(bytes: seq<u8>, w: seq<u8>, pos: nat, size: nat)
    requires 0 < size
  {
    forall k | 0 <= k < |bytes| :: IsNewest(bytes[k], w, pos + k, size)
  }

  ghost predicate IsNewest(b: u8, w: seq<u8>, i: int, size: nat)
    requires 0 < size
  {
    0 <= Newest(i, |w|, size) < |w| && b == w[Newest(i, |w|, size)]
  }

  /** What a window holds, also of positions that have been overwritten. */
  lemma WindowIsNewest(d: seq<u8>, w: seq<u8>, pos: nat, n: nat)
    requires Holds(d, w) && n <= |d| && pos + n <= |w|
    ensures AreNewest(Window(d, pos % |d|, n), w, pos, |d|)
  {
    forall k | 0 <= k < n
      ensures IsNewest(Window(d, pos % |d|, n)[k], w, pos + k, |d|)
    {
      CellOf(pos, k, |d|);
      CellIsNewest(d, w, pos + k);
    }
  }

  lemma CellOf(pos: nat, k: nat, size: nat)
    requires k < size
    ensures Cell(pos % size, k, size) == (pos + k) % size
  {
    ModWindow(pos, k, size);
  }

  lemma CellIsNewest(d: seq<u8>, w: seq<u8>, i: nat)
    requires Holds(d, w) && i < |w|
    ensures IsNewest(d[i % |d|], w, i, |d|)
  {
    NewestIff(i, |w|, |d|);
    var q := Newest(i, |w|, |d|);
    assert d[q % |d|] == w[q];
  }

  /** A u32 sum that moves a pointer keeps it on the right cell exactly when it stays below
      2^32 or the size divides 2^32. */
  ghost predicate SumSafe(p: nat, amount: nat, size: nat)
    requires 0 < size
  {
    p + amount < TWO32 || TWO32 % size == 0
  }

  lemma PointerAdvanceExact(pos: nat, amount: nat, size: nat)
    requires 0 < size <= TWO31 && amount < TWO32
    ensures Wrap32(pos % size + amount) % size == (pos + amount) % size <==> SumSafe(pos % size, amount, size)
  {
    var x := pos % size + amount;
    ModAdd(pos, amount, size);
    if x >= TWO32 {
      assert Wrap32(x) == x - TWO32;
      ModShiftIff(x, TWO32, size);
    } else {
      assert Wrap32(x) == x;
    }
  }

  lemma CounterAdvance(pos: nat, amount: nat)
    ensures Wrap32(Wrap32(pos) + amount) == Wrap32(pos + amount)
  {
    ModAdd(pos, amount, TWO32);
  }

  /** A reader 2^32 bytes or more behind: the read counter also stands for the position that the
      counters show, and the read pointer does if and only if the forgotten rounds fit. */
  lemma ShownPositionIff(s: Stream, size: nat)
    requires s.Ok() && 0 < size
    ensures var shown := |s.written| - s.Shown();
            && Wrap32(s.consumed) == Wrap32(shown)
            && (s.consumed % size == shown % size <==> s.RoundsFit(size))
  {
    var shown, forgotten := |s.written| - s.Shown(), s.Lag() - s.Shown();
    assert forgotten % TWO32 == 0 by {
      DivExact(s.Lag() / TWO32, TWO32);
    }
    ModShiftIff(shown, forgotten, TWO32);
    ModShiftIff(shown, forgotten, size);
    RemIsMod(forgotten, size);
  }

  lemma ShownAfterSkip(s: Stream, n: nat)
    requires s.Ok() && n <= s.Shown()
    ensures s.Skip(n).Shown() == s.Shown() - n
  {
  }

  /** The bytes are the oldest of those that a reader takes the ring to hold. */
  ghost predicate IsOldestHeld(bytes: seq<u8>, s: Stream, size: nat)
    requires s.Ok()
  {
    var start := |s.written| - s.Held(size);
    |bytes| <= s.Held(size) && bytes == s.written[start..start + |bytes|]
  }

  lemma SmallLagFits(s: Stream, size: nat)
    requires s.Ok() && 0 < size && s.Lag() < TWO32
    ensures s.RoundsFit(size) && s.Shown() == s.Lag()
  {
    assert s.Lag() - s.Shown() == 0;
  }

  /** With a lag below 2^32 nothing is hidden, and a read is a take of the stream. */
  lemma TakeIsOldestHeld(s: Stream, size: nat, count: nat)
    requires s.Ok() && s.Shown() == s.Lag()
    ensures var n := Min(count, s.Held(size));
            && TakeCount(s, size, count) == n
            && After(s, size, Take(count)) == s.Skip(s.Shown() - s.Held(size) + n)
            && |s.written| - s.Held(size) + n == After(s, size, Take(count)).consumed
  {
  }

  /** The byte count from the pointers is what the counters show, if the forgotten rounds fit. */
  lemma PointersGiveShown(s: Stream, size: nat)
    requires s.Ok() && 0 < size <= TWO31
    ensures s.Shown() <= size && s.RoundsFit(size) ==>
              CountOf(Wrap32(|s.written|), Wrap32(s.consumed), |s.written| % size, s.consumed % size, size) == s.Shown()
  {
    if s.Shown() <= size {
      ShownPositionIff(s, size);
      PointersGiveLag(|s.written|, |s.written| - s.Shown(), size);
    }
  }

  /** The byte count from the pointers, whatever the lag. */
  function PointerLag(s: Stream, size: nat): (n: nat)
    requires s.Ok() && 0 < size
    ensures n <= size && n <= Max(s.Lag(), 0)
  {
    RemBound(s.Lag(), size);
    if Rem(s.Lag(), size) != 0 then Rem(s.Lag(), size) else if s.Shown() == 0 then 0 else size
  }

  /** And the window at the read pointer then holds the oldest of these bytes. */
  lemma WindowIsOldestHeld(d: seq<u8>, s: Stream, n: nat)
    requires s.Ok() && Holds(d, s.written) && n <= s.Shown() <= |d| && s.RoundsFit(|d|)
    ensures IsOldestHeld(Window(d, s.consumed % |d|, n), s, |d|)
  {
    ShownPositionIff(s, |d|);
    WindowIsSlice(d, s.written, |s.written| - s.Shown(), n);
  }

  /** What a read of at most `count` bytes gets from a stream in state s, for every lag: once overrun
      is resolved, as many bytes as the pointers tell, each the newest in its cell; and if the
      forgotten rounds fit, the oldest bytes the ring holds. */
  ghost predicate IsRead(bytes: seq<u8>, s: Stream, size: nat, count: nat)
    requires s.Ok() && 0 < size
  {
    && |bytes| == Min(count, PointerLag(s.Resynced(size), size))
    && AreNewest(bytes, s.written, s.Resynced(size).consumed, size)
    && (s.RoundsFit(size) ==> |bytes| == Min(count, s.Held(size)) && IsOldestHeld(bytes, s, size))
  }

  /** With a lag below 2^32 it is a take of the stream. */
  lemma ReadIsTake(bytes: seq<u8>, s: Stream, size: nat, count: nat)
    requires s.Ok() && 0 < size && s.Lag() < TWO32 && IsRead(bytes, s, size, count)
    ensures var s' := s.Resynced(size).Skip(|bytes|);
            && s' == After(s, size, Take(count)) && |bytes| == TakeCount(s, size, count)
            && bytes == s.written[s'.consumed - |bytes|..s'.consumed]
  {
    SmallLagFits(s, size);
    TakeIsOldestHeld(s, size, count);
  }

  /** A read never passes what is unread. */
  lemma ReadWithinLag(bytes: seq<u8>, s: Stream, size: nat, count: nat)
    requires s.Ok() && 0 < size && IsRead(bytes, s, size, count)
    ensures |bytes| <= s.Resynced(size).Readable(size)
  {
  }

  lemma ResyncedIsRead(bytes: seq<u8>, s: Stream, size: nat, count: nat)
    requires s.Ok() && 0 < size
    requires var r := s.Resynced(size);
             && |bytes| == Min(count, PointerLag(r, size)) && AreNewest(bytes, s.written, r.consumed, size)
             && (r.RoundsFit(size) ==> |bytes| == Min(count, r.Shown()) && IsOldestHeld(bytes, r, size))
    requires s.Resynced(size).Shown() == s.Held(size) && (s.Resynced(size).RoundsFit(size) <==> s.RoundsFit(size))
    ensures IsRead(bytes, s, size, count)
  {
  }

  /** With a lag below 2^32 a resync is a flush of the stream. */
  lemma SyncIsFlush(s: Stream, size: nat, leave: nat)
    requires s.Ok() && s.Lag() < TWO32
    ensures s.Skip(s.Shown() - Min(leave, s.Held(size))) == After(s, size, Flush(leave))
  {
  }

  class Ring {
    const size: u32
    const slots: u32
    const data: array<u8>
    var tx: u32
    var rx: u32
    var wp: u32
    var rp: u32
    ghost var stream: Stream

    /** Both counters are the stream's positions modulo 2^32, both pointers the same
        positions modulo the size, and the cells hold the newest bytes. No bound on the
        reader's lag: a lossy writer does not keep one. */
    ghost predicate Valid()
      reads this, data
    {
      && 0 < size <= TWO31 && data.Length == size && slots <= 1
      && stream.Ok()
      && tx == Wrap32(|stream.written|) && rx == Wrap32(stream.consumed)
      && wp == |stream.written| % size && rp == stream.consumed % size
      && Holds(data[..], stream.written)
    }

    constructor (size: u32, slots: u32)
      requires 0 < size <= TWO31 && slots <= 1
      ensures Valid() && this.size == size && this.slots == slots
      ensures stream == Stream([], 0)
    {
      this.size, this.slots := size, slots;
      data := new u8[size];
      tx, rx, wp, rp := 0, 0, 0, 0;
      stream := Stream([], 0);
    }

    function Delta(): u32
      reads this
    {
      ReadWriteDelta(tx, rx)
    }

    /** Both write fields, which stand for the same position, move on: the counter always to the
        new position, the pointer exactly when its u32 sum is safe. */
    method AdvanceTx(amount: u32, ghost pos: nat)
      requires 0 < size <= TWO31 && tx == Wrap32(pos) && wp == pos % size
      modifies this`tx, this`wp
      ensures tx == Wrap32(pos + amount)
      ensures wp < size && (wp == (pos + amount) % size <==> SumSafe(pos % size, amount, size))
    {
      CounterAdvance(pos, amount);
      PointerAdvanceExact(pos, amount, size);
      tx, wp := Wrap32(tx + amount), Wrap32(wp + amount) % size;
    }

    /** The same for the read fields. */
    method AdvanceRx(amount: u32, ghost pos: nat)
      requires 0 < size <= TWO31 && rx == Wrap32(pos) && rp == pos % size
      modifies this`rx, this`rp
      ensures rx == Wrap32(pos + amount)
      ensures rp < size && (rp == (pos + amount) % size <==> SumSafe(pos % size, amount, size))
    {
      CounterAdvance(pos, amount);
      PointerAdvanceExact(pos, amount, size);
      rx, rp := Wrap32(rx + amount), Wrap32(rp + amount) % size;
    }

    /** Drops all but the newest `bytesToLeave` bytes that the counters show. The read counter
        always follows the stream; the read pointer does exactly when its u32 sum does not wrap
        or the size divides 2^32. */
    method ReaderSyncOffset(bytesToLeave: nat)
      requires Valid()
      modifies this`rx, this`rp, this`stream
      ensures stream == old(stream).Skip(old(stream).Shown() - Min(bytesToLeave, old(stream).Held(size)))
      ensures old(stream).Lag() < TWO32 ==> stream == After(old(stream), size, Flush(bytesToLeave))
      ensures rx == Wrap32(stream.consumed) && rp < size
      ensures Valid() <==> SumSafe(old(rp), stream.consumed - old(stream.consumed), size)
    {
      ReadWriteDeltaIsLag(|stream.written|, stream.consumed);
      var leave := bytesToLeave;
      var delta := Delta();
      if leave > size {
        leave := size;
      }
      if delta < leave {
        leave := delta;
      }
      assert delta == stream.Shown() && leave == Min(bytesToLeave, stream.Held(size));
      if stream.Lag() < TWO32 {
        SyncIsFlush(stream, size, bytesToLeave);
      }
      AdvanceRx(delta - leave, stream.consumed);
      stream := stream.Skip(delta - leave);
    }

    /** aoc_ring_flush_read_data: safe whenever the lag is at most 2^32 - size. */
    method FlushReadData(bytesToLeave: nat) returns (ok: bool)
      requires Valid()
      modifies this`rx, this`rp, this`stream
      ensures ok && stream == old(stream).Skip(old(stream).Shown() - Min(bytesToLeave, old(stream).Held(size)))
      ensures old(stream).Lag() < TWO32 ==>
                && stream == After(old(stream), size, Flush(bytesToLeave)) && stream.written == old(stream.written)
                && stream.Lag() == Min(Min(bytesToLeave, size), old(stream).Lag())
      ensures old(stream).Lag() <= TWO32 - size ==> Valid()
      ensures Valid() <==> SumSafe(old(rp), stream.consumed - old(stream.consumed), size)
    {
      ReaderSyncOffset(bytesToLeave);
      ok := true;
    }

    function PointerCount(): (n: u32)
      reads this, data
      requires Valid()
      ensures n == PointerLag(stream, size)
      ensures stream.Shown() <= size && stream.RoundsFit(size) ==> n == stream.Shown()
    {
      PointersGiveRemainder(|stream.written|, stream.consumed, size);
      PointersGiveShown(stream, size);
      CountOf(tx, rx, wp, rp, size)
    }

    /** The two copies of a read that may wrap at the end of the ring. */
    method CopyOut(dest: array<u8>, n: nat)
      requires data.Length == size && rp < size && n <= size
      requires dest != data && n <= dest.Length
      modifies dest
      ensures dest[..n] == Window(data[..], rp, n)
      ensures dest[n..] == old(dest[n..])
    {
      if rp + n <= size {
        forall k | 0 <= k < n { dest[k] := data[rp + k]; }
      } else {
        var partial := size - rp;
        forall k | 0 <= k < partial { dest[k] := data[rp + k]; }
        forall k | 0 <= k < n - partial { dest[partial + k] := data[k]; }
      }
    }

    /** Drops what was overrun, as far as the counters show it. */
    method Resync()
      requires Valid()
      modifies this`rx, this`rp, this`stream
      ensures Valid() && stream == old(stream).Resynced(size)
      ensures stream.Shown() == old(stream).Held(size)
      ensures stream.RoundsFit(size) <==> old(stream).RoundsFit(size)
    {
      ReadWriteDeltaIsLag(|stream.written|, stream.consumed);
      if Delta() > size {
        ShownAfterSkip(stream, stream.Shown() - size);
        ReaderSyncOffset(size);
      }
    }

    /** The copy itself: as many bytes as the pointers tell and the buffer takes. */
    method CopyHeld(dest: array<u8>, destSize: nat) returns (toRead: nat)
      requires Valid() && stream.Shown() <= size && dest != data && destSize <= dest.Length
      modifies dest
      ensures toRead == Min(destSize, PointerLag(stream, size))
      ensures AreNewest(dest[..toRead], stream.written, stream.consumed, size)
      ensures stream.RoundsFit(size) ==>
                toRead == Min(destSize, stream.Shown()) && IsOldestHeld(dest[..toRead], stream, size)
      ensures dest[toRead..] == old(dest[toRead..])
    {
      var bytesAvailable := PointerCount();
      toRead := if bytesAvailable > destSize then destSize else bytesAvailable;
      CopyOut(dest, toRead);
      WindowIsNewest(data[..], stream.written, stream.consumed, toRead);
      if stream.RoundsFit(size) {
        WindowIsOldestHeld(data[..], stream, toRead);
      }
    }

    /** Copies out the oldest bytes the ring still holds, after dropping what was overrun. */
    method ReadBuffer(dest: array<u8>, destSize: nat) returns (toRead: nat)
      requires Valid() && dest != data && destSize <= dest.Length
      modifies this`rx, this`rp, this`stream, dest
      ensures Valid() && stream == old(stream).Resynced(size)
      ensures toRead <= destSize && IsRead(dest[..toRead], old(stream), size, destSize)
      ensures dest[toRead..] == old(dest[toRead..])
    {
      Resync();
      toRead := CopyHeld(dest, destSize);
      ResyncedIsRead(dest[..toRead], old(stream), size, destSize);
    }

    /** Stores at most one ring's worth of bytes at the write pointer, wrapping once. */
    method WriteBuffer(src: array<u8>, count: nat) returns (toWrite: u32)
      requires Valid() && src != data && count <= src.Length
      modifies data
      ensures toWrite == Min(Wrap32(count), size)
      ensures Window(data[..], wp, toWrite) == src[..toWrite]
      ensures forall k :: toWrite <= k < size ==> data[Cell(wp, k, size)] == old(data[Cell(wp, k, size)])
    {
      toWrite := Wrap32(count);
      if toWrite > size {
        toWrite := size;
      }
      if wp + toWrite <= size {
        forall k | 0 <= k < toWrite { data[wp + k] := src[k]; }
      } else {
        var partial := size - wp;
        forall k | 0 <= k < partial { data[wp + k] := src[k]; }
        forall k | 0 <= k < toWrite - partial { data[k] := src[partial + k]; }
      }
    }

    /** Makes the `amount` bytes found at the write pointer the newest bytes of the stream. */
    method AdvanceWriteIndex(amount: u32) returns (ok: bool)
      requires Valid()
      modifies this`tx, this`wp, this`stream
      ensures Valid()
      ensures ok == (amount <= size)
      ensures stream.consumed == old(stream.consumed)
      ensures stream.written == old(stream.written) + if ok then Window(data[..], old(wp), amount) else []
    {
      if size < amount {
        return false;
      }
      Publish(amount, data[..]);
      return true;
    }

    method Publish(amount: u32, ghost before: seq<u8>)
      requires 0 < size <= TWO31 && data.Length == size && slots <= 1 && stream.Ok() && amount <= size
      requires tx == Wrap32(|stream.written|) && rx == Wrap32(stream.consumed)
      requires wp == |stream.written| % size && rp == stream.consumed % size
      requires |before| == size && Holds(before, stream.written)
      requires forall k :: amount <= k < size ==> data[Cell(wp, k, size)] == before[Cell(wp, k, size)]
      modifies this`tx, this`wp, this`stream
      ensures Valid() && stream.consumed == old(stream.consumed)
      ensures stream.written == old(stream.written) + Window(data[..], old(wp), amount)
    {
      PublishWindow(before, data[..], stream.written, amount);
      ghost var bytes := Window(data[..], wp, amount);
      AdvanceTx(amount, |stream.written|);
      stream := stream.Put(bytes);
    }

    /** Moves the write pointer to cell 0 by publishing whatever the rest of the ring holds.
        The remainder is an int, so a pointer already at 0 republishes a full ring, except in
        a ring of 2^31 bytes, where the remainder is negative. */
    method ResetWritePointer() returns (ok: bool)
      requires Valid()
      modifies this`tx, this`wp, this`stream
      ensures Valid() && ok && wp == 0
      ensures stream.consumed == old(stream.consumed)
      ensures stream.written == old(stream.written) +
                                if size - old(wp) == TWO31 then [] else Window(data[..], old(wp), size - old(wp))
    {
      var bytesRemaining := if size - wp >= TWO31 then size - wp - TWO32 else size - wp;
      if bytesRemaining > 0 {
        ghost var w := |stream.written|;
        Publish(bytesRemaining, data[..]);
        DivModUnique(w + (size - old(wp)), size, w / size + 1, 0);
      }
      return true;
    }

    function BytesAvailableToRead(): (n: u32)
      reads this, data
      requires Valid()
      ensures n == stream.Held(size)
    {
      ReadWriteDeltaIsLag(|stream.written|, stream.consumed);
      if Delta() > size then size else Delta()
    }

    function BytesAvailableToWrite(): (n: u32)
      reads this, data
      requires Valid()
      ensures n + BytesAvailableToRead() == size
      ensures stream.Lag() < TWO32 ==> n == Max(0, size - stream.Lag())
    {
      size - BytesAvailableToRead()
    }

    /** Moves the reader past n bytes it can see. */
    method MoveReader(n: nat)
      requires Valid() && n <= stream.Readable(size)
      modifies this`rx, this`rp, this`stream
      ensures Valid() && stream == old(stream).Skip(n)
    {
      AdvanceRx(n, stream.consumed);
      stream := stream.Skip(n);
    }

    /** Skips up to `amount` readable bytes; reports whether all of them could be skipped. */
    method AdvanceReadIndex(amount: u32) returns (ok: bool)
      requires Valid()
      modifies this`rx, this`rp, this`stream
      ensures Valid() && stream == old(stream).Skip(Min(amount, old(stream).Held(size)))
      ensures old(stream).Lag() < TWO32 ==>
                && stream == After(old(stream), size, Drop(amount)) && stream.written == old(stream.written)
                && stream.consumed == old(stream.consumed) + Min(amount, Min(size, old(stream).Lag()))
      ensures ok == (amount <= old(stream).Held(size))
    {
      var n := amount;
      if BytesAvailableToRead() < amount {
        n := BytesAvailableToRead();
      }
      MoveReader(n);
      ok := n == amount;
    }

    function CanReadMessage(): (can: bool)
      reads this, data
      requires Valid()
      ensures can == (slots != 0 && stream.Shown() != 0)
    {
      ReadWriteDeltaIsLag(|stream.written|, stream.consumed);
      slots != 0 && tx != rx
    }

    /** aoc_service_read_message on a ring: one `Take` of the stream. From a reader 2^32 bytes or
        more behind the counters hide whole multiples of 2^32 bytes; it gets the newest bytes in
        the cells after its pointer, and these are the oldest bytes the ring holds if the hidden
        bytes are whole rounds of the ring. */
    method ReadMessage(buffer: array<u8>, count: nat) returns (ok: bool, n: nat)
      requires Valid() && buffer != data && count <= buffer.Length
      modifies this`rx, this`rp, this`stream, buffer
      ensures Valid()
      ensures ok == (slots != 0 && old(stream).Shown() != 0)
      ensures !ok ==> stream == old(stream) && n == count && buffer[..] == old(buffer[..])
      ensures ok ==> n <= count && IsRead(buffer[..n], old(stream), size, count)
      ensures ok ==> stream == old(stream).Resynced(size).Skip(n) && buffer[n..] == old(buffer[n..])
      ensures ok && old(stream).Lag() < TWO32 ==>
                && stream == After(old(stream), size, Take(count))
                && n == TakeCount(old(stream), size, count) == Min(count, Min(size, old(stream).Lag()))
                && stream.written == old(stream.written)
                && stream.consumed == Max(old(stream.consumed), |stream.written| - size) + n
                && buffer[..n] == stream.written[stream.consumed - n..stream.consumed]
    {
      if !CanReadMessage() {
        return false, count;
      }
      n := ReadBuffer(buffer, count);
      ghost var bytes := buffer[..n];
      ReadWithinLag(bytes, old(stream), size, count);
      if old(stream).Lag() < TWO32 {
        ReadIsTake(bytes, old(stream), size, count);
      }
      MoveReader(n);
      assert buffer[..n] == bytes;
      ok := true;
    }

    /** aoc_service_write_message on a ring: one `Put`; it overwrites unread bytes rather
        than refuse, and refuses only what could never fit. */
    method WriteMessage(buffer: array<u8>, count: nat) returns (ok: bool)
      requires Valid() && buffer != data && count <= buffer.Length
      modifies this`tx, this`wp, this`stream, data
      ensures Valid()
      ensures ok == (slots != 0 && count <= size)
      ensures ok ==> stream.written == old(stream.written) + buffer[..count] && stream.consumed == old(stream.consumed)
      ensures stream == if ok then After(old(stream), size, Put(buffer[..count])) else old(stream)
      ensures !ok ==> data[..] == old(data[..])
    {
      if slots == 0 || count > size {
        return false;
      }
      ghost var before := data[..];
      var n := WriteBuffer(buffer, count);
      assert n == count;
      ghost var bytes := Window(data[..], wp, n);
      assert bytes == buffer[..count];
      Publish(n, before);
      ok := true;
    }

    /** aoc_ring_did_overflow: true exactly when the next read will lose bytes. */
    method DidOverflow() returns (b: bool)
      requires Valid()
      ensures b <==> stream.Shown() > size
      ensures stream.Lag() < TWO32 ==> (b <==> stream.consumed < stream.ReadStart(size))
    {
      ReadWriteDeltaIsLag(|stream.written|, stream.consumed);
      b := Delta() > size;
    }
  }

  /** A flush that breaks its ring: 5 bytes, the reader at cell 4 and 2^32 - 1 bytes behind. */
  lemma FlushCanMisplaceReader()
    ensures var pos, amount, size := 4, TWO32 - 1, 5;
            Wrap32(pos % size + amount) % size != (pos + amount) % size
  {
  }
}
