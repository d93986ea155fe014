/** The byte ring between two processors with the producer as the code has it: it never looks at
    the space left, so it can overwrite bytes while they are being copied. Producer and consumer
    each make one memory access at a time, in any interleaving, and every byte the consumer copies
    is traced to the position in the stream that it came from. */
module RingOverrun {
  import opened Machine
  import opened RingRegion

  datatype Writer =
    | WIdle
    | WStore(bytes: seq<u8>, stored: nat)   // bytes stored so far
    | WHalf(n: nat)                         // counter published, pointer not yet

  datatype Reader =
    | RIdle
    | RSeen                                 // counters differed
    | RSync                                 // counters showed more than the ring's size
    | RSyncHalf(n: nat)                     // counter advanced past what was overrun, pointer not yet
    | RResynced
    | RCounted(tx: u32, rx: u32)            // the counters as sampled again
    | RCopy(n: nat, got: seq<u8>, seen: seq<nat>)
    | RHalf(n: nat)                         // counter advanced, pointer not yet

  /** A finished read: the position it claims for its first byte, the bytes, and for each of them
      how many bytes the producer had stored when it was copied. */
  datatype Read = Read(pos: nat, bytes: seq<u8>, seen: seq<nat>)

  datatype State = State(
    size: u32,
    cells: seq<u8>,
    tx: u32,
    wp: u32,
    rx: u32,
    rp: u32,
    writer: Writer,
    reader: Reader,
    written: seq<u8>,                       // every byte whose counter was published
    pos: nat,                               // the position that the read counter stands for
    done: seq<Read>)

  datatype Event =
    | BeginWrite(bytes: seq<u8>)
    | StoreByte
    | PublishTx
    | PublishWp
    | BeginRead
    | SampleDelta
    | Resync
    | ResyncRp
    | SampleCounters
    | SamplePointers(room: nat)
    | CopyByte
    | AdvanceRx
    | AdvanceRp

  function Init(size: u32): State {
    State(size, seq(size, _ => 0), 0, 0, 0, 0, WIdle, RIdle, [], 0, [])
  }

  /** Every byte that was stored, the unpublished ones included. */
  function Stored(s: State): seq<u8> {
    s.written +
    if s.writer.WStore? && s.writer.stored <= |s.writer.bytes| then s.writer.bytes[..s.writer.stored] else []
  }

  predicate Sane(s: State) {
    0 < s.size <= TWO31 && |s.cells| == s.size && s.wp < s.size && s.rp < s.size
  }

  function WriterMove(s: State, e: Event): State
    requires Sane(s)
  {
    match e
    case BeginWrite(bytes) =>
      if s.writer.WIdle? && |bytes| <= s.size then s.(writer := WStore(bytes, 0)) else s
    case StoreByte =>
      if s.writer.WStore? && s.writer.stored < |s.writer.bytes| && s.writer.stored < s.size then
        var k := s.writer.stored;
        var cells: seq<u8> := s.cells[Cell(s.wp, k, s.size) := s.writer.bytes[k]];
        s.(cells := cells, writer := s.writer.(stored := k + 1))
      else s
    case PublishTx =>
      if s.writer.WStore? && s.writer.stored == |s.writer.bytes| then
        s.(tx := Wrap32(s.tx + |s.writer.bytes|), written := s.written + s.writer.bytes,
           writer := WHalf(|s.writer.bytes|))
      else s
    case _ =>
      if s.writer.WHalf? then s.(wp := Wrap32(s.wp + s.writer.n) % s.size, writer := WIdle) else s
  }

  function ReaderMove(s: State, e: Event): State
    requires Sane(s)
  {
    match e
    case BeginRead =>
      if s.reader.RIdle? && s.tx != s.rx then s.(reader := RSeen) else s
    case SampleDelta =>
      if s.reader.RSeen? then
        s.(reader := if ReadWriteDelta(s.tx, s.rx) > s.size then RSync else RResynced)
      else s
    case Resync =>
      if s.reader.RSync? then
        var delta := ReadWriteDelta(s.tx, s.rx);
        var n := delta - Min(s.size, delta);
        s.(rx := Wrap32(s.rx + n), pos := s.pos + n, reader := RSyncHalf(n))
      else s
    case ResyncRp =>
      if s.reader.RSyncHalf? then s.(rp := Wrap32(s.rp + s.reader.n) % s.size, reader := RResynced) else s
    case SampleCounters =>
      if s.reader.RResynced? then s.(reader := RCounted(s.tx, s.rx)) else s
    case SamplePointers(room) =>
      if s.reader.RCounted? then
        s.(reader := RCopy(Min(room, CountOf(s.reader.tx, s.reader.rx, s.wp, s.rp, s.size)), [], []))
      else s
    case CopyByte =>
      if s.reader.RCopy? && |s.reader.got| < s.reader.n && |s.reader.got| < s.size then
        var b := s.cells[Cell(s.rp, |s.reader.got|, s.size)];
        s.(reader := RCopy(s.reader.n, s.reader.got + [b], s.reader.seen + [|Stored(s)|]))
      else s
    case AdvanceRx =>
      if s.reader.RCopy? && |s.reader.got| == s.reader.n then
        s.(rx := Wrap32(s.rx + s.reader.n), pos := s.pos + s.reader.n, reader := RHalf(s.reader.n),
           done := s.done + [Read(s.pos, s.reader.got, s.reader.seen)])
      else s
    case _ =>
      if s.reader.RHalf? then s.(rp := Wrap32(s.rp + s.reader.n) % s.size, reader := RIdle) else s
  }

  predicate ByWriter(e: Event) {
    e.BeginWrite? || e.StoreByte? || e.PublishTx? || e.PublishWp?
  }

  /** One access; an event whose turn it is not changes nothing. */
  function Apply(s: State, e: Event): State {
    if !Sane(s) then s else if ByWriter(e) then WriterMove(s, e) else ReaderMove(s, e)
  }

  function Run(s: State, es: seq<Event>): State
    decreases es
  {
    if es == [] then s else Run(Apply(s, es[0]), es[1..])
  }

  // ------------------------------------------------------------- where a copied byte comes from

  /** What the cell of position i holds once t bytes of w are stored. */
  function Loaded(w: seq<u8>, i: int, t: nat, size: nat): u8
    requires 0 < size
  {
    var q := Newest(i, t, size);
    if 0 <= q < |w| then w[q] else 0
  }

  lemma NewestUnique(i: int, t: int, size: nat, q: int)
    requires 0 < size && t - size <= q < t && q % size == i % size
    ensures q == Newest(i, t, size)
  {
    NewestIff(i, t, size);
    var p := Newest(i, t, size);
    if p < q {
      ModDistinct(p, q, size);
    } else if q < p {
      ModDistinct(q, p, size);
    }
  }

  /** One more byte stored changes only what its own cell stands for. */
  lemma NewestStep(i: int, t: int, size: nat)
    requires 0 < size
    ensures Newest(i, t + 1, size) == if i % size == t % size then t else Newest(i, t, size)
  {
    NewestIff(i, t, size);
    if i % size == t % size {
      NewestUnique(i, t + 1, size, t);
    } else {
      var q := Newest(i, t, size);
      if q == t - size {
        ModShiftIff(t, size, size);
        DivModUnique(size, size, 1, 0);
        assert false;
      }
      NewestUnique(i, t + 1, size, q);
    }
  }

  lemma NewestOfCell(i: int, t: int, size: nat)
    requires 0 < size
    ensures Newest(i % size, t, size) == Newest(i, t, size)
  {
    NewestIff(i, t, size);
    DivModUnique(i % size, size, 0, i % size);
    NewestUnique(i % size, t, size, Newest(i, t, size));
  }

  /** Each byte was, when it was copied, what its cell held. */
  ghost predicate Traced(bytes: seq<u8>, seen: seq<nat>, pos: nat, w: seq<u8>, size: nat)
    requires 0 < size
  {
    && |bytes| == |seen|
    && forall k | 0 <= k < |bytes| :: seen[k] <= |w| && bytes[k] == Loaded(w, pos + k, seen[k], size)
  }

  lemma TracedGrows(bytes: seq<u8>, seen: seq<nat>, pos: nat, w: seq<u8>, more: seq<u8>, size: nat)
    requires 0 < size && Traced(bytes, seen, pos, w, size)
    ensures Traced(bytes, seen, pos, w + more, size)
  {
    forall k | 0 <= k < |bytes|
      ensures seen[k] <= |w + more| && bytes[k] == Loaded(w + more, pos + k, seen[k], size)
    {
      NewestIff(pos + k, seen[k], size);
    }
  }

  /** A copied byte is the one written at its position, whatever else was written, if and only if
      the producer had stored that position and not yet the one a round later. */
  lemma CopyExactIff(i: nat, t: nat, size: nat, n: nat)
    requires 0 < size && i < n && t <= n
    ensures (forall w: seq<u8> | |w| == n :: Loaded(w, i, t, size) == w[i]) <==> i < t <= i + size
  {
    NewestIff(i, t, size);
    if !(i < t <= i + size) {
      var w: seq<u8> := seq(n, j => if j == i then 1 else 0);
      assert |w| == n && w[i] == 1 && Loaded(w, i, t, size) == 0;
    }
  }

  /** Every byte of a read was copied in time. */
  ghost predicate InTime(r: Read, size: nat) {
    |r.bytes| == |r.seen| && forall k | 0 <= k < |r.seen| :: r.pos + k < r.seen[k] <= r.pos + k + size
  }

  lemma InTimeIsExact(r: Read, w: seq<u8>, size: nat)
    requires 0 < size && Traced(r.bytes, r.seen, r.pos, w, size) && InTime(r, size) && r.bytes != []
    ensures r.pos + |r.bytes| <= |w| && r.bytes == w[r.pos..r.pos + |r.bytes|]
  {
    var n := |r.bytes|;
    assert r.pos + (n - 1) < r.seen[n - 1] <= |w|;
    forall k | 0 <= k < n
      ensures r.bytes[k] == w[r.pos..r.pos + n][k]
    {
      assert r.seen[k] <= |w|;
      NewestIff(r.pos + k, r.seen[k], size);
    }
  }

  // ------------------------------------------------------------- every interleaving

  function WpPos(s: State): int {
    |s.written| - if s.writer.WHalf? then s.writer.n else 0
  }

  function RpPos(s: State): int {
    s.pos - if s.reader.RHalf? || s.reader.RSyncHalf? then s.reader.n else 0
  }

  /** Counters and pointers stand for their positions; a u32 sum still to be taken will not wrap. */
  ghost predicate Fields(s: State) {
    && 0 < s.size <= TWO31 && |s.cells| == s.size && 0 <= WpPos(s) && 0 <= RpPos(s)
    && s.tx == Wrap32(|s.written|) && s.rx == Wrap32(s.pos)
    && s.wp == WpPos(s) % s.size && s.rp == RpPos(s) % s.size
    && (s.writer.WHalf? ==> s.writer.n <= s.size)
    && (s.writer.WStore? ==> s.writer.stored <= |s.writer.bytes| <= s.size)
    && (s.reader.RHalf? || s.reader.RSyncHalf? ==> s.reader.n <= TWO32 - s.size)
    && (s.reader.RCopy? ==> s.reader.n <= s.size)
  }

  /** Each cell holds the newest byte stored in it. */
  ghost predicate CellsOk(cells: seq<u8>, w: seq<u8>) {
    |cells| > 0 && forall c | 0 <= c < |cells| :: cells[c] == Loaded(w, c, |w|, |cells|)
  }

  ghost predicate ReadsOk(s: State)
    requires 0 < s.size
  {
    && (s.reader.RCopy? ==> Traced(s.reader.got, s.reader.seen, s.pos, Stored(s), s.size))
    && forall r | r in s.done :: Traced(r.bytes, r.seen, r.pos, Stored(s), s.size)
  }

  ghost predicate Inv(s: State) {
    Fields(s) && CellsOk(s.cells, Stored(s)) && ReadsOk(s)
  }

  lemma InitInv(size: u32)
    requires 0 < size <= TWO31
    ensures Inv(Init(size))
  {
    forall c | 0 <= c < size
      ensures Loaded([], c, 0, size) == 0
    {
      NewestIff(c, 0, size);
    }
    DivModUnique(0, size, 0, 0);
  }

  lemma PointerMoves(pos: nat, n: nat, size: nat)
    requires 0 < size <= TWO31 && n <= TWO32 - size
    ensures Wrap32(pos % size + n) % size == (pos + n) % size
  {
    PointerAdvanceExact(pos, n, size);
  }

  lemma WriterKeepsFields(s: State, e: Event)
    requires Fields(s) && ByWriter(e)
    ensures Fields(WriterMove(s, e))
  {
    if e.PublishTx? && s.writer.WStore? {
      CounterAdvance(|s.written|, |s.writer.bytes|);
    } else if e.PublishWp? && s.writer.WHalf? {
      PointerMoves(WpPos(s), s.writer.n, s.size);
    }
  }

  lemma ReaderKeepsFields(s: State, e: Event)
    requires Fields(s) && !ByWriter(e)
    ensures Fields(ReaderMove(s, e))
  {
    if e.AdvanceRx? || e.Resync? {
      CounterKeepsFields(s, e);
    } else if e.AdvanceRp? || e.ResyncRp? {
      PointerKeepsFields(s, e);
    }
  }

  lemma CounterKeepsFields(s: State, e: Event)
    requires Fields(s) && (e.AdvanceRx? || e.Resync?)
    ensures Fields(ReaderMove(s, e))
  {
    var s' := ReaderMove(s, e);
    if s' != s {
      CounterMoves(s, s'.reader);
    }
  }

  /** The read counter moves on, the read pointer not yet. */
  lemma CounterMoves(s: State, half: Reader)
    requires Fields(s) && RpPos(s) == s.pos && (half.RHalf? || half.RSyncHalf?) && half.n <= TWO32 - s.size
    ensures Fields(s.(rx := Wrap32(s.rx + half.n), pos := s.pos + half.n, reader := half))
  {
    CounterAdvance(s.pos, half.n);
  }

  lemma PointerKeepsFields(s: State, e: Event)
    requires Fields(s) && (e.AdvanceRp? || e.ResyncRp?)
    ensures Fields(ReaderMove(s, e))
  {
    var s' := ReaderMove(s, e);
    if s' != s {
      PointerMoves(RpPos(s), s.reader.n, s.size);
      assert RpPos(s') == RpPos(s) + s.reader.n == s.pos && WpPos(s') == WpPos(s);
    }
  }

  lemma CellsOkSnoc(cells: seq<u8>, w: seq<u8>, b: u8)
    requires CellsOk(cells, w)
    ensures CellsOk(cells[|w| % |cells| := b], w + [b])
  {
    var m, w' := |cells|, w + [b];
    forall c | 0 <= c < m
      ensures cells[|w| % m := b][c] == Loaded(w', c, |w'|, m)
    {
      DivModUnique(c, m, 0, c);
      NewestStep(c, |w|, m);
      NewestIff(c, |w|, m);
    }
  }

  /** What a writer's access does to the bytes stored. */
  lemma WriterKeepsCells(s: State, e: Event)
    requires Fields(s) && CellsOk(s.cells, Stored(s)) && ByWriter(e)
    ensures var s' := WriterMove(s, e);
            && CellsOk(s'.cells, Stored(s'))
            && (Stored(s') == Stored(s) || exists b :: Stored(s') == Stored(s) + [b])
  {
    var s', w := WriterMove(s, e), Stored(s);
    if e.StoreByte? && s' != s {
      var k := s.writer.stored;
      CellOf(|s.written|, k, s.size);
      StoredSnoc(s.written, s.writer.bytes, k);
      CellsOkSnoc(s.cells, w, s.writer.bytes[k]);
      assert Stored(s') == w + [s.writer.bytes[k]];
    } else {
      assert Stored(s') == w;
    }
  }

  lemma StoredSnoc(w: seq<u8>, bytes: seq<u8>, k: nat)
    requires k < |bytes|
    ensures w + bytes[..k + 1] == (w + bytes[..k]) + [bytes[k]]
  {
  }

  lemma ReadsOkGrow(s: State, s': State, more: seq<u8>)
    requires 0 < s.size == s'.size && ReadsOk(s) && Stored(s') == Stored(s) + more
    requires s'.reader == s.reader && s'.done == s.done && s'.pos == s.pos
    ensures ReadsOk(s')
  {
    if s.reader.RCopy? {
      TracedGrows(s.reader.got, s.reader.seen, s.pos, Stored(s), more, s.size);
    }
    forall r | r in s.done
      ensures Traced(r.bytes, r.seen, r.pos, Stored(s'), s.size)
    {
      TracedGrows(r.bytes, r.seen, r.pos, Stored(s), more, s.size);
    }
  }

  lemma WriterKeepsInv(s: State, e: Event)
    requires Inv(s) && ByWriter(e)
    ensures Inv(WriterMove(s, e))
  {
    var s' := WriterMove(s, e);
    WriterKeepsFields(s, e);
    WriterKeepsCells(s, e);
    if Stored(s') == Stored(s) {
      assert Stored(s') == Stored(s) + [];
      ReadsOkGrow(s, s', []);
    } else {
      var b :| Stored(s') == Stored(s) + [b];
      ReadsOkGrow(s, s', [b]);
    }
  }

  /** The k-th cell after the read pointer. */
  lemma CellLoads(cells: seq<u8>, w: seq<u8>, pos: nat, k: nat)
    requires CellsOk(cells, w) && k < |cells|
    ensures cells[Cell(pos % |cells|, k, |cells|)] == Loaded(w, pos + k, |w|, |cells|)
  {
    CellOf(pos, k, |cells|);
    NewestOfCell(pos + k, |w|, |cells|);
  }

  lemma TracedSnoc(bytes: seq<u8>, seen: seq<nat>, pos: nat, w: seq<u8>, size: nat)
    requires 0 < size && Traced(bytes, seen, pos, w, size)
    ensures Traced(bytes + [Loaded(w, pos + |bytes|, |w|, size)], seen + [|w|], pos, w, size)
  {
  }

  lemma CopyIsTraced(s: State)
    requires Inv(s) && s.reader.RCopy? && |s.reader.got| < s.reader.n
    ensures var s' := ReaderMove(s, CopyByte);
            Traced(s'.reader.got, s'.reader.seen, s.pos, Stored(s), s.size)
  {
    CellLoads(s.cells, Stored(s), s.pos, |s.reader.got|);
    TracedSnoc(s.reader.got, s.reader.seen, s.pos, Stored(s), s.size);
  }

  lemma ReaderKeepsInv(s: State, e: Event)
    requires Inv(s) && !ByWriter(e)
    ensures Inv(ReaderMove(s, e))
  {
    var s' := ReaderMove(s, e);
    ReaderKeepsFields(s, e);
    assert s'.cells == s.cells && Stored(s') == Stored(s);
    if e.CopyByte? && s' != s {
      CopyIsTraced(s);
    }
  }

  lemma StepKeepsInv(s: State, e: Event)
    requires Inv(s)
    ensures Inv(Apply(s, e))
  {
    if ByWriter(e) {
      WriterKeepsInv(s, e);
    } else {
      ReaderKeepsInv(s, e);
    }
  }

  lemma {:induction false} RunKeepsInv(s: State, es: seq<Event>)
    requires Inv(s)
    ensures Inv(Run(s, es))
    decreases es
  {
    if es != [] {
      StepKeepsInv(s, es[0]);
      RunKeepsInv(Apply(s, es[0]), es[1..]);
    }
  }

  /** In every interleaving, however far the producer runs ahead: each byte of each finished read is
      the newest that was stored in its cell when it was copied, and a read whose bytes were all
      copied in time is the stream at its position. */
  lemma EveryReadIsTraced(size: u32, es: seq<Event>)
    requires 0 < size <= TWO31
    ensures var s := Run(Init(size), es);
            forall r | r in s.done ::
              && Traced(r.bytes, r.seen, r.pos, Stored(s), size)
              && (InTime(r, size) && r.bytes != [] ==>
                    r.pos + |r.bytes| <= |Stored(s)| && r.bytes == Stored(s)[r.pos..r.pos + |r.bytes|])
  {
    var s := Run(Init(size), es);
    InitInv(size);
    RunKeepsInv(Init(size), es);
    SizeKept(Init(size), es);
    forall r | r in s.done && InTime(r, size) && r.bytes != []
      ensures r.pos + |r.bytes| <= |Stored(s)| && r.bytes == Stored(s)[r.pos..r.pos + |r.bytes|]
    {
      InTimeIsExact(r, Stored(s), size);
    }
  }

  lemma {:induction false} SizeKept(s: State, es: seq<Event>)
    ensures Run(s, es).size == s.size
    decreases es
  {
    if es != [] {
      SizeKept(Apply(s, es[0]), es[1..]);
    }
  }

  // ------------------------------------------------------------- a consumer left alone

  /** The oldest position that the ring still holds of those not read. */
  function HeldFrom(w: seq<u8>, pos: nat, size: nat): nat {
    Max(pos, |w| - size)
  }

  /** A read of the stream w by a consumer at position `pos`, asking for one of the `rooms`: from the
      oldest position still held, as many bytes as are there and fit, each copied in time. */
  ghost predicate IsWholeRead(r: Read, w: seq<u8>, pos: nat, size: nat, rooms: set<nat>) {
    && r.pos == Max(pos, |w| - size) && InTime(r, size)
    && (exists room | room in rooms :: |r.bytes| == Min(room, Min(size, |w| - pos)))
    && r.pos + |r.bytes| <= |w| && r.bytes == w[r.pos..r.pos + |r.bytes|]
  }

  /** Where a consumer that started at position `pos` stands while the producer rests. */
  ghost predicate Alone(s: State, w: seq<u8>, pos: nat, rooms: set<nat>) {
    && Inv(s) && s.writer.WIdle? && s.written == w && pos < |w| < pos + TWO32
    && match s.reader
       case RIdle => s.pos == pos
       case RSeen => s.pos == pos
       case RSync => s.pos == pos && |w| - pos > s.size
       case RSyncHalf(_) => s.pos == HeldFrom(w, pos, s.size)
       case RResynced => s.pos == HeldFrom(w, pos, s.size)
       case RCounted(tx, rx) => s.pos == HeldFrom(w, pos, s.size) && tx == s.tx && rx == s.rx
       case RCopy(n, got, seen) =>
         && s.pos == HeldFrom(w, pos, s.size) && |got| <= n
         && (exists room | room in rooms :: n == Min(room, Min(s.size, |w| - pos)))
         && forall t | t in seen :: t == |w|
       case RHalf(_) => false
  }

  lemma SamplesAlone(s: State, w: seq<u8>, pos: nat, rooms: set<nat>, room: nat)
    requires Alone(s, w, pos, rooms) && s.reader.RCounted? && room in rooms
    ensures Alone(ReaderMove(s, SamplePointers(room)), w, pos, rooms)
  {
    var s' := ReaderMove(s, SamplePointers(room));
    PointersGiveLag(|w|, s.pos, s.size);
    ReaderKeepsInv(s, SamplePointers(room));
    assert s'.reader == RCopy(Min(room, Min(s.size, |w| - pos)), [], []);
  }

  lemma FinishesAlone(s: State, w: seq<u8>, pos: nat, rooms: set<nat>)
    requires Alone(s, w, pos, rooms) && s.reader.RCopy? && |s.reader.got| == s.reader.n
    ensures IsWholeRead(Read(s.pos, s.reader.got, s.reader.seen), w, pos, s.size, rooms)
  {
    var r := Read(s.pos, s.reader.got, s.reader.seen);
    assert Stored(s) == w + [] == w;
    assert InTime(r, s.size) by {
      assert forall k | 0 <= k < |r.seen| :: r.seen[k] in r.seen;
    }
    if r.bytes != [] {
      InTimeIsExact(r, w, s.size);
    }
  }

  lemma DeltaAlone(s: State, w: seq<u8>, pos: nat, rooms: set<nat>, e: Event)
    requires Alone(s, w, pos, rooms) && (e.SampleDelta? || e.Resync?)
    ensures Alone(ReaderMove(s, e), w, pos, rooms)
  {
    ReadWriteDeltaIsLag(|w|, s.pos);
    ReaderKeepsInv(s, e);
  }

  lemma CopiesAlone(s: State, w: seq<u8>, pos: nat, rooms: set<nat>)
    requires Alone(s, w, pos, rooms)
    ensures Alone(ReaderMove(s, CopyByte), w, pos, rooms)
  {
    assert Stored(s) == w + [] == w;
    ReaderKeepsInv(s, CopyByte);
  }

  /** One access of the consumer: either it stays on the way, or it has finished a whole read. */
  lemma StepAlone(s: State, w: seq<u8>, pos: nat, rooms: set<nat>, e: Event)
    requires Alone(s, w, pos, rooms) && !ByWriter(e) && (e.SamplePointers? ==> e.room in rooms)
    ensures var s' := Apply(s, e);
            && s'.size == s.size && Inv(s')
            && ((s'.done == s.done && Alone(s', w, pos, rooms)) ||
                (|s'.done| == |s.done| + 1 && s.done <= s'.done &&
                 IsWholeRead(s'.done[|s.done|], w, pos, s.size, rooms)))
  {
    ReaderKeepsInv(s, e);
    if e.SamplePointers? && s.reader.RCounted? {
      SamplesAlone(s, w, pos, rooms, e.room);
    } else if e.AdvanceRx? && s.reader.RCopy? && |s.reader.got| == s.reader.n {
      FinishesAlone(s, w, pos, rooms);
    } else if e.SampleDelta? || e.Resync? {
      DeltaAlone(s, w, pos, rooms, e);
    } else if e.CopyByte? {
      CopiesAlone(s, w, pos, rooms);
    }
  }

  lemma {:induction false} DoneGrows(s: State, es: seq<Event>)
    ensures s.done <= Run(s, es).done
    decreases es
  {
    if es != [] {
      DoneGrows(Apply(s, es[0]), es[1..]);
    }
  }

  lemma {:induction false} RunAlone(s: State, es: seq<Event>, w: seq<u8>, pos: nat, rooms: set<nat>)
    requires Alone(s, w, pos, rooms)
    requires forall e | e in es :: !ByWriter(e) && (e.SamplePointers? ==> e.room in rooms)
    requires |Run(s, es).done| > |s.done|
    ensures IsWholeRead(Run(s, es).done[|s.done|], w, pos, s.size, rooms)
    decreases es
  {
    if es != [] {
      var s1 := Apply(s, es[0]);
      StepAlone(s, w, pos, rooms, es[0]);
      if s1.done == s.done {
        RunAlone(s1, es[1..], w, pos, rooms);
      } else {
        DoneGrows(s1, es[1..]);
      }
    }
  }

  /** The room that each sample of a run asks for. */
  function Rooms(es: seq<Event>): set<nat> {
    set e | e in es && e.SamplePointers? :: e.room
  }

  /** From every reachable state with unread bytes, less than 2^32 of them, in every run of the
      consumer while the producer rests: the first read that ends starts one ring's size behind the
      writer if it was overrun, else where the reader was; and it delivers the stream from there,
      as many bytes as there are and as it has room for. */
  lemma ReadAloneIsExact(s: State, es: seq<Event>)
    requires Inv(s) && s.writer.WIdle? && s.reader.RIdle? && s.pos < |s.written| < s.pos + TWO32
    requires (forall e | e in es :: !ByWriter(e)) && |Run(s, es).done| > |s.done|
    ensures IsWholeRead(Run(s, es).done[|s.done|], s.written, s.pos, s.size, Rooms(es))
  {
    RunAlone(s, es, s.written, s.pos, Rooms(es));
  }

  /** With nothing unread the consumer, whatever it tries, does nothing. */
  lemma {:induction false} NothingToRead(s: State, es: seq<Event>)
    requires Inv(s) && s.reader.RIdle? && s.pos == |s.written| && forall e | e in es :: !ByWriter(e)
    ensures Run(s, es) == s
    decreases es
  {
    if es != [] {
      assert es[0] in es;
      assert Apply(s, es[0]) == s;
      NothingToRead(s, es[1..]);
    }
  }

  /** A message that could never fit is not begun. */
  lemma TooLongIsRefused(s: State, bytes: seq<u8>)
    requires |bytes| > s.size
    ensures Apply(s, BeginWrite(bytes)) == s
  {
  }

  function NextRead(s: State, room: nat): Event {
    match s.reader
    case RIdle => BeginRead
    case RSeen => SampleDelta
    case RSync => Resync
    case RSyncHalf(_) => ResyncRp
    case RResynced => SampleCounters
    case RCounted(_, _) => SamplePointers(room)
    case RCopy(n, got, _) => if |got| < n then CopyByte else AdvanceRx
    case RHalf(_) => AdvanceRp
  }

  function Rank(s: State): nat {
    match s.reader
    case RCopy(n, got, _) => if |got| <= n then n - |got| else 0
    case RCounted(_, _) => s.size + 1
    case RResynced => s.size + 2
    case RSyncHalf(_) => s.size + 3
    case RSync => s.size + 4
    case RSeen => s.size + 5
    case _ => s.size + 6
  }

  lemma NextAlone(s: State, w: seq<u8>, pos: nat, room: nat)
    requires Alone(s, w, pos, {room})
    ensures var s' := Apply(s, NextRead(s, room)); s'.done != s.done || Rank(s') < Rank(s)
  {
    ReadWriteDeltaIsLag(|w|, s.pos);
  }

  /** And such a read ends: the consumer alone gets to it, whatever room it has. */
  lemma {:induction false} ReadAloneEnds(s: State, w: seq<u8>, pos: nat, room: nat) returns (es: seq<Event>)
    requires Alone(s, w, pos, {room})
    ensures (forall e | e in es :: !ByWriter(e)) && Rooms(es) <= {room} && |Run(s, es).done| == |s.done| + 1
    ensures IsWholeRead(Run(s, es).done[|s.done|], w, pos, s.size, {room})
    decreases Rank(s)
  {
    var e := NextRead(s, room);
    var s1 := Apply(s, e);
    StepAlone(s, w, pos, {room}, e);
    NextAlone(s, w, pos, room);
    if s1.done != s.done {
      es := [e];
      assert es[1..] == [];
    } else {
      var rest := ReadAloneEnds(s1, w, pos, room);
      es := [e] + rest;
      assert es[1..] == rest;
    }
  }

  // ------------------------------------------------------------- a copy that comes too late

  lemma {:induction false} RunConcat(s: State, a: seq<Event>, b: seq<Event>)
    ensures Run(s, a + b) == Run(Run(s, a), b)
    decreases a
  {
    if a == [] {
      assert a + b == b;
    } else {
      assert (a + b)[1..] == a[1..] + b;
      RunConcat(Apply(s, a[0]), a[1..], b);
    }
  }

  lemma RunSnoc(s: State, es: seq<Event>, e: Event)
    ensures Run(s, es + [e]) == Apply(Run(s, es), e)
  {
    RunConcat(s, es, [e]);
    assert Run(Run(s, es), [e]) == Run(Apply(Run(s, es), e), []);
  }

  lemma RunFour(s: State, a: Event, b: Event, c: Event, d: Event)
    ensures Run(s, [a, b, c, d]) == Apply(Apply(Apply(Apply(s, a), b), c), d)
  {
    RunSnoc(s, [], a);
    RunSnoc(s, [a], b);
    RunSnoc(s, [a, b], c);
    RunSnoc(s, [a, b, c], d);
    assert [] + [a] == [a] && [a] + [b] == [a, b] && [a, b] + [c] == [a, b, c] && [a, b, c] + [d] == [a, b, c, d];
  }

  /** The ring after one byte was written to it. */
  function One(size: u32): State
    requires 0 < size
  {
    var cells: seq<u8> := Init(size).cells[0 := 1];
    Init(size).(cells := cells, tx := 1, wp := 1 % size, written := [1])
  }

  lemma WritesOne(size: u32)
    requires 0 < size <= TWO31
    ensures Run(Init(size), [BeginWrite([1]), StoreByte, PublishTx, PublishWp]) == One(size)
  {
    var s := Init(size);
    var s1 := s.(writer := WStore([1], 0));
    var s2 := s1.(cells := One(size).cells, writer := WStore([1], 1));
    var s3 := s2.(tx := 1, written := [1], writer := WHalf(1));
    assert Apply(s, BeginWrite([1])) == s1 && Apply(s1, StoreByte) == s2;
    assert [] + [1] == [1];
    assert Apply(s2, PublishTx) == s3 && Apply(s3, PublishWp) == One(size);
    RunFour(s, BeginWrite([1]), StoreByte, PublishTx, PublishWp);
  }

  lemma SamplesOne(size: u32)
    requires 0 < size <= TWO31
    ensures Run(One(size), [BeginRead, SampleDelta, SampleCounters, SamplePointers(1)]) ==
            One(size).(reader := RCopy(1, [], []))
  {
    var s := One(size);
    if size > 1 {
      DivModUnique(1, size, 0, 1);
    }
    var s1, s2, s3 := s.(reader := RSeen), s.(reader := RResynced), s.(reader := RCounted(1, 0));
    assert Apply(s, BeginRead) == s1 && Apply(s1, SampleDelta) == s2 && Apply(s2, SampleCounters) == s3;
    RunFour(s, BeginRead, SampleDelta, SampleCounters, SamplePointers(1));
  }

  /** One byte written to an empty ring, and the consumer about to copy it. */
  lemma AboutToCopy(size: u32) returns (es: seq<Event>)
    requires 0 < size <= TWO31
    ensures Run(Init(size), es) == One(size).(reader := RCopy(1, [], [])) && Inv(Run(Init(size), es))
  {
    var writes: seq<Event> := [BeginWrite([1]), StoreByte, PublishTx, PublishWp];
    var samples: seq<Event> := [BeginRead, SampleDelta, SampleCounters, SamplePointers(1)];
    es := writes + samples;
    WritesOne(size);
    SamplesOne(size);
    RunConcat(Init(size), writes, samples);
    InitInv(size);
    RunKeepsInv(Init(size), es);
  }

  /** The stores that remain of a write. */
  lemma {:induction false} StoresRun(s: State, n: nat) returns (es: seq<Event>)
    requires Inv(s) && s.writer.WStore? && s.writer.stored + n == |s.writer.bytes|
    ensures forall e | e in es :: e.StoreByte?
    ensures var s' := Run(s, es);
            && Inv(s') && s'.writer == WStore(s.writer.bytes, |s.writer.bytes|) && s'.written == s.written
            && s'.size == s.size && s'.pos == s.pos && s'.done == s.done && s'.reader == s.reader
    decreases n
  {
    es := [];
    if n > 0 {
      var s1 := Apply(s, StoreByte);
      StepKeepsInv(s, StoreByte);
      var rest := StoresRun(s1, n - 1);
      es := [StoreByte] + rest;
      assert es[1..] == rest;
    }
  }

  /** A whole write, from every reachable state with the producer at rest: it publishes exactly the
      message, whatever the consumer has read, and leaves the consumer alone. */
  lemma WriteAlone(s: State, bytes: seq<u8>) returns (es: seq<Event>)
    requires Inv(s) && s.writer.WIdle? && |bytes| <= s.size
    ensures forall e | e in es :: ByWriter(e)
    ensures var s' := Run(s, es);
            && Inv(s') && s'.writer.WIdle? && s'.written == s.written + bytes
            && s'.size == s.size && s'.pos == s.pos && s'.done == s.done && s'.reader == s.reader
  {
    var s1 := Apply(s, BeginWrite(bytes));
    StepKeepsInv(s, BeginWrite(bytes));
    var stores := StoresRun(s1, |bytes|);
    var s2 := Run(s1, stores);
    PublishesAlone(s2);
    var publish: seq<Event> := [PublishTx, PublishWp];
    RunConcat(s1, stores, publish);
    es := [BeginWrite(bytes)] + (stores + publish);
    assert es[1..] == stores + publish;
  }

  lemma PublishesAlone(s: State)
    requires Inv(s) && s.writer.WStore? && s.writer.stored == |s.writer.bytes|
    ensures var s' := Run(s, [PublishTx, PublishWp]);
            && Inv(s') && s'.writer.WIdle? && s'.written == s.written + s.writer.bytes
            && s'.size == s.size && s'.pos == s.pos && s'.done == s.done && s'.reader == s.reader
  {
    var s1 := Apply(s, PublishTx);
    StepKeepsInv(s, PublishTx);
    StepKeepsInv(s1, PublishWp);
    assert [PublishTx, PublishWp][1..] == [PublishWp];
    assert Run(s1, [PublishWp]) == Run(Apply(s1, PublishWp), []);
  }

  /** The producer stores a whole round before the copy. */
  lemma CopyTooLate(s: State) returns (es: seq<Event>)
    requires Inv(s) && s.writer.WIdle? && s.written == [1] && s.pos == 0 && s.done == []
    requires s.reader == RCopy(1, [], [])
    ensures var s' := Run(s, es);
            |s'.done| == 1 && s'.done[0].pos == 0 && s'.done[0].bytes == [2] && |Stored(s')| > 0 && Stored(s')[0] == 1
  {
    var twos: seq<u8> := seq(s.size, _ => 2);
    var s1 := Apply(s, BeginWrite(twos));
    StepKeepsInv(s, BeginWrite(twos));
    var fill := StoresRun(s1, s.size);
    var s2 := Run(s1, fill);
    assert Stored(s2) == [1] + twos;
    LateCopy(s2);
    var late: seq<Event> := [CopyByte, AdvanceRx];
    RunConcat(s1, fill, late);
    es := [BeginWrite(twos)] + (fill + late);
    assert es[1..] == fill + late;
  }

  lemma CopiesTwo(s: State)
    requires Inv(s) && Stored(s) == [1] + seq(s.size, _ => 2) && s.pos == 0 && s.reader == RCopy(1, [], [])
    ensures Apply(s, CopyByte) == s.(reader := RCopy(1, [2], [s.size + 1]))
  {
    var s1 := Apply(s, CopyByte);
    CopyIsTraced(s);
    assert s1.reader.seen == [] + [s.size + 1] == [s.size + 1];
    TwoFromOneRound(Read(0, s1.reader.got, s1.reader.seen), s.size);
  }

  lemma LateCopy(s: State)
    requires Inv(s) && Stored(s) == [1] + seq(s.size, _ => 2) && s.pos == 0 && s.done == []
    requires s.reader == RCopy(1, [], [])
    ensures var s' := Run(s, [CopyByte, AdvanceRx]);
            |s'.done| == 1 && s'.done[0].pos == 0 && s'.done[0].bytes == [2] && Stored(s') == Stored(s)
  {
    CopiesTwo(s);
    Advances(s.(reader := RCopy(1, [2], [s.size + 1])));
    assert [CopyByte, AdvanceRx][1..] == [AdvanceRx];
  }

  lemma Advances(s: State)
    requires Sane(s) && s.reader.RCopy? && |s.reader.got| == s.reader.n
    ensures var s' := Run(s, [AdvanceRx]);
            s'.done == s.done + [Read(s.pos, s.reader.got, s.reader.seen)] && Stored(s') == Stored(s)
  {
    assert Run(s, [AdvanceRx]) == Run(Apply(s, AdvanceRx), []);
  }

  /** In a ring of any size, while one byte is being read the producer can come round: the consumer
      delivers a 2 as the byte at position 0, where a 1 was written. */
  lemma OverwriteIsReachable(size: u32) returns (es: seq<Event>)
    requires 0 < size <= TWO31
    ensures var s := Run(Init(size), es);
            |s.done| == 1 && s.done[0].pos == 0 && s.done[0].bytes == [2] && |Stored(s)| > 0 && Stored(s)[0] == 1
  {
    var start := AboutToCopy(size);
    var rest := CopyTooLate(Run(Init(size), start));
    RunConcat(Init(size), start, rest);
    es := start + rest;
  }

  lemma TwoFromOneRound(r: Read, size: nat)
    requires 0 < size && r.pos == 0 && r.seen == [size + 1]
    requires Traced(r.bytes, r.seen, 0, [1] + seq(size, _ => 2), size)
    ensures r.bytes == [2]
  {
    NewestIff(0, size + 1, size);
    DivModUnique(size, size, 1, 0);
    DivModUnique(0, size, 0, 0);
    NewestUnique(0, size + 1, size, size);
    assert r.bytes[0] == Loaded([1] + seq(size, _ => 2), 0, size + 1, size);
  }
}
