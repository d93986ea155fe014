/** The byte ring between two processors: a producer that respects the space the ring reports,
    and a consumer, each making one memory access at a time, in any interleaving. A write
    publishes its counter and its pointer in two separate stores, and so does a read. */
module RingProtocol {
  import opened Machine
  import opened RingRegion

  datatype Writer =
    | WIdle
    | WStore(bytes: seq<u8>, stored: nat)   // space was checked; bytes stored so far
    | WHalf(n: nat)                         // counter published, pointer not yet

  datatype Reader =
    | RIdle
    | RSeen                                 // counters differed
    | RCounted(tx: u32, rx: u32)            // the counters as sampled again
    | RCopy(n: nat, got: seq<u8>)           // bytes to copy, bytes copied so far
    | RHalf(n: nat)                         // counter advanced, pointer not yet

  datatype State = State(
    size: u32,
    cells: seq<u8>,
    tx: u32,
    wp: u32,
    rx: u32,
    rp: u32,
    writer: Writer,
    reader: Reader,
    written: seq<u8>,                       // every byte whose counter was published
    got: seq<u8>)                           // every byte delivered

  datatype Event =
    | BeginWrite(bytes: seq<u8>)
    | StoreByte
    | PublishTx
    | PublishWp
    | BeginRead
    | SampleCounters
    | SamplePointers(room: nat)
    | CopyByte
    | AdvanceRx
    | AdvanceRp

  function Init(size: u32): State {
    State(size, seq(size, _ => 0), 0, 0, 0, 0, WIdle, RIdle, [], [])
  }

  /** The region record as both sides rely on it. */
  predicate Sane(s: State) {
    0 < s.size <= TWO31 && |s.cells| == s.size && s.wp < s.size && s.rp < s.size
  }

  function Writable(s: State): int {
    var delta := ReadWriteDelta(s.tx, s.rx);
    if delta > s.size then 0 else s.size - delta
  }

  /** One access; an event whose turn it is not changes nothing. */
  function Apply(s: State, e: Event): State {
    if !Sane(s) then s
    else match e
      case BeginWrite(bytes) =>
        if s.writer.WIdle? && |bytes| <= Writable(s) then s.(writer := WStore(bytes, 0)) else s
      case StoreByte =>
        if s.writer.WStore? && s.writer.stored < |s.writer.bytes| && s.writer.stored < s.size then
          var k := s.writer.stored;
          var cells: seq<u8> := s.cells[Cell(s.wp, k, s.size) := s.writer.bytes[k]];
          s.(cells := cells, writer := s.writer.(stored := k + 1))
        else s
      case PublishTx =>
        if s.writer.WStore? && s.writer.stored == |s.writer.bytes| then
          s.(tx := Wrap32(s.tx + |s.writer.bytes|), written := s.written + s.writer.bytes,
             writer := WHalf(|s.writer.bytes|))
        else s
      case PublishWp =>
        if s.writer.WHalf? then s.(wp := Wrap32(s.wp + s.writer.n) % s.size, writer := WIdle) else s
      case BeginRead =>
        if s.reader.RIdle? && s.tx != s.rx then s.(reader := RSeen) else s
      case SampleCounters =>
        if s.reader.RSeen? then s.(reader := RCounted(s.tx, s.rx)) else s
      case SamplePointers(room) =>
        if s.reader.RCounted? then
          var available := CountOf(s.reader.tx, s.reader.rx, s.wp, s.rp, s.size);
          s.(reader := RCopy(Min(room, available), []))
        else s
      case CopyByte =>
        if s.reader.RCopy? && |s.reader.got| < s.reader.n && |s.reader.got| < s.size then
          s.(reader := s.reader.(got := s.reader.got + [s.cells[Cell(s.rp, |s.reader.got|, s.size)]]))
        else s
      case AdvanceRx =>
        if s.reader.RCopy? && |s.reader.got| == s.reader.n then
          s.(rx := Wrap32(s.rx + s.reader.n), got := s.got + s.reader.got, reader := RHalf(s.reader.n))
        else s
      case AdvanceRp =>
        if s.reader.RHalf? then s.(rp := Wrap32(s.rp + s.reader.n) % s.size, reader := RIdle) else s
  }

  function Run(s: State, es: seq<Event>): State
    decreases es
  {
    if es == [] then s else Run(Apply(s, es[0]), es[1..])
  }

  /** Positions behind the two pointers: they trail the counters inside a publish. */
  function WpPos(s: State): int {
    |s.written| - if s.writer.WHalf? then s.writer.n else 0
  }

  function RpPos(s: State): int {
    |s.got| - if s.reader.RHalf? then s.reader.n else 0
  }

  ghost predicate Shape(s: State) {
    && 0 < s.size <= TWO31 && |s.cells| == s.size
    && 0 <= RpPos(s) <= |s.got| <= |s.written| <= |s.got| + s.size && |s.got| - RpPos(s) <= s.size
    && 0 <= WpPos(s) <= |s.written| <= WpPos(s) + s.size
    && s.tx == Wrap32(|s.written|) && s.rx == Wrap32(|s.got|)
    && s.wp == WpPos(s) % s.size && s.rp == RpPos(s) % s.size
  }

  /** The bytes of w from position `from` on sit in their cells. */
  ghost predicate InCells(cells: seq<u8>, w: seq<u8>, from: nat) {
    |cells| > 0 && forall i | from <= i < |w| :: cells[i % |cells|] == w[i]
  }

  /** The first n bytes of a write at position t sit in theirs. */
  ghost predicate Placed(cells: seq<u8>, bytes: seq<u8>, t: nat, n: nat) {
    |cells| > 0 && n <= |bytes| && forall k | 0 <= k < n :: cells[(t + k) % |cells|] == bytes[k]
  }

  /** Every unread byte sits in its cell, and what was read is the front of what was written. */
  ghost predicate Exact(s: State)
    requires Shape(s)
  {
    s.got <= s.written && InCells(s.cells, s.written, |s.got|)
  }

  ghost predicate WriterOk(s: State)
    requires Shape(s)
  {
    s.writer.WStore? ==>
      && |s.written| + |s.writer.bytes| <= |s.got| + s.size
      && Placed(s.cells, s.writer.bytes, |s.written|, s.writer.stored)
  }

  ghost predicate ReaderOk(s: State)
    requires Shape(s)
  {
    && (s.reader.RSeen? || s.reader.RCounted? ==> |s.got| < |s.written|)
    && (s.reader.RCounted? ==> s.reader.tx != s.reader.rx)
    && (s.reader.RCopy? ==>
          && |s.got| + s.reader.n <= |s.written| && |s.reader.got| <= s.reader.n
          && s.reader.got == s.written[|s.got|..|s.got| + |s.reader.got|])
  }

  ghost predicate Inv(s: State) {
    Shape(s) && Exact(s) && WriterOk(s) && ReaderOk(s)
  }

  /** The consumer sets out to copy more bytes than the two counters report. Everything this
      looks at lies in the region record or is the consumer's own. */
  predicate Overreads(s: State, e: Event) {
    && e.SamplePointers? && s.reader.RCounted? && Sane(s)
    && Min(e.room, CountOf(s.reader.tx, s.reader.rx, s.wp, s.rp, s.size)) > ReadWriteDelta(s.tx, s.rx)
  }

  ghost predicate NeverOverreads(s: State, es: seq<Event>)
    decreases es
  {
    es != [] ==> !Overreads(s, es[0]) && NeverOverreads(Apply(s, es[0]), es[1..])
  }

  lemma InitInv(size: u32)
    requires 0 < size <= TWO31
    ensures Inv(Init(size))
  {
  }

  /** The k-th byte after the writer's pointer is not an unread byte. */
  lemma StoreKeepsInv(s: State)
    requires Inv(s)
    ensures Inv(Apply(s, StoreByte))
  {
    var s' := Apply(s, StoreByte);
    if s' != s {
      var t, k, m := |s.written|, s.writer.stored, s.size;
      CellOf(t, k, m);
      var c := (t + k) % m;
      assert s'.cells == s.cells[c := s.writer.bytes[k]];
      CellKept(s.cells, c, s.writer.bytes[k], s.written, |s.got|, t + k);
      CellsStored(s.cells, s.writer.bytes, t, k);
      assert Shape(s');
    }
  }

  lemma CellKept(cells: seq<u8>, c: nat, b: u8, w: seq<u8>, from: nat, pos: nat)
    requires InCells(cells, w, from) && c == pos % |cells| && |w| <= pos < from + |cells|
    ensures InCells(cells[c := b], w, from)
  {
    var m := |cells|;
    forall i | from <= i < |w|
      ensures cells[c := b][i % m] == w[i]
    {
      ModDistinct(i, pos, m);
    }
  }

  lemma CellsStored(cells: seq<u8>, bytes: seq<u8>, t: nat, k: nat)
    requires Placed(cells, bytes, t, k) && k < |bytes| && k < |cells|
    ensures Placed(cells[(t + k) % |cells| := bytes[k]], bytes, t, k + 1)
  {
    var m := |cells|;
    forall j | 0 <= j < k
      ensures cells[(t + k) % m := bytes[k]][(t + j) % m] == bytes[j]
    {
      ModDistinct(t + j, t + k, m);
    }
  }

  lemma PublishTxKeepsInv(s: State)
    requires Inv(s)
    ensures Inv(Apply(s, PublishTx))
  {
    if Apply(s, PublishTx) != s {
      PublishTxKeepsShape(s);
      PublishTxKeepsExact(s);
      if s.reader.RCopy? {
        SliceKept(s.written, s.writer.bytes, |s.got|, |s.got| + |s.reader.got|);
      }
    }
  }

  lemma PublishTxKeepsShape(s: State)
    requires Shape(s) && Apply(s, PublishTx) != s
    requires s.writer.WStore? && |s.written| + |s.writer.bytes| <= |s.got| + s.size
    ensures Shape(Apply(s, PublishTx))
  {
    CounterAdvance(|s.written|, |s.writer.bytes|);
    assert WpPos(Apply(s, PublishTx)) == WpPos(s);
  }

  lemma PublishTxKeepsExact(s: State)
    requires Shape(s) && Exact(s) && WriterOk(s) && Apply(s, PublishTx) != s && Shape(Apply(s, PublishTx))
    ensures Exact(Apply(s, PublishTx))
  {
    var s' := Apply(s, PublishTx);
    assert s'.cells == s.cells && s'.got == s.got && s'.written == s.written + s.writer.bytes;
    CellsPublished(s.cells, s.written, s.writer.bytes, |s.got|);
  }

  lemma SliceKept(w: seq<u8>, more: seq<u8>, a: nat, b: nat)
    requires a <= b <= |w|
    ensures (w + more)[a..b] == w[a..b]
  {
  }

  lemma CellsPublished(cells: seq<u8>, w: seq<u8>, bytes: seq<u8>, from: nat)
    requires from <= |w| && InCells(cells, w, from) && Placed(cells, bytes, |w|, |bytes|)
    ensures InCells(cells, w + bytes, from)
  {
    var m := |cells|;
    forall i | from <= i < |w + bytes|
      ensures cells[i % m] == (w + bytes)[i]
    {
      if i >= |w| {
        var k := i - |w|;
        assert cells[(|w| + k) % m] == bytes[k];
      }
    }
  }

  lemma PublishWpKeepsInv(s: State)
    requires Inv(s)
    ensures Inv(Apply(s, PublishWp))
  {
    if s.writer.WHalf? {
      PublishWpKeepsShape(s);
    }
  }

  lemma PublishWpKeepsShape(s: State)
    requires Shape(s) && s.writer.WHalf?
    ensures Shape(Apply(s, PublishWp))
  {
    var s', p, n := Apply(s, PublishWp), WpPos(s), s.writer.n;
    PointerMoves(p, n, s.size);
    assert s' == s.(wp := (p + n) % s.size, writer := WIdle);
    assert WpPos(s') == p + n == |s.written| && RpPos(s') == RpPos(s);
  }

  /** Within one round a pointer's u32 sum never wraps. */
  lemma PointerMoves(pos: nat, n: nat, size: nat)
    requires 0 < size <= TWO31 && n <= size
    ensures Wrap32(pos % size + n) % size == (pos + n) % size
  {
    PointerAdvanceExact(pos, n, size);
  }

  lemma BeginWriteKeepsInv(s: State, bytes: seq<u8>)
    requires Inv(s)
    ensures Inv(Apply(s, BeginWrite(bytes)))
  {
    ReadWriteDeltaIsLag(|s.written|, |s.got|);
  }

  lemma CountersDiffer(s: State)
    requires Shape(s)
    ensures s.tx != s.rx <==> |s.got| < |s.written|
  {
    ReadWriteDeltaIsLag(|s.written|, |s.got|);
  }

  lemma SampleKeepsInv(s: State, room: nat)
    requires Inv(s) && !Overreads(s, SamplePointers(room))
    ensures Inv(Apply(s, SamplePointers(room)))
  {
    ReadWriteDeltaIsLag(|s.written|, |s.got|);
  }

  /** What the pointers of positions t and r show while the counters differ: t - r, or, when the
      reader has caught up with t or passed it, all cells but those passed. */
  lemma CountOfPositions(tx: u32, rx: u32, t: nat, r: nat, size: nat)
    requires 0 < size <= TWO31 && tx != rx && t <= r + size && r < t + size
    ensures CountOf(tx, rx, t % size, r % size, size) == if r < t then t - r else size - (r - t)
  {
    if r + size == t {
      DivModUnique(t, size, r / size + 1, r % size);
    } else if r < t {
      ModWindow(r, t - r, size);
    } else {
      ModWindow(t, r - t, size);
    }
  }

  lemma CountSampled(s: State)
    requires Inv(s) && s.reader.RCounted?
    ensures CountOf(s.reader.tx, s.reader.rx, s.wp, s.rp, s.size) ==
            if |s.got| < WpPos(s) then WpPos(s) - |s.got| else s.size - (|s.got| - WpPos(s))
  {
    CountOfPositions(s.reader.tx, s.reader.rx, WpPos(s), |s.got|, s.size);
  }

  /** A sample overreads if and only if a write is half published, every byte before it has been
      read, and the consumer has room for more than is unread. */
  lemma OverreadsIff(s: State, room: nat)
    requires Inv(s) && s.reader.RCounted?
    ensures Overreads(s, SamplePointers(room)) <==>
            && s.writer.WHalf? && WpPos(s) <= |s.got|
            && |s.written| - |s.got| < Min(room, s.size - (|s.got| - WpPos(s)))
  {
    CountSampled(s);
    ReadWriteDeltaIsLag(|s.written|, |s.got|);
  }

  lemma CopyKeepsInv(s: State)
    requires Inv(s)
    ensures Inv(Apply(s, CopyByte))
  {
    var s' := Apply(s, CopyByte);
    if s' != s {
      var r, k := |s.got|, |s.reader.got|;
      CellOf(r, k, s.size);
      assert RpPos(s') == RpPos(s) == r && WpPos(s') == WpPos(s);
      assert s.cells[(r + k) % s.size] == s.written[r + k];
      assert s.written[r..r + k + 1] == s.written[r..r + k] + [s.written[r + k]];
      assert Shape(s');
    }
  }

  lemma AdvanceRxKeepsInv(s: State)
    requires Inv(s)
    ensures Inv(Apply(s, AdvanceRx))
  {
    var s' := Apply(s, AdvanceRx);
    if s' != s {
      AdvanceRxKeepsShape(s);
      PrefixGrows(s.got, s.reader.got, s.written);
    }
  }

  lemma AdvanceRxKeepsShape(s: State)
    requires Shape(s) && s.reader.RCopy? && |s.reader.got| == s.reader.n && |s.got| + s.reader.n <= |s.written|
    ensures Shape(Apply(s, AdvanceRx))
  {
    var s', r := Apply(s, AdvanceRx), |s.got|;
    CounterAdvance(r, s.reader.n);
    assert |s'.got| == r + s.reader.n && s'.reader == RHalf(s.reader.n) && s'.rp == s.rp == r % s.size;
    assert RpPos(s') == r && WpPos(s') == WpPos(s);
    assert |s'.got| - RpPos(s') <= s.size;
  }

  lemma PrefixGrows(a: seq<u8>, b: seq<u8>, w: seq<u8>)
    requires a <= w && |a| + |b| <= |w| && b == w[|a|..|a| + |b|]
    ensures a + b <= w
  {
  }

  lemma AdvanceRpKeepsInv(s: State)
    requires Inv(s)
    ensures Inv(Apply(s, AdvanceRp))
  {
    if s.reader.RHalf? {
      AdvanceRpKeepsShape(s);
    }
  }

  lemma AdvanceRpKeepsShape(s: State)
    requires Shape(s) && s.reader.RHalf?
    ensures Shape(Apply(s, AdvanceRp))
  {
    var s', p, n := Apply(s, AdvanceRp), RpPos(s), s.reader.n;
    PointerMoves(p, n, s.size);
    assert s' == s.(rp := (p + n) % s.size, reader := RIdle);
    assert RpPos(s') == p + n == |s.got| && WpPos(s') == WpPos(s);
  }

  lemma StepKeepsInv(s: State, e: Event)
    requires Inv(s) && !Overreads(s, e)
    ensures Inv(Apply(s, e))
  {
    CountersDiffer(s);
    match e
    case BeginWrite(bytes) => BeginWriteKeepsInv(s, bytes);
    case StoreByte => StoreKeepsInv(s);
    case PublishTx => PublishTxKeepsInv(s);
    case PublishWp => PublishWpKeepsInv(s);
    case SamplePointers(room) => SampleKeepsInv(s, room);
    case CopyByte => CopyKeepsInv(s);
    case AdvanceRx => AdvanceRxKeepsInv(s);
    case AdvanceRp => AdvanceRpKeepsInv(s);
    case _ =>
  }

  lemma {:induction false} RunKeepsInv(s: State, es: seq<Event>)
    requires Inv(s) && NeverOverreads(s, es)
    ensures Inv(Run(s, es))
    decreases es
  {
    if es != [] {
      StepKeepsInv(s, es[0]);
      RunKeepsInv(Apply(s, es[0]), es[1..]);
    }
  }

  /** In every interleaving in which no sample overreads the consumer has received exactly the
      front of what the producer wrote, whatever the size and however often the counters wrapped. */
  lemma EveryInterleavingIsExact(size: u32, es: seq<Event>)
    requires 0 < size <= TWO31 && NeverOverreads(Init(size), es)
    ensures var s := Run(Init(size), es); s.got <= s.written
  {
    InitInv(size);
    RunKeepsInv(Init(size), es);
  }

  /** Each sample asks for no more than the counters report at that moment. */
  ghost predicate Modest(s: State, es: seq<Event>)
    decreases es
  {
    es != [] ==>
      (es[0].SamplePointers? ==> es[0].room <= ReadWriteDelta(s.tx, s.rx)) && Modest(Apply(s, es[0]), es[1..])
  }

  lemma {:induction false} ModestNeverOverreads(s: State, es: seq<Event>)
    requires Modest(s, es)
    ensures NeverOverreads(s, es)
    decreases es
  {
    if es != [] {
      ModestNeverOverreads(Apply(s, es[0]), es[1..]);
    }
  }

  /** What a consumer can do about it: asking for no more than the counters report is enough. */
  lemma ModestConsumerIsExact(size: u32, es: seq<Event>)
    requires 0 < size <= TWO31 && Modest(Init(size), es)
    ensures var s := Run(Init(size), es); s.got <= s.written
  {
    ModestNeverOverreads(Init(size), es);
    EveryInterleavingIsExact(size, es);
  }

  // ------------------------------------------------------------- a sample that overreads

  /** The rest of a read with k bytes still to copy. */
  function FinishCopy(k: nat): seq<Event> {
    if k == 0 then [AdvanceRx] else [CopyByte] + FinishCopy(k - 1)
  }

  lemma {:induction false} FinishCopyRuns(s: State, k: nat)
    requires Sane(s) && s.reader.RCopy? && |s.reader.got| + k == s.reader.n <= s.size
    ensures var s' := Run(s, FinishCopy(k)); |s'.got| == |s.got| + s.reader.n && s'.written == s.written
    ensures NeverOverreads(s, FinishCopy(k))
    decreases k
  {
    var es := FinishCopy(k);
    if k == 0 {
      assert es[1..] == [];
    } else {
      assert es[1..] == FinishCopy(k - 1);
      FinishCopyRuns(Apply(s, CopyByte), k - 1);
    }
  }

  /** Left to finish its read, a consumer that overread has delivered more than was written. */
  lemma OverreadDeliversTooMuch(s: State, room: nat) returns (es: seq<Event>)
    requires Inv(s) && Overreads(s, SamplePointers(room))
    ensures var s' := Apply(s, SamplePointers(room));
            NeverOverreads(s', es) && !(Run(s', es).got <= Run(s', es).written)
  {
    ReadWriteDeltaIsLag(|s.written|, |s.got|);
    CountSampled(s);
    var s' := Apply(s, SamplePointers(room));
    es := FinishCopy(s'.reader.n);
    FinishCopyRuns(s', s'.reader.n);
  }

  /** From every reachable state: whatever happens after a sample stays exact, as long as later
      samples do not overread, if and only if the sample itself does not. */
  lemma SampleSafeIff(s: State, room: nat)
    requires Inv(s) && s.reader.RCounted?
    ensures var s' := Apply(s, SamplePointers(room));
            (forall es | NeverOverreads(s', es) :: Run(s', es).got <= Run(s', es).written)
            <==> !Overreads(s, SamplePointers(room))
  {
    var s' := Apply(s, SamplePointers(room));
    if Overreads(s, SamplePointers(room)) {
      var es := OverreadDeliversTooMuch(s, room);
      assert NeverOverreads(s', es);
    } else {
      SampleKeepsInv(s, room);
      forall es | NeverOverreads(s', es)
        ensures Run(s', es).got <= Run(s', es).written
      {
        RunKeepsInv(s', es);
      }
    }
  }

  lemma {:induction false} RunConcat(s: State, a: seq<Event>, b: seq<Event>)
    ensures Run(s, a + b) == Run(Run(s, a), b)
    decreases a
  {
    if a == [] {
      assert a + b == b;
    } else {
      assert (a + b)[1..] == a[1..] + b;
      RunConcat(Apply(s, a[0]), a[1..], b);
    }
  }

  /** One byte written to an empty ring, and the consumer about to sample the pointers. */
  lemma SampledInHalf(size: u32, b: u8) returns (s: State, es: seq<Event>)
    requires 0 < size <= TWO31
    ensures s == Run(Init(size), es) && Inv(s)
    ensures s.reader.RCounted? && s.writer == WHalf(1) && s.written == [b] && s.got == [] && s.size == size
  {
    es := [];
    s := Init(size);
    InitInv(size);
    var events := [BeginWrite([b]), StoreByte, PublishTx, BeginRead, SampleCounters];
    for i := 0 to 5
      invariant s == Run(Init(size), es) && Inv(s) && s.got == [] && s.size == size && (s.tx == 0 <==> i < 3)
      invariant s.rx == 0 && |es| == i && (i < 3 ==> s.written == []) && (i >= 3 ==> s.written == [b])
      invariant s.writer == if i == 0 then WIdle else if i < 3 then WStore([b], i - 1) else WHalf(1)
      invariant if i < 4 then s.reader.RIdle? else if i == 4 then s.reader.RSeen? else s.reader.RCounted?
    {
      StepKeepsInv(s, events[i]);
      RunConcat(Init(size), es, [events[i]]);
      assert Run(s, [events[i]]) == Run(Apply(s, events[i]), []);
      es := es + [events[i]];
      s := Apply(s, events[i]);
    }
  }

  /** One byte written to an empty ring of any size is enough: sampled between its two stores,
      the ring looks full, and a consumer with more room delivers bytes nobody wrote. */
  lemma OverreadIsReachable(size: u32, b: u8, room: nat) returns (es: seq<Event>)
    requires 1 < size <= TWO31 && 1 < room
    ensures var s := Run(Init(size), es); s.written == [b] && !(s.got <= s.written)
  {
    var s, start := SampledInHalf(size, b);
    OverreadsIff(s, room);
    var s' := Apply(s, SamplePointers(room));
    var rest := FinishCopy(s'.reader.n);
    CountSampled(s);
    FinishCopyRuns(s', s'.reader.n);
    es := start + ([SamplePointers(room)] + rest);
    RunConcat(Init(size), start, [SamplePointers(room)] + rest);
    assert ([SamplePointers(room)] + rest)[1..] == rest;
  }

  // ------------------------------------------------------------- nothing gets stuck

  predicate ByReader(e: Event) {
    e.BeginRead? || e.SampleCounters? || e.SamplePointers? || e.CopyByte? || e.AdvanceRx? || e.AdvanceRp?
  }

  /** What a consumer does next that asks for all the counters report. */
  function NextRead(s: State): Event {
    match s.reader
    case RIdle => BeginRead
    case RSeen => SampleCounters
    case RCounted(_, _) => SamplePointers(ReadWriteDelta(s.tx, s.rx))
    case RCopy(n, got) => if |got| < n then CopyByte else AdvanceRx
    case RHalf(_) => AdvanceRp
  }

  /** Accesses until its next bytes are delivered. */
  function Rank(s: State): nat
    requires Inv(s)
  {
    match s.reader
    case RCopy(n, got) => if n == 0 then s.size + 5 else n - |got|
    case RCounted(_, _) => s.size + 1
    case RSeen => s.size + 2
    case RIdle => s.size + 3
    case RHalf(_) => s.size + 4
  }

  lemma ReaderAdvances(s: State)
    requires Inv(s) && |s.got| < |s.written|
    ensures var s' := Apply(s, NextRead(s));
            && !Overreads(s, NextRead(s)) && Inv(s') && s'.written == s.written
            && (|s'.got| > |s.got| || (s'.got == s.got && Rank(s') < Rank(s)))
  {
    CountersDiffer(s);
    StepKeepsInv(s, NextRead(s));
    if s.reader.RCounted? {
      CountSampled(s);
      ReadWriteDeltaIsLag(|s.written|, |s.got|);
    }
  }

  /** From every reachable state, also with a write half published, the consumer left alone
      delivers every byte whose counter was published. */
  lemma {:induction false} UnreadIsDeliverable(s: State) returns (es: seq<Event>)
    requires Inv(s)
    ensures (forall e | e in es :: ByReader(e)) && NeverOverreads(s, es)
    ensures Run(s, es).got == s.written
    decreases |s.written| - |s.got|, Rank(s)
  {
    if |s.got| == |s.written| {
      es := [];
    } else {
      ReaderAdvances(s);
      var rest := UnreadIsDeliverable(Apply(s, NextRead(s)));
      es := [NextRead(s)] + rest;
      assert es[1..] == rest;
    }
  }

  /** The stores that remain of a write, and its two publications. */
  function FinishWrite(k: nat): seq<Event> {
    if k == 0 then [PublishTx, PublishWp] else [StoreByte] + FinishWrite(k - 1)
  }

  lemma {:induction false} FinishWriteRuns(s: State, k: nat)
    requires Inv(s) && s.writer.WStore? && s.writer.stored + k == |s.writer.bytes|
    ensures var s' := Run(s, FinishWrite(k));
            && Inv(s') && s'.writer.WIdle? && s'.written == s.written + s.writer.bytes
            && s'.got == s.got && s'.reader == s.reader
    decreases k
  {
    var es := FinishWrite(k);
    if k == 0 {
      var s1 := Apply(s, PublishTx);
      StepKeepsInv(s, PublishTx);
      StepKeepsInv(s1, PublishWp);
      assert es[1..] == [PublishWp];
      assert Run(s1, [PublishWp]) == Run(Apply(s1, PublishWp), []);
    } else {
      StepKeepsInv(s, StoreByte);
      assert es[1..] == FinishWrite(k - 1);
      FinishWriteRuns(Apply(s, StoreByte), k - 1);
    }
  }

  /** From every reachable state with the producer at rest, also in the middle of a read: a message
      for which there is space is published whole by the producer alone, and one for which there is
      none is not begun. */
  lemma WriteIsPublishedIff(s: State, bytes: seq<u8>)
    requires Inv(s) && s.writer.WIdle?
    ensures var s' := Run(s, [BeginWrite(bytes)] + FinishWrite(|bytes|));
            if |s.written| - |s.got| + |bytes| <= s.size then
              Inv(s') && s'.writer.WIdle? && s'.written == s.written + bytes && s'.got == s.got && s'.reader == s.reader
            else s' == s
  {
    var es, s1 := [BeginWrite(bytes)] + FinishWrite(|bytes|), Apply(s, BeginWrite(bytes));
    ReadWriteDeltaIsLag(|s.written|, |s.got|);
    assert es[1..] == FinishWrite(|bytes|);
    StepKeepsInv(s, BeginWrite(bytes));
    if |s.written| - |s.got| + |bytes| <= s.size {
      FinishWriteRuns(s1, |bytes|);
    } else {
      RestingWriter(s, |bytes|);
    }
  }

  lemma {:induction false} RestingWriter(s: State, k: nat)
    requires s.writer.WIdle?
    ensures Run(s, FinishWrite(k)) == s
    decreases k
  {
    var es := FinishWrite(k);
    if k == 0 {
      assert es[1..] == [PublishWp];
      assert Run(s, [PublishWp]) == Run(s, []);
    } else {
      assert es[1..] == FinishWrite(k - 1);
      RestingWriter(s, k - 1);
    }
  }
}
