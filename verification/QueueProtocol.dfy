/** The message queue as its two ends really use it: the writer on one processor and the
    reader on another, each copying one byte at a time, in any interleaving. Every memory
    access is one atomic step. */
module QueueProtocol {
  import opened Machine
  import opened QueueRegion

  datatype Writer =
    | WIdle
    | WCopy(msg: seq<u8>, stored: nat)              // bytes of header and payload stored so far

  datatype Reader =
    | RIdle
    | RHead                                         // saw a message, has not read its header yet
    | RCopy(length: nat, got: seq<u8>)              // bytes of payload loaded so far

  datatype State = State(
    slots: u32,
    size: u32,
    cells: seq<seq<u8>>,
    tx: u32,
    rx: u32,
    writer: Writer,
    reader: Reader,
    sent: seq<seq<u8>>,                             // every message the writer published
    got: seq<seq<u8>>)                              // every message the reader delivered

  datatype Step =
    | BeginWrite(msg: seq<u8>)
    | StoreByte
    | FinishWrite
    | BeginRead
    | LoadLength(room: nat)
    | LoadByte
    | FinishRead

  function Init(slots: u32, size: u32): State {
    State(slots, size, seq(slots, _ => seq(size, _ => 0)), 0, 0, WIdle, RIdle, [], [])
  }

  /** The bytes a message occupies in its slot. */
  function Image(msg: seq<u8>): (img: seq<u8>)
    ensures |img| == HEADER_SIZE + |msg|
  {
    Header(|msg|) + msg
  }

  function Backlog(s: State): u32 {
    ReadWriteDelta(s.tx, s.rx)
  }

  function CanWrite(s: State): bool {
    0 < s.slots && Backlog(s) != s.slots
  }

  function CanRead(s: State): bool {
    0 < s.slots && Backlog(s) != 0
  }

  function Load(s: State, slot: nat, p: nat): u8 {
    if slot < |s.cells| && p < |s.cells[slot]| then s.cells[slot][p] else 0
  }

  function Store(s: State, slot: nat, p: nat, b: u8): seq<seq<u8>> {
    if slot < |s.cells| && p < |s.cells[slot]| then
      var row: seq<u8> := s.cells[slot][p := b];
      s.cells[slot := row]
    else s.cells
  }

  /** One step; a step whose turn it is not, and a refused call, change nothing. */
  function Apply(s: State, e: Step): State {
    match e
    case BeginWrite(msg) =>
      if s.writer.WIdle? && CanWrite(s) && |msg| <= MessageSize(s.size) then s.(writer := WCopy(msg, 0)) else s
    case StoreByte =>
      if s.writer.WCopy? && 0 < s.slots && s.writer.stored < HEADER_SIZE + |s.writer.msg| then
        var k := s.writer.stored;
        s.(cells := Store(s, s.tx % s.slots, k, Image(s.writer.msg)[k]), writer := s.writer.(stored := k + 1))
      else s
    case FinishWrite =>
      if s.writer.WCopy? && s.writer.stored == HEADER_SIZE + |s.writer.msg| then
        if CanWrite(s) then
          s.(tx := Wrap32(s.tx + 1), writer := WIdle, sent := s.sent + [Stored(s.writer.msg)])
        else s.(writer := WIdle)
      else s
    case BeginRead =>
      if s.reader.RIdle? && CanRead(s) then s.(reader := RHead) else s
    case LoadLength(room) =>
      if s.reader.RHead? && 0 < s.slots then
        var slot := s.rx % s.slots;
        var length := LengthField([Load(s, slot, 0), Load(s, slot, 1)]);
        s.(reader := if room < length then RIdle else RCopy(length, []))
      else s
    case LoadByte =>
      if s.reader.RCopy? && 0 < s.slots && |s.reader.got| < s.reader.length then
        var b := Load(s, s.rx % s.slots, HEADER_SIZE + |s.reader.got|);
        s.(reader := s.reader.(got := s.reader.got + [b]))
      else s
    case FinishRead =>
      if s.reader.RCopy? && |s.reader.got| == s.reader.length then
        if CanRead(s) then
          s.(rx := Wrap32(s.rx + 1), reader := RIdle, got := s.got + [s.reader.got])
        else s.(reader := RIdle)
      else s
  }

  function Run(s: State, es: seq<Step>): State
    decreases es
  {
    if es == [] then s else Run(Apply(s, es[0]), es[1..])
  }

  /** The slots of outstanding messages can be told apart: the counter has not wrapped, or a wrap
      does not disturb the slot order. */
  ghost predicate Apart(s: State) {
    0 < s.slots && (TWO32 % s.slots == 0 || |s.sent| < TWO32)
  }

  ghost predicate Shape(s: State) {
    && Apart(s) && HEADER_SIZE <= s.size
    && |s.cells| == s.slots && (forall k | 0 <= k < s.slots :: |s.cells[k]| == s.size)
    && s.got <= s.sent && |s.sent| <= |s.got| + s.slots
    && s.tx == Wrap32(|s.sent|) && s.rx == Wrap32(|s.got|)
  }

  /** Every outstanding message sits whole in its slot. */
  ghost predicate Outstanding(s: State)
    requires Shape(s)
  {
    forall i | |s.got| <= i < |s.sent| :: HoldsMessage(s.cells[SlotOf(i, s.slots)], 0, s.sent[i])
  }

  /** A writer that is copying owns a free slot, whose first bytes are already the message's. */
  ghost predicate WriterOk(s: State)
    requires Shape(s)
  {
    s.writer.WCopy? ==>
      && |s.sent| < |s.got| + s.slots
      && HEADER_SIZE + |s.writer.msg| <= s.size && s.writer.stored <= HEADER_SIZE + |s.writer.msg|
      && s.cells[SlotOf(|s.sent|, s.slots)][..s.writer.stored] == Image(s.writer.msg)[..s.writer.stored]
  }

  /** A reader that is copying has loaded a prefix of the oldest outstanding message. */
  ghost predicate ReaderOk(s: State) {
    && (!s.reader.RIdle? ==> |s.got| < |s.sent|)
    && (s.reader.RCopy? ==> s.reader.length == |s.sent[|s.got|]| && s.reader.got <= s.sent[|s.got|])
  }

  ghost predicate Inv(s: State) {
    Shape(s) && Outstanding(s) && WriterOk(s) && ReaderOk(s)
  }

  lemma InitInv(slots: u32, size: u32)
    requires 0 < slots && HEADER_SIZE <= size
    ensures Inv(Init(slots, size))
  {
  }

  lemma BacklogIsOutstanding(s: State)
    requires Shape(s)
    ensures Backlog(s) == |s.sent| - |s.got|
  {
    ReadWriteDeltaIsLag(|s.sent|, |s.got|);
  }

  /** A full image in a slot is a message in the slot. */
  lemma ImageHolds(row: seq<u8>, msg: seq<u8>)
    requires |row| >= HEADER_SIZE + |msg| && row[..HEADER_SIZE + |msg|] == Image(msg)
    ensures HoldsMessage(row, 0, Stored(msg))
  {
    StoredIsMessageIff(msg);
    var n, img := |Stored(msg)|, Image(msg);
    forall k | 0 <= k < |img|
      ensures row[k] == img[k]
    {
      assert row[..|img|][k] == row[k];
    }
    assert row[0..HEADER_SIZE] == Header(|msg|);
    assert forall k | 0 <= k < n :: row[HEADER_SIZE + k] == msg[k];
    assert row[HEADER_SIZE..HEADER_SIZE + n] == Stored(msg);
  }

  lemma StoreKeepsInv(s: State)
    requires Inv(s)
    ensures Inv(Apply(s, StoreByte))
  {
    var s' := Apply(s, StoreByte);
    if s' != s {
      var slot, k, img := SlotOf(|s.sent|, s.slots), s.writer.stored, Image(s.writer.msg);
      assert s'.cells[slot] == s.cells[slot][k := img[k]];
      assert s'.cells[slot][..k + 1] == s.cells[slot][..k] + [img[k]];
      assert img[..k + 1] == img[..k] + [img[k]];
      forall i | |s.got| <= i < |s.sent|
        ensures HoldsMessage(s'.cells[SlotOf(i, s.slots)], 0, s.sent[i])
      {
        SlotsDistinct(i, |s.sent|, s.slots);
      }
    }
  }

  lemma FinishWriteKeepsInv(s: State)
    requires Inv(s) && Apart(Apply(s, FinishWrite))
    ensures Inv(Apply(s, FinishWrite))
  {
    BacklogIsOutstanding(s);
    ModAdd(|s.sent|, 1, TWO32);
    if s.writer.WCopy? && s.writer.stored == HEADER_SIZE + |s.writer.msg| {
      ImageHolds(s.cells[SlotOf(|s.sent|, s.slots)], s.writer.msg);
    }
  }

  lemma LoadKeepsInv(s: State, e: Step)
    requires Inv(s) && (e.LoadLength? || e.LoadByte?)
    ensures Inv(Apply(s, e))
  {
    if !s.reader.RIdle? {
      var row, m := s.cells[SlotOf(|s.got|, s.slots)], s.sent[|s.got|];
      assert HoldsMessage(row, 0, m);
      assert row[0..HEADER_SIZE][0] == row[0] && row[0..HEADER_SIZE][1] == row[1];
      if e.LoadByte? && s.reader.RCopy? && |s.reader.got| < s.reader.length {
        var k := |s.reader.got|;
        assert row[HEADER_SIZE..HEADER_SIZE + |m|][k] == m[k];
      }
    }
  }

  lemma FinishReadKeepsInv(s: State)
    requires Inv(s)
    ensures Inv(Apply(s, FinishRead))
    ensures s.reader.RCopy? && |s.reader.got| == s.reader.length ==>
              Apply(s, FinishRead).got == s.got + [s.sent[|s.got|]]
  {
    if s.reader.RCopy? && |s.reader.got| == s.reader.length {
      BacklogIsOutstanding(s);
      ModAdd(|s.got|, 1, TWO32);
      assert s.reader.got == s.sent[|s.got|];
      PrefixSnoc(s.got, s.sent);
    }
  }

  lemma PrefixSnoc(a: seq<seq<u8>>, w: seq<seq<u8>>)
    requires a <= w && |a| < |w|
    ensures a + [w[|a|]] <= w
  {
  }

  lemma StepKeepsInv(s: State, e: Step)
    requires Inv(s) && Apart(Apply(s, e))
    ensures Inv(Apply(s, e))
  {
    BacklogIsOutstanding(s);
    match e
    case StoreByte => StoreKeepsInv(s);
    case FinishWrite => FinishWriteKeepsInv(s);
    case LoadLength(_) => LoadKeepsInv(s, e);
    case LoadByte => LoadKeepsInv(s, e);
    case FinishRead => FinishReadKeepsInv(s);
    case _ =>
  }

  lemma {:induction false} SentGrows(s: State, es: seq<Step>)
    ensures |s.sent| <= |Run(s, es).sent| && Run(s, es).slots == s.slots
    decreases es
  {
    if es != [] {
      SentGrows(Apply(s, es[0]), es[1..]);
    }
  }

  lemma {:induction false} RunKeepsInv(s: State, es: seq<Step>)
    requires Inv(s) && Apart(Run(s, es))
    ensures Inv(Run(s, es))
    decreases es
  {
    if es != [] {
      SentGrows(Apply(s, es[0]), es[1..]);
      assert Apart(Apply(s, es[0]));
      StepKeepsInv(s, es[0]);
      RunKeepsInv(Apply(s, es[0]), es[1..]);
    }
  }

  /** In every interleaving the reader has delivered exactly the first messages the writer
      published, byte for byte, and at most `slots` are outstanding: for good if the slot count
      divides 2^32, and with any other for the first 2^32 - 1 messages. */
  lemma EveryInterleavingIsFifo(slots: u32, size: u32, es: seq<Step>)
    requires 0 < slots && HEADER_SIZE <= size
    requires TWO32 % slots == 0 || |Run(Init(slots, size), es).sent| < TWO32
    ensures var s := Run(Init(slots, size), es);
            s.got <= s.sent && |s.sent| <= |s.got| + slots
  {
    InitInv(slots, size);
    SentGrows(Init(slots, size), es);
    RunKeepsInv(Init(slots, size), es);
  }

  // ------------------------------------------------------------- nothing gets stuck

  predicate ByReader(e: Step) {
    e.BeginRead? || e.LoadLength? || e.LoadByte? || e.FinishRead?
  }

  /** What a reader with a buffer of `room` bytes does next. */
  function NextRead(s: State, room: nat): Step {
    match s.reader
    case RIdle => BeginRead
    case RHead => LoadLength(room)
    case RCopy(length, got) => if |got| < length then LoadByte else FinishRead
  }

  /** Steps until it delivers the oldest message. */
  function Rank(s: State): nat
    requires Inv(s) && |s.got| < |s.sent|
  {
    var length := |s.sent[|s.got|]|;
    match s.reader
    case RIdle => length + 2
    case RHead => length + 1
    case RCopy(_, got) => length - |got|
  }

  lemma LengthSeen(s: State, room: nat)
    requires Inv(s) && s.reader.RHead? && |s.sent[|s.got|]| <= room
    ensures Apply(s, LoadLength(room)).reader == RCopy(|s.sent[|s.got|]|, [])
  {
    var row := s.cells[SlotOf(|s.got|, s.slots)];
    assert HoldsMessage(row, 0, s.sent[|s.got|]);
    assert row[0..HEADER_SIZE][0] == row[0] && row[0..HEADER_SIZE][1] == row[1];
  }

  lemma ReaderAdvances(s: State, room: nat)
    requires Inv(s) && |s.got| < |s.sent| && |s.sent[|s.got|]| <= room
    ensures var s' := Apply(s, NextRead(s, room));
            && Inv(s') && s'.sent == s.sent && s'.writer == s.writer && s'.slots == s.slots && s'.size == s.size
            && (|s'.got| > |s.got| || (s'.got == s.got && Rank(s') < Rank(s)))
  {
    BacklogIsOutstanding(s);
    if s.reader.RHead? {
      LengthSeen(s, room);
    }
    StepKeepsInv(s, NextRead(s, room));
  }

  /** With too little room for the oldest message the reader goes back to rest: nothing is copied,
      delivered or lost. */
  lemma TooSmallChangesNothing(s: State, room: nat)
    requires Inv(s) && s.reader.RIdle? && |s.got| < |s.sent| && room < |s.sent[|s.got|]|
    ensures Run(s, [BeginRead, LoadLength(room)]) == s
  {
    var s1 := Apply(s, BeginRead);
    BacklogIsOutstanding(s);
    StepKeepsInv(s, BeginRead);
    var row := s1.cells[SlotOf(|s.got|, s.slots)];
    assert HoldsMessage(row, 0, s.sent[|s.got|]);
    assert row[0..HEADER_SIZE][0] == row[0] && row[0..HEADER_SIZE][1] == row[1];
    assert [BeginRead, LoadLength(room)][1..] == [LoadLength(room)];
    assert Run(s1, [LoadLength(room)]) == Run(Apply(s1, LoadLength(room)), []);
  }

  /** From every reachable state, whatever the reader was doing, a reader left to run alone with
      room for the messages delivers every one that is outstanding. */
  lemma {:induction false} OutstandingIsDeliverable(s: State, room: nat) returns (es: seq<Step>)
    requires Inv(s) && forall i | |s.got| <= i < |s.sent| :: |s.sent[i]| <= room
    ensures forall e | e in es :: ByReader(e)
    ensures Run(s, es).got == s.sent && Inv(Run(s, es))
    ensures Run(s, es) == s.(rx := Run(s, es).rx, reader := RIdle, got := s.sent)
    decreases |s.sent| - |s.got|, if |s.got| < |s.sent| then Rank(s) else 0
  {
    if |s.got| == |s.sent| {
      es := [];
    } else {
      ReaderAdvances(s, room);
      var e := NextRead(s, room);
      var rest := OutstandingIsDeliverable(Apply(s, e), room);
      es := [e] + rest;
      assert es[1..] == rest;
    }
  }

  // ------------------------------------------------------------- past the counter's wrap

  /** What holds of slots and counters in every run, wrapped or not, with nobody copying. */
  ghost predicate Quiet(s: State) {
    && 0 < s.slots && HEADER_SIZE <= s.size && |s.cells| == s.slots
    && (forall k | 0 <= k < s.slots :: |s.cells[k]| == s.size)
    && |s.got| <= |s.sent| <= |s.got| + s.slots
    && s.tx == Wrap32(|s.sent|) && s.rx == Wrap32(|s.got|) && s.writer.WIdle? && s.reader.RIdle?
  }

  /** The stores of a write from byte k of its slot on, and its publication. */
  function FinishStores(n: nat): seq<Step> {
    if n == 0 then [FinishWrite] else [StoreByte] + FinishStores(n - 1)
  }

  function WriteSteps(msg: seq<u8>): seq<Step> {
    [BeginWrite(msg)] + FinishStores(HEADER_SIZE + |msg|)
  }

  /** A writer that copies into its slot, all else at rest; its first bytes are already there. */
  ghost predicate Storing(s: State) {
    && s.writer.WCopy? && Quiet(s.(writer := WIdle)) && |s.sent| < |s.got| + s.slots
    && s.writer.stored <= HEADER_SIZE + |s.writer.msg| <= s.size
    && s.cells[s.tx % s.slots][..s.writer.stored] == Image(s.writer.msg)[..s.writer.stored]
  }

  lemma StoresOne(s: State)
    requires Storing(s) && s.writer.stored < HEADER_SIZE + |s.writer.msg|
    ensures var s' := Apply(s, StoreByte);
            && Storing(s') && s' == s.(cells := s'.cells, writer := WCopy(s.writer.msg, s.writer.stored + 1))
  {
    var s', slot, k, img := Apply(s, StoreByte), s.tx % s.slots, s.writer.stored, Image(s.writer.msg);
    assert s'.cells[slot] == s.cells[slot][k := img[k]];
    assert s'.cells[slot][..k + 1] == s.cells[slot][..k] + [img[k]];
    assert img[..k + 1] == img[..k] + [img[k]];
  }

  lemma StoresLast(s: State)
    requires Storing(s) && s.writer.stored == HEADER_SIZE + |s.writer.msg|
    ensures var s' := Run(s, [FinishWrite]);
            && Quiet(s') && s'.cells == s.cells && s'.slots == s.slots && s'.size == s.size
            && s'.sent == s.sent + [Stored(s.writer.msg)] && s'.got == s.got
  {
    ReadWriteDeltaIsLag(|s.sent|, |s.got|);
    ModAdd(|s.sent|, 1, TWO32);
    assert Run(s, [FinishWrite]) == Run(Apply(s, FinishWrite), []);
  }

  lemma {:induction false} StoresRun(s: State, n: nat)
    requires Storing(s) && s.writer.stored + n == HEADER_SIZE + |s.writer.msg|
    ensures var s', slot := Run(s, FinishStores(n)), s.tx % s.slots;
            && Quiet(s') && s'.sent == s.sent + [Stored(s.writer.msg)] && s'.got == s.got
            && s'.slots == s.slots && s'.size == s.size
            && s'.cells[slot][..HEADER_SIZE + |s.writer.msg|] == Image(s.writer.msg)
    decreases n
  {
    if n == 0 {
      StoresLast(s);
      assert Image(s.writer.msg)[..s.writer.stored] == Image(s.writer.msg);
    } else {
      assert FinishStores(n)[1..] == FinishStores(n - 1);
      StoresOne(s);
      StoresRun(Apply(s, StoreByte), n - 1);
    }
  }

  /** A whole write by itself, in any round of the counter. */
  lemma WriteRuns(s: State, msg: seq<u8>)
    requires Quiet(s) && |s.sent| < |s.got| + s.slots && HEADER_SIZE + |msg| <= s.size
    ensures var s' := Run(s, WriteSteps(msg));
            && Quiet(s') && s'.sent == s.sent + [Stored(msg)] && s'.got == s.got
            && s'.slots == s.slots && s'.size == s.size
            && HoldsMessage(s'.cells[SlotOf(|s.sent|, s.slots)], 0, Stored(msg))
  {
    ReadWriteDeltaIsLag(|s.sent|, |s.got|);
    var s1 := Apply(s, BeginWrite(msg));
    assert s1 == s.(writer := WCopy(msg, 0)) && s1.(writer := WIdle) == s;
    assert s.cells[s.tx % s.slots][..0] == Image(msg)[..0];
    StoresRun(s1, HEADER_SIZE + |msg|);
    assert WriteSteps(msg)[1..] == FinishStores(HEADER_SIZE + |msg|);
    ImageHolds(Run(s, WriteSteps(msg)).cells[SlotOf(|s.sent|, s.slots)], msg);
  }

  lemma {:induction false} RunConcat(s: State, a: seq<Step>, b: seq<Step>)
    ensures Run(s, a + b) == Run(Run(s, a), b)
    decreases a
  {
    if a == [] {
      assert a + b == b;
    } else {
      assert (a + b)[1..] == a[1..] + b;
      RunConcat(Apply(s, a[0]), a[1..], b);
    }
  }

  /** n writes of the same message, one after the other; the last one's slot holds it. */
  lemma {:induction false} WritesRun(s: State, msg: seq<u8>, n: nat) returns (es: seq<Step>)
    requires Quiet(s) && 0 < n && |s.sent| + n <= |s.got| + s.slots && HEADER_SIZE + |msg| <= s.size
    ensures var s' := Run(s, es);
            && Quiet(s') && s.sent <= s'.sent && |s'.sent| == |s.sent| + n && s'.got == s.got
            && s'.slots == s.slots && s'.size == s.size
            && HoldsMessage(s'.cells[SlotOf(|s.sent| + n - 1, s.slots)], 0, Stored(msg))
    decreases n
  {
    WriteRuns(s, msg);
    es := WriteSteps(msg);
    if n > 1 {
      var rest := WritesRun(Run(s, es), msg, n - 1);
      RunConcat(s, es, rest);
      es := es + rest;
    }
  }

  /** Every number of messages below 2^32 can have been written and read. */
  lemma {:induction false} CountReachable(slots: u32, size: u32, n: nat) returns (es: seq<Step>)
    requires 0 < slots && HEADER_SIZE <= size && n < TWO32
    ensures var s := Run(Init(slots, size), es);
            Inv(s) && Quiet(s) && |s.sent| == |s.got| == n && s.slots == slots && s.size == size
    decreases n
  {
    var s0 := Init(slots, size);
    InitInv(slots, size);
    es := [];
    if n > 0 {
      es := CountReachable(slots, size, n - 1);
      var s := Run(s0, es);
      WriteRuns(s, []);
      var s1 := Run(s, WriteSteps([]));
      RunKeepsInv(s, WriteSteps([]));
      var loads := OutstandingIsDeliverable(s1, 0);
      RunConcat(s, WriteSteps([]), loads);
      RunConcat(s0, es, WriteSteps([]) + loads);
      es := es + (WriteSteps([]) + loads);
    }
  }

  /** A reader by itself delivers whatever one-byte message the oldest slot holds. */
  lemma ReadsOne(s: State, b: u8)
    requires Quiet(s) && |s.got| < |s.sent|
    requires HoldsMessage(s.cells[s.rx % s.slots], 0, [b])
    ensures Run(s, [BeginRead, LoadLength(1), LoadByte, FinishRead]).got == s.got + [[b]]
    ensures Run(s, [BeginRead, LoadLength(1), LoadByte, FinishRead]).sent == s.sent
  {
    var row := s.cells[s.rx % s.slots];
    assert row[0..HEADER_SIZE][0] == row[0] && row[0..HEADER_SIZE][1] == row[1];
    assert row[HEADER_SIZE..HEADER_SIZE + 1][0] == row[HEADER_SIZE];
    ReadWriteDeltaIsLag(|s.sent|, |s.got|);
    var s1, s2, s3 := s.(reader := RHead), s.(reader := RCopy(1, [])), s.(reader := RCopy(1, [b]));
    assert Apply(s, BeginRead) == s1 && Apply(s1, LoadLength(1)) == s2;
    assert Apply(s2, LoadByte) == s3 by { assert [] + [b] == [b]; }
    var es: seq<Step> := [BeginRead, LoadLength(1), LoadByte, FinishRead];
    assert es[1..] == [LoadLength(1), LoadByte, FinishRead] && es[1..][1..] == [LoadByte, FinishRead];
    assert es[1..][1..][1..] == [FinishRead];
    assert Run(s3, [FinishRead]) == Run(Apply(s3, FinishRead), []);
  }

  /** From an empty queue at the last number before the wrap: one message, then enough others to
      come round to its slot early. */
  lemma OverwritesOldest(s: State) returns (es: seq<Step>)
    requires Quiet(s) && |s.sent| == |s.got| == TWO32 - 1 && HEADER_SIZE < s.size && TWO32 % s.slots != 0
    ensures var s' := Run(s, es);
            && Quiet(s') && s'.got == s.got && s'.slots == s.slots && |s.got| < |s'.sent| && s'.sent[|s.got|] == [1]
            && HoldsMessage(s'.cells[SlotOf(|s.got|, s.slots)], 0, [2])
  {
    var one: seq<u8>, two: seq<u8> := [1], [2];
    assert Stored(one) == one && Stored(two) == two;
    WrapCollides(s.slots);
    WriteRuns(s, one);
    var s1 := Run(s, WriteSteps(one));
    var fill := WritesRun(s1, two, TWO32 % s.slots);
    RunConcat(s, WriteSteps(one), fill);
    es := WriteSteps(one) + fill;
  }

  /** With a slot count that does not divide 2^32 a message is lost at the wrap: two outstanding
      messages share a slot, and the reader gets the later one in place of the older. */
  lemma WrapLosesMessage(slots: u32, size: u32) returns (es: seq<Step>)
    requires 0 < slots && TWO32 % slots != 0 && HEADER_SIZE < size
    ensures var s := Run(Init(slots, size), es); !(s.got <= s.sent)
  {
    var start := CountReachable(slots, size, TWO32 - 1);
    var s1 := Run(Init(slots, size), start);
    var fill := OverwritesOldest(s1);
    var s2 := Run(s1, fill);
    ReadsOne(s2, 2);
    var loads: seq<Step> := [BeginRead, LoadLength(1), LoadByte, FinishRead];
    RunConcat(s1, fill, loads);
    RunConcat(Init(slots, size), start, fill + loads);
    es := start + (fill + loads);
    var s := Run(s2, loads);
    assert s.got[|s1.got|] == [2] && s.sent[|s1.got|] == [1];
  }

  /** Exactly which queues are FIFO for good: every interleaving of any length delivers a prefix
      of what was published, if and only if the slot count divides 2^32. */
  lemma FifoForGoodIff(slots: u32, size: u32)
    requires 0 < slots && HEADER_SIZE < size
    ensures (forall es :: Run(Init(slots, size), es).got <= Run(Init(slots, size), es).sent)
            <==> TWO32 % slots == 0
  {
    if TWO32 % slots == 0 {
      forall es
        ensures Run(Init(slots, size), es).got <= Run(Init(slots, size), es).sent
      {
        EveryInterleavingIsFifo(slots, size, es);
      }
    } else {
      var es := WrapLosesMessage(slots, size);
    }
  }
}
