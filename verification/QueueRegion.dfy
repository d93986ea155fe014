/** The bounded message queue of aoc_ipc_core.c: `slots` cells of `size` bytes, indexed by
    free-running u32 counters, each message preceded by an eight byte header whose first
    two bytes are its length. */
module QueueRegion {
  import opened Machine

  const HEADER_SIZE: nat := 8

  /** The slot that message number i occupies. */
  function SlotOf(i: nat, slots: u32): (k: nat)
    requires 0 < slots
    ensures k < slots
  {
    Wrap32(i) % slots
  }

  /** Numbering of messages up to `count` can be told apart by slot: either the counter never
      wrapped or a wrap does not disturb the slot order. */
  ghost predicate WrapSafe(slots: u32, count: nat) {
    0 < slots ==> TWO32 % slots == 0 || count <= TWO32
  }

  lemma SlotsDistinct(i: nat, j: nat, slots: u32)
    requires 0 < slots && 0 < j - i < slots
    requires TWO32 % slots == 0 || j < TWO32
    ensures SlotOf(i, slots) != SlotOf(j, slots)
  {
    ModDistinct(i, j, slots);
    if TWO32 % slots == 0 {
      ModOfDivisor(i, TWO32, slots);
      ModOfDivisor(j, TWO32, slots);
    }
  }

  ghost predicate CollisionFree(slots: u32)
    requires 0 < slots
  {
    forall i: nat, j: nat | i < j < i + slots :: SlotOf(i, slots) != SlotOf(j, slots)
  }

  /** The last message before the counter wraps and one less than a round after it. */
  lemma WrapCollides(slots: u32)
    requires 0 < slots && TWO32 % slots != 0
    ensures var i, j := TWO32 - 1, TWO32 - 1 + TWO32 % slots;
            i < j < i + slots && SlotOf(i, slots) == SlotOf(j, slots)
  {
    var r := TWO32 % slots;
    DivModUnique(TWO32 - 1, slots, TWO32 / slots, r - 1);
    DivModUnique(r - 1, slots, 0, r - 1);
    assert Wrap32(TWO32 - 1 + r) == r - 1;
  }

  /** Messages that can be outstanding together always sit in different slots if and only if
      the number of slots divides 2^32. */
  lemma CollisionFreeIff(slots: u32)
    requires 0 < slots
    ensures CollisionFree(slots) <==> TWO32 % slots == 0
  {
    if TWO32 % slots == 0 {
      forall i: nat, j: nat | i < j < i + slots
        ensures SlotOf(i, slots) != SlotOf(j, slots)
      {
        SlotsDistinct(i, j, slots);
      }
    } else {
      WrapCollides(slots);
    }
  }

  /** The first byte of the slot of message i. */
  function Offset(i: nat, slots: u32, size: u32): (off: nat)
    requires 0 < slots
    ensures off + size <= slots * size
  {
    SlotFits(SlotOf(i, slots), slots, size);
    SlotOf(i, slots) * size
  }

  lemma SlotFits(a: nat, b: nat, size: nat)
    requires a < b
    ensures 0 <= a * size && a * size + size <= b * size
  {
    assert b * size == (a + 1) * size + (b - a - 1) * size;
  }

  /** Messages less than a round apart occupy different bytes. */
  lemma SlotsApart(i: nat, j: nat, slots: u32, size: u32)
    requires 0 < slots && 0 < j - i < slots
    requires TWO32 % slots == 0 || j < TWO32
    ensures || Offset(i, slots, size) + size <= Offset(j, slots, size)
            || Offset(j, slots, size) + size <= Offset(i, slots, size)
  {
    SlotsDistinct(i, j, slots);
    var a, b := SlotOf(i, slots), SlotOf(j, slots);
    if a < b { SlotFits(a, b, size); } else { SlotFits(b, a, size); }
  }

  /** The header bytes written for a payload of `length` bytes: a little-endian u16 that
      keeps the length modulo 2^16, then six zero bytes. */
  function Header(length: nat): (h: seq<u8>)
    ensures |h| == HEADER_SIZE
  {
    [length % 256, (length % TWO16) / 256, 0, 0, 0, 0, 0, 0]
  }

  function LengthField(h: seq<u8>): (n: u16)
    requires |h| >= 2
  {
    var lo: int, hi: int := h[0], h[1];
    lo + 256 * hi
  }

  /** What a reader can get back of a message: its first length-modulo-2^16 bytes. */
  function Stored(msg: seq<u8>): (s: seq<u8>)
    ensures |s| <= |msg|
  {
    msg[..|msg| % TWO16]
  }

  /** Header and payload survive together if and only if the payload is below 2^16 bytes. */
  lemma StoredIsMessageIff(msg: seq<u8>)
    ensures LengthField(Header(|msg|)) == |Stored(msg)|
    ensures Stored(msg) == msg <==> |msg| < TWO16
  {
    ModOfDivisor(|msg|, TWO16, 256);
  }

  /** A payload that passes the size check stays inside its slot, header included, if and
      only if the slot can hold a header. */
  lemma WriteStaysInSlotIff(size: u32, length: nat)
    requires length <= MessageSize(size)
    ensures HEADER_SIZE + length <= size <==> HEADER_SIZE <= size
  {
  }

  function MessageSize(size: u32): nat {
    if size <= HEADER_SIZE then 0 else size - HEADER_SIZE
  }

  /** The bytes of d from `off` on are a header for m followed by m. */
  ghost predicate HoldsMessage(d: seq<u8>, off: nat, m: seq<u8>) {
    && off + HEADER_SIZE + |m| <= |d|
    && LengthField(d[off..off + HEADER_SIZE]) == |m|
    && d[off + HEADER_SIZE..off + HEADER_SIZE + |m|] == m
  }

  lemma HoldsMessageFrame(d: seq<u8>, d': seq<u8>, off: nat, m: seq<u8>)
    requires HoldsMessage(d, off, m) && |d| == |d'|
    requires d[off..off + HEADER_SIZE + |m|] == d'[off..off + HEADER_SIZE + |m|]
    ensures HoldsMessage(d', off, m)
  {
    var a, b := off + HEADER_SIZE, off + HEADER_SIZE + |m|;
    assert d[off..a] == d[off..b][..HEADER_SIZE] && d'[off..a] == d'[off..b][..HEADER_SIZE];
    assert d[a..b] == d[off..b][HEADER_SIZE..] && d'[a..b] == d'[off..b][HEADER_SIZE..];
  }

  /** Changing only the slot after the newest message leaves every outstanding one in place. */
  lemma OutstandingKept(before: seq<u8>, after: seq<u8>, sent: seq<seq<u8>>, received: nat, slots: u32, size: u32)
    requires 0 < slots && received <= |sent| < received + slots && WrapSafe(slots, |sent| + 1)
    requires |before| == |after| == slots * size
    requires forall p | 0 <= p < |before| && !(0 <= p - Offset(|sent|, slots, size) < size) :: after[p] == before[p]
    requires forall i | received <= i < |sent| ::
               HEADER_SIZE + |sent[i]| <= size && HoldsMessage(before, Offset(i, slots, size), sent[i])
    ensures forall i | received <= i < |sent| :: HoldsMessage(after, Offset(i, slots, size), sent[i])
  {
    forall i | received <= i < |sent|
      ensures HoldsMessage(after, Offset(i, slots, size), sent[i])
    {
      SlotsApart(i, |sent|, slots, size);
      HoldsMessageFrame(before, after, Offset(i, slots, size), sent[i]);
    }
  }

  /** A place holds one message. */
  lemma OneMessage(d: seq<u8>, off: nat, m: seq<u8>, m': seq<u8>)
    requires HoldsMessage(d, off, m) && HoldsMessage(d, off, m')
    ensures m == m'
  {
  }

  /** What a write leaves of an outstanding message i, wrapped or not: it stays whole if and only
      if the new message has another slot, or is the same message. */
  lemma OutstandingIff(before: seq<u8>, after: seq<u8>, i: nat, m: seq<u8>, j: nat, new': seq<u8>,
                       slots: u32, size: u32)
    requires 0 < slots && |before| == |after| == slots * size
    requires forall p | 0 <= p < |before| && !(0 <= p - Offset(j, slots, size) < size) :: after[p] == before[p]
    requires HEADER_SIZE + |m| <= size && HoldsMessage(before, Offset(i, slots, size), m)
    requires HoldsMessage(after, Offset(j, slots, size), new')
    ensures HoldsMessage(after, Offset(i, slots, size), m) <==> SlotOf(i, slots) != SlotOf(j, slots) || m == new'
  {
    var a, b := SlotOf(i, slots), SlotOf(j, slots);
    if a == b {
      if HoldsMessage(after, Offset(i, slots, size), m) {
        OneMessage(after, Offset(i, slots, size), m, new');
      }
    } else {
      if a < b { SlotFits(a, b, size); } else { SlotFits(b, a, size); }
      HoldsMessageFrame(before, after, Offset(i, slots, size), m);
    }
  }

  class Queue {
    const size: u32
    const slots: u32
    const data: array<u8>
    var tx: u32
    var rx: u32
    ghost var sent: seq<seq<u8>>
    ghost var received: nat

    ghost predicate Shape()
      reads this
    {
      && data.Length == slots * size <= TWO32 && HEADER_SIZE <= size
      && received <= |sent| <= received + slots
      && tx == Wrap32(|sent|) && rx == Wrap32(received)
      && WrapSafe(slots, |sent|)
      && forall i | received <= i < |sent| :: HEADER_SIZE + |sent[i]| <= size
    }

    /** A bounded FIFO: at most `slots` messages are outstanding, and each one still sits,
        complete, in its own slot. */
    ghost predicate Valid()
      reads this, data
    {
      && Shape()
      && forall i | received <= i < |sent| :: HoldsMessage(data[..], Offset(i, slots, size), sent[i])
    }

    constructor (size: u32, slots: u32)
      requires HEADER_SIZE <= size && slots * size <= TWO32
      ensures Valid() && this.size == size && this.slots == slots
      ensures sent == [] && received == 0 && fresh(data)
    {
      this.size, this.slots := size, slots;
      data := new u8[slots * size];
      tx, rx := 0, 0;
      sent, received := [], 0;
    }

    function Delta(): u32
      reads this
    {
      ReadWriteDelta(tx, rx)
    }

    function SlotsAvailableToRead(): nat
      reads this
    {
      if slots == 0 then 0 else if Delta() > slots then slots else Delta()
    }

    /** A size_t difference: it would be huge, not negative, if the counters ever ran apart. */
    function SlotsAvailableToWrite(): nat
      reads this
    {
      if slots == 0 then 0
      else if Delta() <= slots then slots - Delta()
      else slots - Delta() + 0x1_0000_0000_0000_0000
    }

    /** In every valid state the two counts split the slots, so the difference never wraps. */
    lemma SlotCounts()
      requires Shape()
      ensures SlotsAvailableToRead() == |sent| - received
      ensures SlotsAvailableToWrite() == slots - (|sent| - received)
    {
      ReadWriteDeltaIsLag(|sent|, received);
    }

    method CurrentReadPointer() returns (off: nat)
      requires Shape() && 0 < slots
      ensures off == Offset(received, slots, size)
    {
      off := size * (rx % slots);
    }

    method CurrentWritePointer() returns (off: nat)
      requires Shape() && 0 < slots
      ensures off == Offset(|sent|, slots, size)
    {
      off := size * (tx % slots);
    }

    method AdvanceReadIndex(amount: u32) returns (ok: bool)
      requires Valid()
      modifies this`rx, this`received
      ensures Valid()
      ensures ok == (amount <= |sent| - old(received))
      ensures received == if ok then old(received) + amount else old(received)
    {
      SlotCounts();
      if SlotsAvailableToRead() < amount {
        return false;
      }
      ModAdd(received, amount, TWO32);
      rx := Wrap32(rx + amount);
      received := received + amount;
      ok := true;
    }

    /** aoc_service_flush_read_data on a queue: forgets every outstanding message. */
    method FlushReadData() returns (ok: bool)
      requires Valid()
      modifies this`rx, this`received
      ensures Valid() && received == |sent|
      ensures ok == (old(received) < |sent|)
    {
      SlotCounts();
      var n := SlotsAvailableToRead();
      if n == 0 {
        return false;
      }
      var _ := AdvanceReadIndex(n);
      ok := true;
    }

    /** aoc_service_current_message_size: the length of the next message, 0 when there is none. */
    method CurrentMessageSize() returns (n: nat)
      requires Valid()
      ensures n == if received < |sent| then |sent[received]| else 0
    {
      SlotCounts();
      if SlotsAvailableToRead() == 0 {
        return 0;
      }
      var off := CurrentReadPointer();
      n := LengthField(data[off..off + HEADER_SIZE]);
    }

    method CopyPayload(from: nat, buffer: array<u8>, length: nat)
      requires buffer != data && from + length <= data.Length && length <= buffer.Length
      modifies buffer
      ensures buffer[..length] == data[from..from + length] && buffer[length..] == old(buffer[length..])
    {
      forall k | 0 <= k < length { buffer[k] := data[from + k]; }
    }

    /** Takes the oldest message, whole and once. With nothing to read, or into a buffer that
        is too small, it changes nothing at all. */
    method ReadMessage(buffer: array<u8>, count: nat) returns (ok: bool, n: nat)
      requires Valid() && buffer != data && count <= buffer.Length
      modifies this`rx, this`received, buffer
      ensures Valid()
      ensures ok <==> old(received) < |sent| && |sent[old(received)]| <= count
      ensures ok ==> received == old(received) + 1 && n == |sent[old(received)]|
      ensures ok ==> buffer[..n] == sent[old(received)] && buffer[n..] == old(buffer[n..])
      ensures !ok ==> received == old(received) && rx == old(rx) && n == count
      ensures !ok ==> buffer[..] == old(buffer[..])
    {
      SlotCounts();
      if SlotsAvailableToRead() == 0 {
        return false, count;
      }
      var off := CurrentReadPointer();
      assert HoldsMessage(data[..], off, sent[received]);
      var length := LengthField(data[off..off + HEADER_SIZE]);
      if count < length {
        return false, count;
      }
      CopyPayload(off + HEADER_SIZE, buffer, length);
      n := length;
      var _ := AdvanceReadIndex(1);
      ok := true;
    }

    /** The two copies of a write: the header, then the payload. */
    method FillSlot(off: nat, buffer: array<u8>, length: nat)
      requires off + HEADER_SIZE + length <= data.Length
      requires buffer != data && length <= buffer.Length
      modifies data
      ensures HoldsMessage(data[..], off, Stored(buffer[..length]))
      ensures forall p | 0 <= p < data.Length && !(off <= p < off + HEADER_SIZE + length) :: data[p] == old(data[p])
    {
      var h := Header(length);
      forall k | 0 <= k < HEADER_SIZE { data[off + k] := h[k]; }
      forall k | 0 <= k < length { data[off + HEADER_SIZE + k] := buffer[k]; }
      assert data[off..off + HEADER_SIZE] == h;
      StoredIsMessageIff(buffer[..length]);
      var n := length % TWO16;
      assert data[off + HEADER_SIZE..off + HEADER_SIZE + n] == buffer[..n];
    }

    /** Publishes the message that was placed in the next slot. */
    method IncrementWriteIndex(ghost msg: seq<u8>)
      requires Shape() && |sent| < received + slots && HEADER_SIZE + |msg| <= size
      requires WrapSafe(slots, |sent| + 1) ==> Valid() && HoldsMessage(data[..], Offset(|sent|, slots, size), msg)
      modifies this`tx, this`sent
      ensures tx == Wrap32(|sent|) && sent == old(sent) + [msg]
      ensures WrapSafe(slots, |sent|) ==> Valid()
    {
      ModAdd(|sent|, 1, TWO32);
      tx := Wrap32(tx + 1);
      sent := sent + [msg];
    }

    /** Appends one message, or refuses and changes nothing. The bytes it touches all belong
        to the slot of the new message. An outstanding message stays whole exactly when it has
        another slot or is the same message: always as long as the counter has not wrapped, and
        for good if the slot count divides 2^32. */
    method WriteMessage(buffer: array<u8>, length: nat) returns (ok: bool)
      requires Valid() && buffer != data && length <= buffer.Length
      modifies this`tx, this`sent, data
      ensures WrapSafe(slots, |sent|) ==> Valid()
      ensures tx == Wrap32(|sent|)
      ensures ok <==> |old(sent)| < received + slots && HEADER_SIZE + length <= size
      ensures sent == if ok then old(sent) + [Stored(buffer[..length])] else old(sent)
      ensures !ok ==> data[..] == old(data[..])
      ensures ok ==> forall p | 0 <= p < data.Length && data[p] != old(data[p]) ::
                       0 <= p - Offset(old(|sent|), slots, size) < size
      ensures ok ==> forall i | received <= i < old(|sent|) ::
                       HoldsMessage(data[..], Offset(i, slots, size), sent[i]) <==>
                       SlotOf(i, slots) != SlotOf(old(|sent|), slots) || sent[i] == sent[old(|sent|)]
    {
      SlotCounts();
      if SlotsAvailableToWrite() == 0 || length > MessageSize(size) {
        return false;
      }
      var off := CurrentWritePointer();
      ghost var before := data[..];
      FillSlot(off, buffer, length);
      ghost var msg := Stored(buffer[..length]);
      assert HoldsMessage(data[..], off, msg);
      forall i | received <= i < |sent|
        ensures HoldsMessage(data[..], Offset(i, slots, size), sent[i]) <==>
                SlotOf(i, slots) != SlotOf(|sent|, slots) || sent[i] == msg
      {
        OutstandingIff(before, data[..], i, sent[i], |sent|, msg, slots, size);
      }
      if WrapSafe(slots, |sent| + 1) {
        OutstandingKept(before, data[..], sent, received, slots, size);
      }
      IncrementWriteIndex(msg);
      ok := true;
    }
  }
}
