/** The battery storage registry of gbms_storage.c: six ordered provider slots, some of them
    placeholders for providers that register late, and a cache from tags to slots. */
module StorageRegistry {
  import opened Errno

  type Tag = int

  const PROVIDERS_MAX: nat := 6
  const NAME_MAX: nat := 32

  datatype Option<+T> = None | Some(value: T)

  datatype Reply = Reply(code: int, data: seq<int>)

  /** A provider as its callbacks show it. `answer` and `accept` are what its read and write
      callbacks currently return; they may change at any time, `known` may not. */
  datatype Device = Device(
    known: set<Tag>,
    hasRead: bool,
    hasWrite: bool,
    answer: (Tag, nat) -> Reply,
    accept: (Tag, seq<int>) -> int)
  {
    /** -ENOENT for exactly the tags the provider does not know. */
    ghost predicate Ok() {
      && (forall tag, count :: answer(tag, count).code == ENOENT <==> tag !in known)
      && (forall tag, data :: accept(tag, data) == ENOENT <==> tag !in known)
    }

    /** Another moment in the life of the same provider. */
    ghost predicate SameAs(d: Device) {
      known == d.known && hasRead == d.hasRead && hasWrite == d.hasWrite && Ok()
    }

    predicate Serves(tag: Tag, reading: bool) {
      tag in known && if reading then hasRead else hasWrite
    }
  }

  datatype Slot = Slot(name: string, dsc: Option<Device>)

  // ------------------------------------------------------------- registration

  /** The first slot whose name is a prefix of `name`, |slots| if there is none. */
  function FirstMatch(slots: seq<Slot>, name: string): (i: nat)
    ensures i <= |slots| && (i < |slots| ==> slots[i].name <= name)
    ensures forall k | 0 <= k < i :: !(slots[k].name <= name)
  {
    if slots == [] || slots[0].name <= name then 0 else 1 + FirstMatch(slots[1..], name)
  }

  /** The slot a name is registered in, or why it is refused. */
  function SlotFor(slots: seq<Slot>, name: string): int {
    var i := FirstMatch(slots, name);
    if i < |slots| then (if slots[i].dsc.Some? then EBUSY else i)
    else if i == PROVIDERS_MAX then ENOMEM
    else i
  }

  function RegisterCode(slots: seq<Slot>, name: string): int {
    if |name| >= NAME_MAX then EINVAL else if SlotFor(slots, name) < 0 then SlotFor(slots, name) else 0
  }

  function Registered(slots: seq<Slot>, desc: Option<Device>, name: string): seq<Slot> {
    if RegisterCode(slots, name) != 0 then slots
    else
      var i := SlotFor(slots, name);
      if i < |slots| then slots[i := Slot(name, desc)] else slots + [Slot(name, desc)]
  }

  ghost predicate RegistryOk(slots: seq<Slot>) {
    && |slots| <= PROVIDERS_MAX
    && forall i, j | 0 <= i < j < |slots| :: !(slots[i].name <= slots[j].name)
  }

  /** What one registration may do to a slot that exists: a provider stays, a placeholder stays
      or is taken over by a name that extends its own. */
  ghost predicate Grows(before: seq<Slot>, after: seq<Slot>) {
    && |before| <= |after|
    && forall i | 0 <= i < |before| ::
         after[i] == before[i] || (before[i].dsc.None? && before[i].name <= after[i].name)
  }

  lemma RegisterKeepsOk(slots: seq<Slot>, desc: Option<Device>, name: string)
    requires RegistryOk(slots)
    ensures RegistryOk(Registered(slots, desc, name)) && Grows(slots, Registered(slots, desc, name))
  {
    var after, i := Registered(slots, desc, name), SlotFor(slots, name);
    if after != slots && i < |slots| {
      forall j | i < j < |slots|
        ensures !(name <= slots[j].name)
      {
        assert slots[i].name <= name && !(slots[i].name <= slots[j].name);
      }
    }
  }

  /** Exactly one slot is new or different: it holds the name and the descriptor. It is the first
      whose name is a prefix, a placeholder until now, or else a slot at the end. */
  ghost predicate PutInSlot(before: seq<Slot>, after: seq<Slot>, desc: Option<Device>, name: string) {
    exists i | 0 <= i < |after| ::
      && after[i] == Slot(name, desc) && i <= |before| && |after| == (if i < |before| then |before| else i + 1)
      && (forall k | 0 <= k < |before| && k != i :: after[k] == before[k])
      && (forall k | 0 <= k < i :: !(before[k].name <= name))
      && (i < |before| ==> before[i].name <= name && before[i].dsc.None?)
  }

  /** The first slot whose name is a prefix has a provider. */
  ghost predicate Taken(slots: seq<Slot>, name: string) {
    exists i | 0 <= i < |slots| ::
      slots[i].name <= name && slots[i].dsc.Some? && forall k | 0 <= k < i :: !(slots[k].name <= name)
  }

  ghost predicate NoMatch(slots: seq<Slot>, name: string) {
    forall k | 0 <= k < |slots| :: !(slots[k].name <= name)
  }

  /** What a registration's code says, and what it leaves. */
  ghost predicate IsRegistration(before: seq<Slot>, after: seq<Slot>, desc: Option<Device>, name: string, code: int) {
    && (code == EINVAL <==> |name| >= NAME_MAX)
    && (code == EBUSY <==> |name| < NAME_MAX && Taken(before, name))
    && (code == ENOMEM <==> |name| < NAME_MAX && NoMatch(before, name) && |before| >= PROVIDERS_MAX)
    && code in {EINVAL, EBUSY, ENOMEM, 0}
    && (if code == 0 then PutInSlot(before, after, desc, name) else after == before)
  }

  lemma RegisterMeans(slots: seq<Slot>, desc: Option<Device>, name: string)
    requires |slots| <= PROVIDERS_MAX
    ensures IsRegistration(slots, Registered(slots, desc, name), desc, name, RegisterCode(slots, name))
  {
    var i, after := FirstMatch(slots, name), Registered(slots, desc, name);
    if Taken(slots, name) {
      var j :| 0 <= j < |slots| && slots[j].name <= name && slots[j].dsc.Some? &&
               forall k | 0 <= k < j :: !(slots[k].name <= name);
      assert j == i;
    }
    if RegisterCode(slots, name) == 0 {
      assert after[i] == Slot(name, desc);
    }
  }

  function RegisterAll(slots: seq<Slot>, rs: seq<(Option<Device>, string)>): seq<Slot>
    decreases rs
  {
    if rs == [] then slots else RegisterAll(Registered(slots, rs[0].0, rs[0].1), rs[1..])
  }

  /** Over every sequence of registrations: at most six slots, no name a prefix of a later one
      (so names stay distinct), no provider replaced, placeholders only taken over by extension. */
  lemma {:induction false} RegistryInvariant(slots: seq<Slot>, rs: seq<(Option<Device>, string)>)
    requires RegistryOk(slots)
    ensures RegistryOk(RegisterAll(slots, rs)) && Grows(slots, RegisterAll(slots, rs))
    decreases rs
  {
    if rs != [] {
      var mid := Registered(slots, rs[0].0, rs[0].1);
      RegisterKeepsOk(slots, rs[0].0, rs[0].1);
      RegistryInvariant(mid, rs[1..]);
      GrowsTransitive(slots, mid, RegisterAll(slots, rs));
    }
  }

  lemma GrowsTransitive(a: seq<Slot>, b: seq<Slot>, c: seq<Slot>)
    requires Grows(a, b) && Grows(b, c)
    ensures Grows(a, c)
  {
    forall i | 0 <= i < |a|
      ensures a[i] == c[i] || (a[i].dsc.None? && a[i].name <= c[i].name)
    {
      assert b[i] == a[i] || a[i].name <= b[i].name;
      assert c[i] == b[i] || b[i].name <= c[i].name;
    }
  }

  // ------------------------------------------------------------- lookup without a cache

  predicate Serves(slot: Slot, tag: Tag, reading: bool) {
    slot.dsc.Some? && slot.dsc.value.Serves(tag, reading)
  }

  /** The first slot at or after i that serves the tag, |slots| if there is none. */
  function OwnerFrom(slots: seq<Slot>, tag: Tag, reading: bool, i: nat): (o: nat)
    requires i <= |slots|
    ensures i <= o <= |slots| && (o < |slots| ==> Serves(slots[o], tag, reading))
    ensures forall k | i <= k < o :: !Serves(slots[k], tag, reading)
    decreases |slots| - i
  {
    if i == |slots| || Serves(slots[i], tag, reading) then i else OwnerFrom(slots, tag, reading, i + 1)
  }

  function Owner(slots: seq<Slot>, tag: Tag, reading: bool): nat {
    OwnerFrom(slots, tag, reading, 0)
  }

  predicate Pending(slots: seq<Slot>) {
    exists i | 0 <= i < |slots| :: slots[i].dsc.None?
  }

  /** Nobody serves the tag: not found, or not yet known while a placeholder remains. */
  function Missing(slots: seq<Slot>): int {
    if Pending(slots) then EPROBE_DEFER else ENOENT
  }

  function ScanRead(slots: seq<Slot>, tag: Tag, count: nat): Reply {
    var o := Owner(slots, tag, true);
    if o < |slots| then slots[o].dsc.value.answer(tag, count) else Reply(Missing(slots), [])
  }

  function ScanWrite(slots: seq<Slot>, tag: Tag, data: seq<int>): int {
    var o := Owner(slots, tag, false);
    if o < |slots| then slots[o].dsc.value.accept(tag, data) else Missing(slots)
  }

  /** The slots after a write that slot o performed, leaving its provider as `after`. */
  function Written(slots: seq<Slot>, o: nat, after: Device): seq<Slot> {
    if o < |slots| && slots[o].dsc.Some? then slots[o := slots[o].(dsc := Some(after))] else slots
  }

  // ------------------------------------------------------------- lookup with the cache

  type Cache = map<Tag, nat>

  /** What the providers promise and what the cache keeps: every tag is known to at most one
      registered provider, and a cached tag is known to the provider in its slot. */
  ghost predicate Lawful(slots: seq<Slot>) {
    && (forall i | 0 <= i < |slots| && slots[i].dsc.Some? :: slots[i].dsc.value.Ok())
    && (forall i, j, tag | 0 <= i < j < |slots| && slots[i].dsc.Some? && slots[j].dsc.Some? ::
          !(tag in slots[i].dsc.value.known && tag in slots[j].dsc.value.known))
  }

  ghost predicate CacheOk(slots: seq<Slot>, cache: Cache) {
    forall tag | tag in cache ::
      cache[tag] < |slots| && slots[cache[tag]].dsc.Some? && tag in slots[cache[tag]].dsc.value.known
  }

  /** A cached provider is one that can be read. */
  ghost predicate CacheReadable(slots: seq<Slot>, cache: Cache)
    requires CacheOk(slots, cache)
  {
    forall tag | tag in cache :: slots[cache[tag]].dsc.value.hasRead
  }

  /** The reply of the cached provider alone; a tag that is not cached is not found. */
  function HitRead(slots: seq<Slot>, cache: Cache, tag: Tag, count: nat): Reply {
    if tag in cache && cache[tag] < |slots| && slots[cache[tag]].dsc.Some? then
      var d := slots[cache[tag]].dsc.value;
      if d.hasRead then d.answer(tag, count) else Reply(EACCES, [])
    else Reply(ENOENT, [])
  }

  function HitWrite(slots: seq<Slot>, cache: Cache, tag: Tag, data: seq<int>): int {
    if tag in cache && cache[tag] < |slots| && slots[cache[tag]].dsc.Some? then
      var d := slots[cache[tag]].dsc.value;
      if d.hasWrite then d.accept(tag, data) else EACCES
    else ENOENT
  }

  function CachedRead(slots: seq<Slot>, cache: Cache, tag: Tag, count: nat): Reply {
    var hit := HitRead(slots, cache, tag, count);
    if hit.code == ENOENT then ScanRead(slots, tag, count) else hit
  }

  function CachedWrite(slots: seq<Slot>, cache: Cache, tag: Tag, data: seq<int>): int {
    var hit := HitWrite(slots, cache, tag, data);
    if hit == ENOENT then ScanWrite(slots, tag, data) else hit
  }

  /** A scan that a provider ends with success is cached, if the pool has room. */
  function Remember(slots: seq<Slot>, cache: Cache, tag: Tag, reading: bool, hit: int, code: int, room: bool): Cache {
    var o := Owner(slots, tag, reading);
    if hit == ENOENT && o < |slots| && code >= 0 && room then cache[tag := o] else cache
  }

  lemma CachedSlotIsOwner(slots: seq<Slot>, cache: Cache, tag: Tag, reading: bool)
    requires Lawful(slots) && CacheOk(slots, cache) && tag in cache
    ensures var d := slots[cache[tag]].dsc.value;
            Owner(slots, tag, reading) ==
            if (if reading then d.hasRead else d.hasWrite) then cache[tag] else |slots|
  {
    var o, c := Owner(slots, tag, reading), cache[tag];
    assert o < |slots| ==> tag in slots[o].dsc.value.known;
    assert tag in slots[c].dsc.value.known;
  }

  /** A read through the cache gives the code and data of an uncached scan if and only if the
      tag is not cached at a provider without a read callback. */
  lemma ReadTransparentIff(slots: seq<Slot>, cache: Cache, tag: Tag, count: nat)
    requires Lawful(slots) && CacheOk(slots, cache)
    ensures CachedRead(slots, cache, tag, count) == ScanRead(slots, tag, count)
            <==> (tag in cache ==> slots[cache[tag]].dsc.value.hasRead)
  {
    if tag in cache {
      CachedSlotIsOwner(slots, cache, tag, true);
    }
  }

  /** A write through the cache gives the code of an uncached scan if and only if the tag is
      not cached at a provider without a write callback; there it is -EACCES, where the scan
      finds nobody. Either way the same provider, if any, performs the write. */
  lemma WriteTransparentIff(slots: seq<Slot>, cache: Cache, tag: Tag, data: seq<int>)
    requires Lawful(slots) && CacheOk(slots, cache)
    ensures CachedWrite(slots, cache, tag, data) == ScanWrite(slots, tag, data)
            <==> (tag in cache ==> slots[cache[tag]].dsc.value.hasWrite)
    ensures tag in cache && !slots[cache[tag]].dsc.value.hasWrite ==>
              CachedWrite(slots, cache, tag, data) == EACCES && ScanWrite(slots, tag, data) == Missing(slots)
  {
    if tag in cache {
      CachedSlotIsOwner(slots, cache, tag, false);
    }
  }

  /** When a read through the cache asks to be tried again: exactly when nobody registered can be
      asked for the tag and a placeholder remains, or when the one provider that knows the tag
      itself defers. */
  lemma DeferIff(slots: seq<Slot>, cache: Cache, tag: Tag, count: nat)
    requires Lawful(slots) && CacheOk(slots, cache) && CacheReadable(slots, cache)
    ensures CachedRead(slots, cache, tag, count).code == EPROBE_DEFER <==>
            || (Pending(slots) && forall i | 0 <= i < |slots| :: !Serves(slots[i], tag, true))
            || (exists i | 0 <= i < |slots| && Serves(slots[i], tag, true) ::
                  slots[i].dsc.value.answer(tag, count).code == EPROBE_DEFER)
  {
    ReadTransparentIff(slots, cache, tag, count);
    var o := Owner(slots, tag, true);
    if i :| 0 <= i < |slots| && Serves(slots[i], tag, true) {
      assert o < |slots| && Serves(slots[o], tag, true);
      assert forall k | 0 <= k < |slots| && Serves(slots[k], tag, true) :: k == o;
    }
  }

  // ------------------------------------------------------------- whole histories

  datatype Op =
    | Register(desc: Option<Device>, name: string)
    | Read(tag: Tag, count: nat, room: bool)
    | Write(tag: Tag, data: seq<int>, after: Device, room: bool)
    | Change(i: nat, now: Device)          // a provider changes its answers by itself

  /** One operation on the slots alone, which is all an uncached registry has. */
  function SlotsAfter(slots: seq<Slot>, op: Op): seq<Slot> {
    match op
    case Register(desc, name) => Registered(slots, desc, name)
    case Read(_, _, _) => slots
    case Write(tag, _, after, _) => Written(slots, Owner(slots, tag, false), after)
    case Change(i, now) => Written(slots, i, now)
  }

  /** The slots after one operation of the registry with its cache. */
  function CachedSlotsAfter(slots: seq<Slot>, cache: Cache, op: Op): seq<Slot> {
    match op
    case Write(tag, data, after, _) =>
      if HitWrite(slots, cache, tag, data) == ENOENT then Written(slots, Owner(slots, tag, false), after)
      else if slots[cache[tag]].dsc.value.hasWrite then Written(slots, cache[tag], after)
      else slots
    case _ => SlotsAfter(slots, op)
  }

  function CacheAfter(slots: seq<Slot>, cache: Cache, op: Op): Cache {
    match op
    case Read(tag, count, room) =>
      Remember(slots, cache, tag, true, HitRead(slots, cache, tag, count).code, ScanRead(slots, tag, count).code, room)
    case Write(tag, data, _, room) =>
      Remember(slots, cache, tag, false, HitWrite(slots, cache, tag, data), ScanWrite(slots, tag, data), room)
    case _ => cache
  }

  function CachedReply(slots: seq<Slot>, cache: Cache, op: Op): Reply {
    match op
    case Register(_, name) => Reply(RegisterCode(slots, name), [])
    case Read(tag, count, _) => CachedRead(slots, cache, tag, count)
    case Write(tag, data, _, _) => Reply(CachedWrite(slots, cache, tag, data), [])
    case Change(_, _) => Reply(0, [])
  }

  function ScanReply(slots: seq<Slot>, op: Op): Reply {
    match op
    case Register(_, name) => Reply(RegisterCode(slots, name), [])
    case Read(tag, count, _) => ScanRead(slots, tag, count)
    case Write(tag, data, _, _) => Reply(ScanWrite(slots, tag, data), [])
    case Change(_, _) => Reply(0, [])
  }

  function CachedRun(slots: seq<Slot>, cache: Cache, ops: seq<Op>): seq<Reply>
    decreases ops
  {
    if ops == [] then []
    else [CachedReply(slots, cache, ops[0])] +
         CachedRun(CachedSlotsAfter(slots, cache, ops[0]), CacheAfter(slots, cache, ops[0]), ops[1..])
  }

  function ScanRun(slots: seq<Slot>, ops: seq<Op>): seq<Reply>
    decreases ops
  {
    if ops == [] then [] else [ScanReply(slots, ops[0])] + ScanRun(SlotsAfter(slots, ops[0]), ops[1..])
  }

  /** Each operation leaves the providers within their contract: writes and changes keep what a
      provider knows, and registrations keep every tag at one provider. */
  ghost predicate LawfulRun(slots: seq<Slot>, ops: seq<Op>)
    decreases ops
  {
    && Lawful(slots)
    && (ops != [] ==>
          && (ops[0].Write? ==>
                var o := Owner(slots, ops[0].tag, false);
                o < |slots| ==> ops[0].after.SameAs(slots[o].dsc.value))
          && (ops[0].Change? && ops[0].i < |slots| && slots[ops[0].i].dsc.Some? ==>
                ops[0].now.SameAs(slots[ops[0].i].dsc.value))
          && LawfulRun(SlotsAfter(slots, ops[0]), ops[1..]))
  }

  /** Descriptors with a write callback have a read callback. */
  ghost predicate WriteImpliesRead(slots: seq<Slot>) {
    forall i | 0 <= i < |slots| && slots[i].dsc.Some? && slots[i].dsc.value.hasWrite ::
      slots[i].dsc.value.hasRead
  }

  lemma StepsAgree(slots: seq<Slot>, cache: Cache, op: Op)
    requires Lawful(slots) && CacheOk(slots, cache)
    ensures CachedSlotsAfter(slots, cache, op) == SlotsAfter(slots, op)
  {
    if op.Write? && op.tag in cache {
      CachedSlotIsOwner(slots, cache, op.tag, false);
    }
  }

  lemma SlotsKeepCache(slots: seq<Slot>, cache: Cache, op: Op)
    requires LawfulRun(slots, [op]) && CacheOk(slots, cache) && CacheReadable(slots, cache)
    ensures CacheOk(SlotsAfter(slots, op), cache) && CacheReadable(SlotsAfter(slots, op), cache)
  {
  }

  lemma RememberKeepsCache(slots: seq<Slot>, cache: Cache, op: Op)
    requires Lawful(slots) && WriteImpliesRead(slots) && CacheOk(slots, cache) && CacheReadable(slots, cache)
    ensures CacheOk(slots, CacheAfter(slots, cache, op)) && CacheReadable(slots, CacheAfter(slots, cache, op))
  {
  }

  ghost predicate AllWriteImpliesRead(slots: seq<Slot>, ops: seq<Op>)
    decreases ops
  {
    WriteImpliesRead(slots) && (ops != [] ==> AllWriteImpliesRead(SlotsAfter(slots, ops[0]), ops[1..]))
  }

  /** One reply: the uncached one, or -EACCES to a write that nobody would serve. */
  lemma ReplyAgrees(slots: seq<Slot>, cache: Cache, op: Op)
    requires Lawful(slots) && CacheOk(slots, cache) && CacheReadable(slots, cache)
    ensures || CachedReply(slots, cache, op) == ScanReply(slots, op)
            || (op.Write? && CachedReply(slots, cache, op).code == EACCES &&
                ScanReply(slots, op).code in {ENOENT, EPROBE_DEFER})
  {
    if op.Read? {
      ReadTransparentIff(slots, cache, op.tag, op.count);
    } else if op.Write? {
      WriteTransparentIff(slots, cache, op.tag, op.data);
    }
  }

  /** The cache is transparent over every history of registrations, reads, writes and changes
      in the providers: every read replies as an uncached registry would, and so does
      everything else, except that a write may be refused with -EACCES where the uncached
      registry would find no provider for it. */
  lemma {:induction false} CacheIsTransparent(slots: seq<Slot>, cache: Cache, ops: seq<Op>)
    requires LawfulRun(slots, ops) && AllWriteImpliesRead(slots, ops)
    requires CacheOk(slots, cache) && CacheReadable(slots, cache)
    ensures |CachedRun(slots, cache, ops)| == |ScanRun(slots, ops)| == |ops|
    ensures forall k | 0 <= k < |ops| ::
              || CachedRun(slots, cache, ops)[k] == ScanRun(slots, ops)[k]
              || (ops[k].Write? && CachedRun(slots, cache, ops)[k].code == EACCES &&
                  ScanRun(slots, ops)[k].code in {ENOENT, EPROBE_DEFER})
    decreases ops
  {
    if ops != [] {
      var op, rest := ops[0], ops[1..];
      var slots', cache' := SlotsAfter(slots, op), CacheAfter(slots, cache, op);
      assert LawfulRun(slots, [op]);
      StepsAgree(slots, cache, op);
      RememberKeepsCache(slots, cache, op);
      SlotsKeepCache(slots, cache', op);
      CacheIsTransparent(slots', cache', rest);
      ReplyAgrees(slots, cache, op);
    }
  }

  // ------------------------------------------------------------- a registered provider serves its tags

  function SlotsRun(slots: seq<Slot>, ops: seq<Op>): seq<Slot>
    decreases ops
  {
    if ops == [] then slots else SlotsRun(SlotsAfter(slots, ops[0]), ops[1..])
  }

  function CacheRun(slots: seq<Slot>, cache: Cache, ops: seq<Op>): Cache
    decreases ops
  {
    if ops == [] then cache
    else CacheRun(CachedSlotsAfter(slots, cache, ops[0]), CacheAfter(slots, cache, ops[0]), ops[1..])
  }

  /** The provider in slot i as it is after one operation: as a write that it performed, or a change
      of its own, left it. */
  function LatestStep(d: Device, i: nat, op: Op): Device {
    match op
    case Write(tag, _, after, _) => if tag in d.known && d.hasWrite then after else d
    case Change(j, now) => if j == i then now else d
    case _ => d
  }

  function Latest(d: Device, i: nat, ops: seq<Op>): Device
    decreases ops
  {
    if ops == [] then d else Latest(LatestStep(d, i, ops[0]), i, ops[1..])
  }

  /** Slot i holds the provider d. */
  ghost predicate HeldBy(slots: seq<Slot>, i: nat, d: Device) {
    i < |slots| && slots[i].dsc == Some(d)
  }

  lemma OwnerIsHolder(slots: seq<Slot>, i: nat, d: Device, tag: Tag, reading: bool)
    requires Lawful(slots) && HeldBy(slots, i, d) && tag in d.known
    ensures Owner(slots, tag, reading) == if (if reading then d.hasRead else d.hasWrite) then i else |slots|
  {
    var o := Owner(slots, tag, reading);
    assert o < |slots| ==> tag in slots[o].dsc.value.known;
    assert tag in slots[i].dsc.value.known;
  }

  /** A provider keeps its slot, whatever is registered, read, written or changed. */
  lemma HolderStep(slots: seq<Slot>, op: Op, i: nat, d: Device)
    requires Lawful(slots) && HeldBy(slots, i, d)
    ensures HeldBy(SlotsAfter(slots, op), i, LatestStep(d, i, op))
  {
    if op.Write? {
      if op.tag in d.known {
        OwnerIsHolder(slots, i, d, op.tag, false);
      } else {
        var o := Owner(slots, op.tag, false);
        assert o < |slots| ==> op.tag in slots[o].dsc.value.known;
      }
    }
  }

  lemma SameTags(slots: seq<Slot>, op: Op, i: nat, d: Device)
    requires LawfulRun(slots, [op]) && HeldBy(slots, i, d)
    ensures LatestStep(d, i, op).known == d.known
    ensures LatestStep(d, i, op).hasRead == d.hasRead && LatestStep(d, i, op).hasWrite == d.hasWrite
  {
    if op.Write? && op.tag in d.known {
      OwnerIsHolder(slots, i, d, op.tag, false);
    }
  }

  /** One operation keeps the cache sound. */
  lemma CacheStep(slots: seq<Slot>, cache: Cache, op: Op)
    requires LawfulRun(slots, [op]) && WriteImpliesRead(slots) && CacheOk(slots, cache) && CacheReadable(slots, cache)
    ensures CachedSlotsAfter(slots, cache, op) == SlotsAfter(slots, op)
    ensures CacheOk(SlotsAfter(slots, op), CacheAfter(slots, cache, op))
    ensures CacheReadable(SlotsAfter(slots, op), CacheAfter(slots, cache, op))
  {
    StepsAgree(slots, cache, op);
    RememberKeepsCache(slots, cache, op);
    SlotsKeepCache(slots, CacheAfter(slots, cache, op), op);
  }

  /** What a provider in a slot answers and accepts for the tags it knows, through the cache. */
  lemma HolderServes(slots: seq<Slot>, cache: Cache, i: nat, d: Device, tag: Tag, count: nat, data: seq<int>)
    requires Lawful(slots) && CacheOk(slots, cache) && CacheReadable(slots, cache) && HeldBy(slots, i, d)
    requires tag in d.known && d.hasRead
    ensures CachedRead(slots, cache, tag, count) == d.answer(tag, count)
    ensures d.hasWrite ==> CachedWrite(slots, cache, tag, data) == d.accept(tag, data)
  {
    OwnerIsHolder(slots, i, d, tag, true);
    OwnerIsHolder(slots, i, d, tag, false);
    ReadTransparentIff(slots, cache, tag, count);
    WriteTransparentIff(slots, cache, tag, data);
    if tag in cache {
      assert tag in slots[cache[tag]].dsc.value.known;
    }
  }

  lemma {:induction false} HolderServesLater(slots: seq<Slot>, cache: Cache, i: nat, d: Device, ops: seq<Op>,
                                             tag: Tag, count: nat, data: seq<int>)
    requires LawfulRun(slots, ops) && AllWriteImpliesRead(slots, ops) && HeldBy(slots, i, d)
    requires CacheOk(slots, cache) && CacheReadable(slots, cache) && tag in d.known && d.hasRead
    ensures var slots', cache', d' := SlotsRun(slots, ops), CacheRun(slots, cache, ops), Latest(d, i, ops);
            && CachedRead(slots', cache', tag, count) == d'.answer(tag, count)
            && (d.hasWrite ==> CachedWrite(slots', cache', tag, data) == d'.accept(tag, data))
    decreases ops
  {
    if ops == [] {
      HolderServes(slots, cache, i, d, tag, count, data);
    } else {
      var op := ops[0];
      assert LawfulRun(slots, [op]);
      CacheStep(slots, cache, op);
      HolderStep(slots, op, i, d);
      SameTags(slots, op, i, d);
      HolderServesLater(SlotsAfter(slots, op), CacheAfter(slots, cache, op), i, LatestStep(d, i, op), ops[1..],
                        tag, count, data);
    }
  }

  /** A provider that was registered, in a new slot or late in a placeholder's, answers every read of
      a tag it knows after any further history of registrations, reads, writes and changes, cached or
      not, with what it answers by then; and it performs every write it can. */
  lemma RegisteredServes(slots: seq<Slot>, cache: Cache, d: Device, name: string, ops: seq<Op>,
                         tag: Tag, count: nat, data: seq<int>)
    requires RegisterCode(slots, name) == 0 && Lawful(slots) && CacheOk(slots, cache) && CacheReadable(slots, cache)
    requires LawfulRun(SlotsAfter(slots, Register(Some(d), name)), ops)
    requires AllWriteImpliesRead(SlotsAfter(slots, Register(Some(d), name)), ops) && tag in d.known && d.hasRead
    ensures var start := SlotsAfter(slots, Register(Some(d), name));
            var slots', cache' := SlotsRun(start, ops), CacheRun(start, cache, ops);
            exists i | 0 <= i < |start| ::
              && start[i] == Slot(name, Some(d))
              && CachedRead(slots', cache', tag, count) == Latest(d, i, ops).answer(tag, count)
              && (d.hasWrite ==> CachedWrite(slots', cache', tag, data) == Latest(d, i, ops).accept(tag, data))
  {
    var start, i := SlotsAfter(slots, Register(Some(d), name)), FirstMatch(slots, name);
    assert start[i] == Slot(name, Some(d));
    assert LawfulRun(start, []);
    assert LawfulRun(slots, [Register(Some(d), name)]);
    SlotsKeepCache(slots, cache, Register(Some(d), name));
    HolderServesLater(start, cache, i, d, ops, tag, count, data);
  }

  /** A tag that no provider knows is not found, or may yet be while a placeholder remains. */
  lemma UnknownTag(slots: seq<Slot>, cache: Cache, tag: Tag, count: nat)
    requires Lawful(slots) && CacheOk(slots, cache)
    requires forall i | 0 <= i < |slots| && slots[i].dsc.Some? :: tag !in slots[i].dsc.value.known
    ensures CachedRead(slots, cache, tag, count) ==
            Reply(if exists i | 0 <= i < |slots| :: slots[i].dsc.None? then EPROBE_DEFER else ENOENT, [])
  {
    assert Owner(slots, tag, true) == |slots| && tag !in cache;
  }

  /** A read caches exactly the slot of the provider that answered it, on success and with room, and
      leaves every other tag and a cached one alone. */
  lemma ReadCaches(slots: seq<Slot>, cache: Cache, i: nat, d: Device, tag: Tag, count: nat, room: bool)
    requires Lawful(slots) && CacheOk(slots, cache) && HeldBy(slots, i, d) && tag in d.known && d.hasRead
    ensures CacheAfter(slots, cache, Read(tag, count, room)) ==
            if tag !in cache && d.answer(tag, count).code >= 0 && room then cache[tag := i] else cache
  {
    OwnerIsHolder(slots, i, d, tag, true);
    if tag in cache {
      CachedSlotIsOwner(slots, cache, tag, true);
    }
  }
}
