/** The channel multiplexer of aoc_channel_dev.c: one demultiplexer routes messages to open
    files, any number of readers per file take them out, and BLOCK and UNBLOCK commands hold
    the sender back. What a mutex makes atomic is one step; everything else interleaves. */
module ChannelDemux {
  import opened Machine

  type Msg = seq<int>

  /** A flow-control command, with the pending count at which it was sent. */
  datatype Command = Block(at: int) | Unblock(at: int)

  /** What happened to a message that was routed to a channel; a dropped one with the pending
      count that it met. */
  datatype Arrival = Kept(msg: Msg) | Dropped(msg: Msg, at: int)

  datatype Channel = Channel(
    index: nat,
    queue: seq<Msg>,             // pending_aoc_messages
    count: int,                  // pending_msg_count
    blocked: bool,               // is_channel_blocked
    uncounted: nat,              // readers that have taken a message but not lowered the count
    routed: seq<Msg>,            // history: every message that arrived for this channel, in order
    taken: seq<Msg>,             // history: every message handed to a reader, in order
    log: seq<Arrival>,           // history: what became of them, in order
    commands: seq<Command>,      // history: every command that was sent
    blockedAtOpen: bool,         // the flag's value at open, which the driver does not set
    failed: bool)                // history: some command could not be sent

  datatype Demux =
    | Listening
    | Routing(index: nat, msg: Msg)   // holds the list of open files, has passed the drop check

  datatype State = State(
    max: nat,                    // aocc_max_pending_msgs
    threshold: nat,              // aocc_block_channel_threshold
    files: seq<Channel>,         // s_open_files
    demux: Demux,
    counter: nat,                // channel_index_counter
    checked: nat,                // openers that passed the limit check, index not yet taken
    unlisted: set<nat>)          // indices taken, file not yet listed

  datatype Event =
    | Arrive(index: nat, msg: Msg)
    | Append(sent: bool)
    | Take(index: nat)
    | Account(index: nat, sent: bool)
    | OpenCheck
    | OpenIndex
    | OpenList(index: nat, flag: bool)
    | Release(index: nat)

  const MAX_CHANNEL_INDEX: nat := 0x3FFF_FFFF

  /** Position of the first file with that channel index, |fs| if there is none. */
  function Find(fs: seq<Channel>, index: nat): (i: nat)
    ensures i <= |fs|
    ensures i < |fs| ==> fs[i].index == index
    ensures forall k | 0 <= k < i :: fs[k].index != index
  {
    if fs == [] || fs[0].index == index then 0 else 1 + Find(fs[1..], index)
  }

  /** A message arrives for a channel that has too many pending. */
  function Rejected(c: Channel, msg: Msg): Channel {
    c.(routed := c.routed + [msg], log := c.log + [Dropped(msg, c.count)])
  }

  /** A message arrives and is to be queued. */
  function Held(c: Channel, msg: Msg): Channel {
    c.(routed := c.routed + [msg])
  }

  /** One critical section of the demultiplexer: queue the message, maybe block the sender. */
  function Queued(c: Channel, msg: Msg, threshold: nat, sent: bool): Channel {
    var c1 := c.(queue := c.queue + [msg], count := c.count + 1, log := c.log + [Kept(msg)]);
    if c1.count > threshold && !c1.blocked then
      if sent then c1.(blocked := true, commands := c1.commands + [Block(c1.count)]) else c1.(failed := true)
    else c1
  }

  /** First critical section of a reader. */
  function HandedOut(c: Channel): Channel {
    if c.queue == [] then c
    else c.(queue := c.queue[1..], uncounted := c.uncounted + 1, taken := c.taken + [c.queue[0]])
  }

  /** Second critical section of a reader: lower the count, maybe unblock the sender. */
  function Accounted(c: Channel, threshold: nat, sent: bool): Channel {
    if c.uncounted == 0 then c
    else
      var c1 := c.(count := c.count - 1, uncounted := c.uncounted - 1);
      if c1.count < threshold && c1.blocked then
        if sent then c1.(blocked := false, commands := c1.commands + [Unblock(c1.count)]) else c1.(failed := true)
      else c1
  }

  function Opened(index: nat, flag: bool): Channel {
    Channel(index, [], 0, flag, 0, [], [], [], [], flag, false)
  }

  function Apply(s: State, e: Event): State {
    match e
    case Arrive(index, msg) =>
      var i := Find(s.files, index);
      if !s.demux.Listening? || i == |s.files| then s
      else if s.files[i].count > s.max then s.(files := s.files[i := Rejected(s.files[i], msg)])
      else s.(demux := Routing(index, msg), files := s.files[i := Held(s.files[i], msg)])
    case Append(sent) =>
      if s.demux.Listening? then s
      else
        var i := Find(s.files, s.demux.index);
        if i == |s.files| then s.(demux := Listening)
        else s.(demux := Listening, files := s.files[i := Queued(s.files[i], s.demux.msg, s.threshold, sent)])
    case Take(index) =>
      var i := Find(s.files, index);
      if i == |s.files| then s else s.(files := s.files[i := HandedOut(s.files[i])])
    case Account(index, sent) =>
      var i := Find(s.files, index);
      if i == |s.files| then s else s.(files := s.files[i := Accounted(s.files[i], s.threshold, sent)])
    case OpenCheck =>
      if s.counter >= MAX_CHANNEL_INDEX then s else s.(checked := s.checked + 1)
    case OpenIndex =>
      if s.checked == 0 then s
      else s.(checked := s.checked - 1, counter := s.counter + 1, unlisted := s.unlisted + {s.counter + 1})
    case OpenList(index, flag) =>
      if index !in s.unlisted || !s.demux.Listening? then s
      else s.(unlisted := s.unlisted - {index}, files := [Opened(index, flag)] + s.files)
    case Release(index) =>
      var i := Find(s.files, index);
      if i == |s.files| || !s.demux.Listening? || s.files[i].uncounted > 0 then s
      else s.(files := s.files[..i] + s.files[i + 1..])
  }

  function Run(s: State, es: seq<Event>): State
    decreases es
  {
    if es == [] then s else Run(Apply(s, es[0]), es[1..])
  }

  function Init(max: nat, threshold: nat): State {
    State(max, threshold, [], Listening, 1, 0, {})
  }

  // ------------------------------------------------------------- one channel

  function KeptOf(log: seq<Arrival>): seq<Msg> {
    if log == [] then []
    else KeptOf(log[..|log| - 1]) + (if log[|log| - 1].Kept? then [log[|log| - 1].msg] else [])
  }

  function DropCount(log: seq<Arrival>): nat {
    if log == [] then 0
    else DropCount(log[..|log| - 1]) + (if log[|log| - 1].Dropped? then 1 else 0)
  }

  function MsgsOf(log: seq<Arrival>): seq<Msg> {
    if log == [] then [] else MsgsOf(log[..|log| - 1]) + [log[|log| - 1].msg]
  }

  lemma LogSnoc(log: seq<Arrival>, a: Arrival)
    ensures MsgsOf(log + [a]) == MsgsOf(log) + [a.msg]
    ensures KeptOf(log + [a]) == KeptOf(log) + if a.Kept? then [a.msg] else []
    ensures DropCount(log + [a]) == DropCount(log) + if a.Dropped? then 1 else 0
  {
    assert (log + [a])[..|log|] == log;
  }

  /** BLOCK and UNBLOCK strictly alternate; the first one is BLOCK unless the flag was already
      set at open. */
  ghost predicate Alternates(commands: seq<Command>, blockedAtOpen: bool) {
    forall k | 0 <= k < |commands| :: commands[k].Block? <==> (k % 2 == 0) != blockedAtOpen
  }

  /** A bounded FIFO: what was handed out and what is queued are the kept arrivals, in order. */
  ghost predicate QueueOk(c: Channel, max: nat) {
    && c.count == |c.queue| + c.uncounted
    && c.count <= max + 1
    && c.taken + c.queue == KeptOf(c.log)
    && |c.log| == |c.taken| + |c.queue| + DropCount(c.log)
    && (forall a | a in c.log && a.Dropped? :: a.at > max)
  }

  /** Flow control: commands alternate, each on its side of the threshold; while none failed the
      flag and the count agree. */
  ghost predicate FlowOk(c: Channel, threshold: nat) {
    && Alternates(c.commands, c.blockedAtOpen)
    && (forall k | k in c.commands :: if k.Block? then k.at > threshold else k.at < threshold)
    && c.blocked == ((|c.commands| % 2 == 1) != c.blockedAtOpen)
    && (!c.failed && !c.blocked ==> c.count <= threshold)
    && (!c.failed && c.blocked && (c.commands != [] || !c.blockedAtOpen) ==> threshold <= c.count)
  }

  ghost predicate ChannelOk(c: Channel, max: nat, threshold: nat) {
    QueueOk(c, max) && FlowOk(c, threshold)
  }

  /** The message the demultiplexer holds for a channel. */
  function InHand(d: Demux, index: nat): seq<Msg> {
    if d.Routing? && d.index == index then [d.msg] else []
  }

  /** Whatever arrived for a channel was kept or dropped, in order, or is in hand. */
  ghost predicate NothingAstray(c: Channel, d: Demux) {
    c.routed == MsgsOf(c.log) + InHand(d, c.index)
  }

  lemma OpenedOk(index: nat, flag: bool, max: nat, threshold: nat)
    ensures ChannelOk(Opened(index, flag), max, threshold)
  {
  }

  lemma QueuedInOrder(c: Channel, msg: Msg, max: nat, threshold: nat, sent: bool)
    requires QueueOk(c, max) && c.count <= max
    ensures QueueOk(Queued(c, msg, threshold, sent), max)
  {
    LogSnoc(c.log, Kept(msg));
    ConcatAssoc(c.taken, c.queue, [msg]);
  }

  lemma QueuedFlow(c: Channel, msg: Msg, threshold: nat, sent: bool)
    requires FlowOk(c, threshold)
    ensures FlowOk(Queued(c, msg, threshold, sent), threshold)
  {
  }

  lemma QueuedOk(c: Channel, msg: Msg, max: nat, threshold: nat, sent: bool)
    requires ChannelOk(c, max, threshold) && c.count <= max
    ensures ChannelOk(Queued(c, msg, threshold, sent), max, threshold)
  {
    QueuedInOrder(c, msg, max, threshold, sent);
    QueuedFlow(c, msg, threshold, sent);
  }

  lemma DroppedOk(c: Channel, msg: Msg, max: nat, threshold: nat)
    requires ChannelOk(c, max, threshold) && c.count > max
    ensures ChannelOk(Rejected(c, msg), max, threshold)
  {
    LogSnoc(c.log, Dropped(msg, c.count));
  }

  /** A message that arrives is rejected, or in hand and then queued, and never astray. */
  lemma ArrivalAccounted(c: Channel, msg: Msg, threshold: nat, sent: bool)
    ensures NothingAstray(c, Listening) ==> NothingAstray(Rejected(c, msg), Listening)
    ensures NothingAstray(c, Listening) ==> NothingAstray(Held(c, msg), Routing(c.index, msg))
    ensures NothingAstray(c, Routing(c.index, msg)) ==> NothingAstray(Queued(c, msg, threshold, sent), Listening)
  {
    LogSnoc(c.log, Dropped(msg, c.count));
    LogSnoc(c.log, Kept(msg));
  }

  lemma HandedOutOk(c: Channel, max: nat, threshold: nat)
    requires ChannelOk(c, max, threshold)
    ensures ChannelOk(HandedOut(c), max, threshold)
  {
    if c.queue != [] {
      assert (c.taken + [c.queue[0]]) + c.queue[1..] == c.taken + c.queue;
    }
  }

  lemma AccountedOk(c: Channel, max: nat, threshold: nat, sent: bool)
    requires ChannelOk(c, max, threshold)
    ensures ChannelOk(Accounted(c, threshold, sent), max, threshold)
  {
  }

  // ------------------------------------------------------------- all channels

  ghost predicate Indices(s: State) {
    && (forall i | 0 <= i < |s.files| :: s.files[i].index <= s.counter && s.files[i].index !in s.unlisted)
    && (forall i, j | 0 <= i < j < |s.files| :: s.files[i].index != s.files[j].index)
    && (forall x | x in s.unlisted :: x <= s.counter)
  }

  ghost predicate Inv(s: State) {
    && Indices(s)
    && (forall i | 0 <= i < |s.files| :: ChannelOk(s.files[i], s.max, s.threshold))
    && (forall i | 0 <= i < |s.files| :: NothingAstray(s.files[i], s.demux))
    && (s.demux.Routing? ==>
          Find(s.files, s.demux.index) < |s.files| && s.files[Find(s.files, s.demux.index)].count <= s.max)
  }

  /** With distinct indices, the first file found is the only one. */
  lemma FindUnique(s: State, i: nat)
    requires Indices(s) && i < |s.files|
    ensures Find(s.files, s.files[i].index) == i
  {
  }

  /** Replacing a channel by one with the same index does not disturb the search. */
  lemma FindStable(fs: seq<Channel>, i: nat, c: Channel, index: nat)
    requires i < |fs| && c.index == fs[i].index
    ensures Find(fs[i := c], index) == Find(fs, index)
  {
    assert forall k | 0 <= k < |fs| :: fs[i := c][k].index == fs[k].index;
  }

  /** One channel changes, and with it at most what the demultiplexer holds for it. */
  lemma ReplaceKeepsInv(s: State, i: nat, c: Channel, d: Demux)
    requires Inv(s) && i < |s.files| && c.index == s.files[i].index && ChannelOk(c, s.max, s.threshold)
    requires NothingAstray(c, d) && (d.Routing? && d.index == c.index ==> c.count <= s.max)
    requires d == s.demux || ((d.Routing? ==> d.index == c.index) && (s.demux.Routing? ==> s.demux.index == c.index))
    ensures Inv(s.(files := s.files[i := c], demux := d))
  {
    var s' := s.(files := s.files[i := c], demux := d);
    forall j | 0 <= j < |s'.files|
      ensures NothingAstray(s'.files[j], d)
    {
      assert NothingAstray(s.files[j], s.demux);
    }
    if d.Routing? {
      FindStable(s.files, i, c, d.index);
      FindUnique(s, i);
    }
  }

  lemma ArriveKeepsInv(s: State, index: nat, msg: Msg)
    requires Inv(s)
    ensures Inv(Apply(s, Arrive(index, msg)))
  {
    var i := Find(s.files, index);
    if s.demux.Listening? && i < |s.files| {
      var c := s.files[i];
      ArrivalAccounted(c, msg, s.threshold, true);
      if c.count > s.max {
        DroppedOk(c, msg, s.max, s.threshold);
        ReplaceKeepsInv(s, i, Rejected(c, msg), Listening);
      } else {
        HeldOk(c, msg, s.max, s.threshold);
        ReplaceKeepsInv(s, i, Held(c, msg), Routing(index, msg));
      }
    }
  }

  lemma HeldOk(c: Channel, msg: Msg, max: nat, threshold: nat)
    requires ChannelOk(c, max, threshold)
    ensures ChannelOk(Held(c, msg), max, threshold)
  {
  }

  lemma AppendKeepsInv(s: State, sent: bool)
    requires Inv(s)
    ensures Inv(Apply(s, Append(sent)))
  {
    if s.demux.Routing? {
      var i := Find(s.files, s.demux.index);
      ArrivalAccounted(s.files[i], s.demux.msg, s.threshold, sent);
      QueuedOk(s.files[i], s.demux.msg, s.max, s.threshold, sent);
      ReplaceKeepsInv(s, i, Queued(s.files[i], s.demux.msg, s.threshold, sent), Listening);
    }
  }

  lemma ReaderKeepsInv(s: State, e: Event)
    requires Inv(s) && (e.Take? || e.Account?)
    ensures Inv(Apply(s, e))
  {
    var i := Find(s.files, e.index);
    if i < |s.files| {
      assert NothingAstray(s.files[i], s.demux);
      if e.Take? {
        HandedOutOk(s.files[i], s.max, s.threshold);
        ReplaceKeepsInv(s, i, HandedOut(s.files[i]), s.demux);
      } else {
        AccountedOk(s.files[i], s.max, s.threshold, e.sent);
        ReplaceKeepsInv(s, i, Accounted(s.files[i], s.threshold, e.sent), s.demux);
      }
    }
  }

  lemma ListKeepsInv(s: State, index: nat, flag: bool)
    requires Inv(s) && index in s.unlisted && s.demux.Listening?
    ensures Inv(Apply(s, OpenList(index, flag)))
  {
    var s', c := Apply(s, OpenList(index, flag)), Opened(index, flag);
    OpenedOk(index, flag, s.max, s.threshold);
    assert s'.files[0] == c && forall j | 0 < j < |s'.files| :: s'.files[j] == s.files[j - 1];
    assert NothingAstray(c, Listening);
  }

  lemma OpenKeepsInv(s: State, e: Event)
    requires Inv(s) && (e.OpenCheck? || e.OpenIndex? || e.OpenList?)
    ensures Inv(Apply(s, e))
  {
    if e.OpenList? && e.index in s.unlisted && s.demux.Listening? {
      ListKeepsInv(s, e.index, e.flag);
    }
  }

  lemma RemoveKeepsIndices(s: State, i: nat)
    requires Indices(s) && i < |s.files|
    ensures Indices(s.(files := s.files[..i] + s.files[i + 1..]))
  {
    var fs := s.files[..i] + s.files[i + 1..];
    assert forall j | 0 <= j < |fs| :: fs[j] == s.files[if j < i then j else j + 1];
  }

  lemma ReleaseKeepsInv(s: State, index: nat)
    requires Inv(s)
    ensures Inv(Apply(s, Release(index)))
  {
    var s', i := Apply(s, Release(index)), Find(s.files, index);
    if s' != s {
      RemoveKeepsIndices(s, i);
      forall j | 0 <= j < |s'.files|
        ensures ChannelOk(s'.files[j], s.max, s.threshold) && NothingAstray(s'.files[j], s.demux)
      {
        assert s'.files[j] == s.files[if j < i then j else j + 1];
      }
    }
  }

  lemma StepKeepsInv(s: State, e: Event)
    requires Inv(s)
    ensures Inv(Apply(s, e)) && Apply(s, e).max == s.max && Apply(s, e).threshold == s.threshold
  {
    if e.Arrive? {
      ArriveKeepsInv(s, e.index, e.msg);
    } else if e.Append? {
      AppendKeepsInv(s, e.sent);
    } else if e.Take? || e.Account? {
      ReaderKeepsInv(s, e);
    } else if e.Release? {
      ReleaseKeepsInv(s, e.index);
    } else {
      OpenKeepsInv(s, e);
    }
  }

  lemma {:induction false} RunKeepsInv(s: State, es: seq<Event>)
    requires Inv(s)
    ensures Inv(Run(s, es)) && Run(s, es).max == s.max && Run(s, es).threshold == s.threshold
    decreases es
  {
    if es != [] {
      StepKeepsInv(s, es[0]);
      RunKeepsInv(Apply(s, es[0]), es[1..]);
    }
  }

  /** In every interleaving every open channel is a bounded FIFO with alternating flow-control
      commands, and no two open channels share an index. */
  lemma EveryRunIsOk(max: nat, threshold: nat, es: seq<Event>)
    ensures var s := Run(Init(max, threshold), es);
            && (forall i | 0 <= i < |s.files| :: ChannelOk(s.files[i], max, threshold))
            && (forall i | 0 <= i < |s.files| :: NothingAstray(s.files[i], s.demux))
            && (forall i, j | 0 <= i < j < |s.files| :: s.files[i].index != s.files[j].index)
  {
    RunKeepsInv(Init(max, threshold), es);
  }

  /** A reader reads n messages, one after the other. */
  function ReadMany(c: Channel, threshold: nat, n: nat): Channel
    decreases n
  {
    if n == 0 then c else ReadMany(Accounted(HandedOut(c), threshold, true), threshold, n - 1)
  }

  /** Nothing queued is ever stuck: as many reads as messages are queued hand out every kept
      arrival, and, with nobody else reading, leave the channel empty and unblocked. */
  lemma {:induction false} ReadingDrains(c: Channel, max: nat, threshold: nat)
    requires ChannelOk(c, max, threshold) && c.uncounted == 0
    ensures var r := ReadMany(c, threshold, |c.queue|);
            && r.queue == [] && r.taken == KeptOf(c.log) && r.count == 0
            && (threshold >= 1 && c.queue != [] ==> !r.blocked)
            && (threshold >= 1 && !c.failed && (c.commands != [] || !c.blockedAtOpen) ==> !r.blocked)
    decreases |c.queue|
  {
    if c.queue == [] {
      assert c.taken + [] == c.taken;
    } else {
      HandedOutOk(c, max, threshold);
      AccountedOk(HandedOut(c), max, threshold, true);
      ReadingDrains(Accounted(HandedOut(c), threshold, true), max, threshold);
    }
  }

  /** BLOCKs less UNBLOCKs among the commands. */
  function Balance(commands: seq<Command>): int {
    if commands == [] then 0
    else Balance(commands[..|commands| - 1]) + if commands[|commands| - 1].Block? then 1 else -1
  }

  lemma {:induction false} BalanceOfAlternating(commands: seq<Command>, blockedAtOpen: bool)
    requires Alternates(commands, blockedAtOpen)
    ensures Balance(commands) == if |commands| % 2 == 0 then 0 else if blockedAtOpen then -1 else 1
  {
    if commands != [] {
      BalanceOfAlternating(commands[..|commands| - 1], blockedAtOpen);
    }
  }

  /** What the sender has seen, in every run and of every open channel: it has been blocked once
      more than unblocked exactly when the flag is set now and was clear at open. In particular
      its first command is BLOCK if and only if the flag was clear at open, which the driver does
      not see to. */
  lemma CommandsSeen(max: nat, threshold: nat, es: seq<Event>, i: nat)
    requires i < |Run(Init(max, threshold), es).files|
    ensures var c := Run(Init(max, threshold), es).files[i];
            && Balance(c.commands) == (if c.blocked then 1 else 0) - (if c.blockedAtOpen then 1 else 0)
            && (c.commands != [] ==> (c.commands[0].Block? <==> !c.blockedAtOpen))
  {
    var c := Run(Init(max, threshold), es).files[i];
    EveryRunIsOk(max, threshold, es);
    assert ChannelOk(c, max, threshold);
    BalanceOfAlternating(c.commands, c.blockedAtOpen);
  }

  // ------------------------------------------------------------- which channel gets what

  predicate Has(fs: seq<Channel>, index: nat) {
    exists i | 0 <= i < |fs| :: fs[i].index == index
  }

  /** The open file with that channel index. */
  function File(fs: seq<Channel>, index: nat): (c: Channel)
    requires Has(fs, index)
    ensures c in fs && c.index == index
  {
    fs[Find(fs, index)]
  }

  lemma FileAt(s: State, j: nat)
    requires Indices(s) && j < |s.files|
    ensures Has(s.files, s.files[j].index) && File(s.files, s.files[j].index) == s.files[j]
  {
    FindUnique(s, j);
  }

  /** The event is about the channel with that index. */
  predicate Concerns(s: State, e: Event, index: nat) {
    match e
    case Arrive(i, _) => i == index
    case Append(_) => s.demux.Routing? && s.demux.index == index
    case Take(i) => i == index
    case Account(i, _) => i == index
    case OpenList(i, _) => i == index
    case Release(i) => i == index
    case _ => false
  }

  /** Replacing one file by one with the same index leaves every other file what it was. */
  lemma ReplaceOther(s: State, s': State, i: nat, c: Channel, index: nat)
    requires Indices(s) && Indices(s') && i < |s.files| && c.index == s.files[i].index
    requires s'.files == s.files[i := c]
    ensures Has(s'.files, index) <==> Has(s.files, index)
    ensures Has(s.files, index) ==> File(s'.files, index) == if c.index == index then c else File(s.files, index)
  {
    if Has(s.files, index) {
      var j := Find(s.files, index);
      assert s'.files[j].index == index;
      FileAt(s', j);
      FileAt(s, i);
    }
    if Has(s'.files, index) {
      var j := Find(s'.files, index);
      assert s.files[j].index == index;
    }
  }

  lemma ListOther(s: State, s': State, c: Channel, index: nat)
    requires Indices(s') && s'.files == [c] + s.files && c.index != index
    ensures Has(s'.files, index) <==> Has(s.files, index)
    ensures Has(s.files, index) ==> File(s'.files, index) == File(s.files, index)
  {
    if Has(s.files, index) {
      var j := Find(s.files, index);
      assert s'.files[j + 1] == s.files[j];
      FileAt(s', j + 1);
    }
    if Has(s'.files, index) {
      var j := Find(s'.files, index);
      assert s'.files[j] == s.files[j - 1];
    }
  }

  lemma RemoveOther(s: State, s': State, i: nat, index: nat)
    requires Indices(s) && Indices(s') && i < |s.files| && s'.files == s.files[..i] + s.files[i + 1..]
    ensures Has(s'.files, index) <==> Has(s.files, index) && index != s.files[i].index
    ensures Has(s'.files, index) ==> File(s'.files, index) == File(s.files, index)
  {
    if Has(s'.files, index) {
      var j := Find(s'.files, index);
      var k := if j < i then j else j + 1;
      assert s'.files[j] == s.files[k];
      FileAt(s, k);
    }
    if Has(s.files, index) && index != s.files[i].index {
      var j := Find(s.files, index);
      assert s'.files[if j < i then j else j - 1] == s.files[j];
    }
  }

  /** An event about one channel neither opens, closes nor changes any other. */
  lemma OnlyItsOwn(s: State, e: Event, index: nat)
    requires Inv(s) && !Concerns(s, e, index)
    ensures var s' := Apply(s, e);
            && (Has(s'.files, index) <==> Has(s.files, index))
            && (Has(s.files, index) ==> File(s'.files, index) == File(s.files, index))
  {
    StepKeepsInv(s, e);
    if e.OpenList? || e.Release? {
      OpenOrReleaseOther(s, e, index);
    } else if !e.OpenCheck? && !e.OpenIndex? {
      ChangeOther(s, e, index);
    }
  }

  lemma OpenOrReleaseOther(s: State, e: Event, index: nat)
    requires Indices(s) && Indices(Apply(s, e)) && (e.OpenList? || e.Release?) && e.index != index
    ensures var s' := Apply(s, e);
            && (Has(s'.files, index) <==> Has(s.files, index))
            && (Has(s.files, index) ==> File(s'.files, index) == File(s.files, index))
  {
    var s' := Apply(s, e);
    if s'.files != s.files {
      if e.OpenList? {
        ListOther(s, s', Opened(e.index, e.flag), index);
      } else {
        RemoveOther(s, s', Find(s.files, e.index), index);
      }
    }
  }

  lemma ChangeOther(s: State, e: Event, index: nat)
    requires Indices(s) && Indices(Apply(s, e)) && (e.Arrive? || e.Append? || e.Take? || e.Account?)
    requires !Concerns(s, e, index)
    ensures var s' := Apply(s, e);
            && (Has(s'.files, index) <==> Has(s.files, index))
            && (Has(s.files, index) ==> File(s'.files, index) == File(s.files, index))
  {
    var s' := Apply(s, e);
    if s'.files != s.files {
      var i := Find(s.files, if e.Append? then s.demux.index else e.index);
      ReplaceOther(s, s', i, s'.files[i], index);
    }
  }

  /** An arrival that is looked at is routed to its channel; above the maximum it is dropped. */
  lemma ArriveOwn(s: State, index: nat, msg: Msg)
    requires Indices(s) && Indices(Apply(s, Arrive(index, msg))) && Has(s.files, index)
    ensures var s', c := Apply(s, Arrive(index, msg)), File(s.files, index);
            && Has(s'.files, index)
            && var c' := File(s'.files, index);
               if s.demux.Listening? then
                 && c'.routed == c.routed + [msg] && c'.taken == c.taken && c'.queue == c.queue && c'.count == c.count
                 && c'.log == c.log + (if c.count > s.max then [Dropped(msg, c.count)] else [])
                 && s'.demux == if c.count > s.max then Listening else Routing(index, msg)
               else c' == c && s' == s
  {
    var s', i := Apply(s, Arrive(index, msg)), Find(s.files, index);
    ReplaceOther(s, s', i, s'.files[i], index);
  }

  /** The message in hand is queued last, and the demultiplexer listens again. */
  lemma AppendOwn(s: State, sent: bool)
    requires Indices(s) && Indices(Apply(s, Append(sent))) && s.demux.Routing? && Has(s.files, s.demux.index)
    ensures var s', index := Apply(s, Append(sent)), s.demux.index;
            && s'.demux.Listening? && Has(s'.files, index)
            && var c, c' := File(s.files, index), File(s'.files, index);
               c'.queue == c.queue + [s.demux.msg] && c'.log == c.log + [Kept(s.demux.msg)] &&
               c'.routed == c.routed && c'.taken == c.taken
  {
    var s', i := Apply(s, Append(sent)), Find(s.files, s.demux.index);
    ReplaceOther(s, s', i, s'.files[i], s.demux.index);
  }

  /** A read takes the oldest message, if there is one, and later lowers the count. */
  lemma ReaderOwn(s: State, e: Event)
    requires Indices(s) && Indices(Apply(s, e)) && (e.Take? || e.Account?) && Has(s.files, e.index)
    ensures var s', c := Apply(s, e), File(s.files, e.index);
            && Has(s'.files, e.index)
            && var c' := File(s'.files, e.index);
               && c'.routed == c.routed && c'.log == c.log
               && (if e.Take? && c.queue != [] then c'.taken == c.taken + [c.queue[0]] && c'.queue == c.queue[1..]
                   else c'.taken == c.taken && c'.queue == c.queue)
               && c'.count == c.count - (if e.Account? && c.uncounted > 0 then 1 else 0)
  {
    var s', i := Apply(s, e), Find(s.files, e.index);
    ReplaceOther(s, s', i, s'.files[i], e.index);
  }

  /** Releasing: the file goes, unless somebody is using it, and no other does. */
  lemma ReleaseClosesIff(s: State, index: nat)
    requires Indices(s) && Indices(Apply(s, Release(index))) && Has(s.files, index)
    ensures var s' := Apply(s, Release(index));
            && (Has(s'.files, index) <==> !s.demux.Listening? || File(s.files, index).uncounted > 0)
            && (Has(s'.files, index) ==> s' == s)
  {
    var s' := Apply(s, Release(index));
    if s' != s {
      RemoveOther(s, s', Find(s.files, index), index);
    }
  }

  /** What its own events do to a channel, as far as its two histories go. */
  lemma ItsOwn(s: State, e: Event, index: nat)
    requires Inv(s) && Has(s.files, index) && Concerns(s, e, index) && !e.OpenList?
    ensures var s', c := Apply(s, e), File(s.files, index);
            && (!Has(s'.files, index) ==> e.Release?)
            && (Has(s'.files, index) ==>
                  var c' := File(s'.files, index);
                  && c'.routed == c.routed + (if e.Arrive? && s.demux.Listening? then [e.msg] else [])
                  && c'.taken == c.taken + (if e.Take? && c.queue != [] then [c.queue[0]] else []))
  {
    var c := File(s.files, index);
    assert c.routed + [] == c.routed && c.taken + [] == c.taken;
    StepKeepsInv(s, e);
    if e.Arrive? {
      ArriveOwn(s, index, e.msg);
    } else if e.Append? {
      AppendOwn(s, e.sent);
    } else if e.Release? {
      ReleaseClosesIff(s, index);
    } else {
      ReaderOwn(s, e);
    }
  }

  lemma Listed(s: State, index: nat, flag: bool)
    requires Inv(s)
    ensures var s' := Apply(s, OpenList(index, flag));
            && (Has(s.files, index) ==> s' == s)
            && (Has(s'.files, index) && !Has(s.files, index) ==>
                  File(s'.files, index) == Opened(index, flag) && index in s.unlisted)
  {
    var s' := Apply(s, OpenList(index, flag));
    StepKeepsInv(s, OpenList(index, flag));
    if s' != s {
      FileAt(s', 0);
    }
  }

  /** The messages that arrived for an index so far, after one more event: those that come while the
      demultiplexer listens and a file with the index is open, since it was opened. */
  function Arrived(s: State, e: Event, index: nat, before: seq<Msg>): seq<Msg> {
    if !Has(s.files, index) then []
    else if e.Arrive? && e.index == index && s.demux.Listening? then before + [e.msg]
    else before
  }

  function ArrivedFor(s: State, es: seq<Event>, index: nat, before: seq<Msg>): seq<Msg>
    decreases es
  {
    if es == [] then before else ArrivedFor(Apply(s, es[0]), es[1..], index, Arrived(s, es[0], index, before))
  }

  /** How many reads of an index found a message, since it was opened. */
  function Taken(s: State, e: Event, index: nat, before: nat): nat {
    if !Has(s.files, index) then 0
    else if e.Take? && e.index == index && File(s.files, index).queue != [] then before + 1
    else before
  }

  function TakesOf(s: State, es: seq<Event>, index: nat, before: nat): nat
    decreases es
  {
    if es == [] then before else TakesOf(Apply(s, es[0]), es[1..], index, Taken(s, es[0], index, before))
  }

  /** The two histories of the file with an index, if there is one, are these. */
  ghost predicate Histories(s: State, index: nat, routed: seq<Msg>, taken: nat) {
    Has(s.files, index) ==> File(s.files, index).routed == routed && |File(s.files, index).taken| == taken
  }

  /** One event, seen from one channel. */
  lemma RoutedStep(s: State, e: Event, index: nat, routed: seq<Msg>, taken: nat)
    requires Inv(s) && Histories(s, index, routed, taken)
    ensures Histories(Apply(s, e), index, Arrived(s, e, index, routed), Taken(s, e, index, taken))
  {
    assert routed + [] == routed;
    if !Concerns(s, e, index) {
      OnlyItsOwn(s, e, index);
    } else if e.OpenList? {
      Listed(s, index, e.flag);
    } else if Has(s.files, index) {
      ItsOwn(s, e, index);
    }
  }

  lemma {:induction false} RunRouted(s: State, es: seq<Event>, index: nat, routed: seq<Msg>, taken: nat)
    requires Inv(s) && Histories(s, index, routed, taken)
    ensures Histories(Run(s, es), index, ArrivedFor(s, es, index, routed), TakesOf(s, es, index, taken))
    decreases es
  {
    if es != [] {
      StepKeepsInv(s, es[0]);
      RoutedStep(s, es[0], index, routed, taken);
      RunRouted(Apply(s, es[0]), es[1..], index, Arrived(s, es[0], index, routed), Taken(s, es[0], index, taken));
    }
  }

  /** In every run, of every channel that is open: the messages routed to it are exactly those that
      arrived for its own index while it was open, in order, and as many were handed out as reads of
      that index found one. With `EveryRunIsOk` these are the oldest of the ones kept. */
  lemma RoutedByIndex(max: nat, threshold: nat, es: seq<Event>, i: nat)
    requires i < |Run(Init(max, threshold), es).files|
    ensures var c := Run(Init(max, threshold), es).files[i];
            && c.routed == ArrivedFor(Init(max, threshold), es, c.index, [])
            && |c.taken| == TakesOf(Init(max, threshold), es, c.index, 0)
  {
    RunKeepsInv(Init(max, threshold), es);
    FileAt(Run(Init(max, threshold), es), i);
    RunRouted(Init(max, threshold), es, Run(Init(max, threshold), es).files[i].index, [], 0);
  }

  lemma RunTwo(s: State, a: Event, b: Event)
    ensures Run(s, [a, b]) == Apply(Apply(s, a), b)
  {
    assert [a, b][1..] == [b];
    assert Run(Apply(s, a), [b]) == Run(Apply(Apply(s, a), b), []);
  }

  /** What becomes of one message for an open file: it is queued last there, or dropped there above
      the maximum; then the demultiplexer listens again. */
  lemma MessageIsQueuedIff(s: State, index: nat, msg: Msg, sent: bool)
    requires Inv(s) && s.demux.Listening? && Has(s.files, index)
    ensures var s', c := Run(s, [Arrive(index, msg), Append(sent)]), File(s.files, index);
            && s'.demux.Listening? && Has(s'.files, index)
            && var c' := File(s'.files, index);
               if c.count <= s.max then c'.queue == c.queue + [msg] && c'.log == c.log + [Kept(msg)]
               else c'.queue == c.queue && c'.log == c.log + [Dropped(msg, c.count)]
  {
    var s1 := Apply(s, Arrive(index, msg));
    RunTwo(s, Arrive(index, msg), Append(sent));
    StepKeepsInv(s, Arrive(index, msg));
    ArriveOwn(s, index, msg);
    if s1.demux.Routing? {
      StepKeepsInv(s1, Append(sent));
      AppendOwn(s1, sent);
    } else {
      assert Apply(s1, Append(sent)) == s1;
    }
  }

  /** With no file open for it, a message changes nothing. */
  lemma MessageForNobody(s: State, index: nat, msg: Msg)
    requires !Has(s.files, index)
    ensures Apply(s, Arrive(index, msg)) == s
  {
    assert Find(s.files, index) == |s.files|;
  }

  /** Opening: below the limit a new, empty file with a fresh index is listed; at it nothing is. */
  lemma OpenSucceedsIff(s: State, flag: bool)
    requires Inv(s) && s.demux.Listening? && s.checked == 0
    ensures var s' := Run(s, [OpenCheck] + [OpenIndex, OpenList(s.counter + 1, flag)]);
            if s.counter < MAX_CHANNEL_INDEX then
              && s'.files == [Opened(s.counter + 1, flag)] + s.files && !Has(s.files, s.counter + 1)
              && s'.counter == s.counter + 1 && s'.unlisted == s.unlisted && s'.checked == 0
            else s' == s
  {
    var index := s.counter + 1;
    var s1 := Apply(s, OpenCheck);
    assert ([OpenCheck] + [OpenIndex, OpenList(index, flag)])[1..] == [OpenIndex, OpenList(index, flag)];
    RunTwo(s1, OpenIndex, OpenList(index, flag));
    assert index !in s.unlisted;
    assert (s.unlisted + {index}) - {index} == s.unlisted;
  }

  // ------------------------------------------------------------- the index allocator

  /** At most `openers` threads are inside open at any time of the run. */
  ghost predicate OpenersWithin(s: State, es: seq<Event>, openers: nat)
    decreases es
  {
    s.checked <= openers && (es != [] ==> OpenersWithin(Apply(s, es[0]), es[1..], openers))
  }

  lemma {:induction false} CounterBound(s: State, es: seq<Event>, openers: nat)
    requires OpenersWithin(s, es, openers) && s.counter + s.checked < MAX_CHANNEL_INDEX + openers
    ensures Run(s, es).counter < MAX_CHANNEL_INDEX + openers
    decreases es
  {
    if es != [] {
      CounterBound(Apply(s, es[0]), es[1..], openers);
    }
  }

  /** The limit is checked before, and apart from, taking an index; because it is half of the
      31-bit range, indices fit as long as at most 2^30 threads open at once. */
  lemma IndicesFit31Bits(max: nat, threshold: nat, es: seq<Event>)
    requires OpenersWithin(Init(max, threshold), es, MAX_CHANNEL_INDEX + 1)
    ensures var s := Run(Init(max, threshold), es);
            forall i | 0 <= i < |s.files| :: s.files[i].index < TWO31
  {
    RunKeepsInv(Init(max, threshold), es);
    CounterBound(Init(max, threshold), es, MAX_CHANNEL_INDEX + 1);
  }
}
