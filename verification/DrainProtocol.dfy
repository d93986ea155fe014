/** How the AoC driver takes its services offline while any number of clients use them.
    Clients raise a shared counter, look at the firmware state, possibly sleep, look again,
    and lower the counter. The watchdog changes the state and waits for the counter to reach
    zero before it frees the service array. Each shared access is one atomic step. */
module DrainProtocol {

  datatype Firmware = Offline | FirmwareLoaded | Starting | Online | Ssr

  /** Where a client stands inside a read, a write or a mailbox callback. */
  datatype Pc =
    | Idle
    | Entered          // counter raised, state not yet looked at
    | Refused          // state was not online, about to lower the counter
    | Using            // state was online
    | Waiting          // about to evaluate the wait condition
    | Asleep           // condition was false, on the wait queue
    | Interrupted      // signal or timeout ended the wait, about to look at the state again
    | Rechecking       // wait is over, about to look at the state again
    | Transferring     // second look passed, moving a message
    | Done             // about to lower the counter

  datatype Watchdog =
    | WIdle
    | WLooked          // holds the lock, about to look for a crash already in progress
    | WCrashing        // holds the lock, about to publish the crash
    | WDumping         // lock released
    | WTaking          // holds the lock, about to look at the state
    | WMarking         // holds the lock, about to publish offline
    | WDraining        // holds the lock, waiting for the counter
    | WDrained         // holds the lock, the wait is over
    | WRestarting      // holds the lock

  datatype OnlineWork =
    | OIdle
    | OLocked          // holds the lock
    | OReady           // holds the lock, services allocated, about to publish online
    | OPublished       // holds the lock

  datatype Holder = Free | ByWatchdog | ByOnlineWork

  datatype State = State(
    firmware: Firmware,
    active: int,                 // aoc_process_active
    clients: seq<Pc>,
    watchdog: Watchdog,
    online: OnlineWork,
    scheduled: bool,             // online work queued
    starters: nat,               // callbacks that saw the firmware loaded and have not acted yet
    lock: Holder,                // aoc_service_lock
    services: bool)              // the service array is allocated

  datatype Act =
    | Enter
    | Check
    | Block                      // nothing to transfer yet
    | Proceed                    // something to transfer
    | GiveUp                     // an error return, or the end of a callback
    | Evaluate(ready: bool)      // ready: message available or device dead
    | Wake
    | Interrupt                  // signal or timeout
    | Recheck(abort: bool)       // abort: device dead, or the message is too large
    | Transfer
    | Leave

  datatype Event =
    | Client(c: nat, act: Act)
    | WatchdogStep
    | OnlineStep(ok: bool)       // ok: validation and allocation succeeded
    | CallbackSees
    | CallbackStarts
    | FirmwareCallback(loaded: bool)

  /** What a client's own step does to it, given the firmware state; a step out of turn is none. */
  function Advance(pc: Pc, act: Act, firmware: Firmware): Pc {
    match (pc, act)
    case (Idle, Enter) => Entered
    case (Entered, Check) => if firmware != Online then Refused else Using
    case (Using, Block) => Waiting
    case (Using, Proceed) => Rechecking
    case (Using, GiveUp) => Done
    case (Waiting, Evaluate(ready)) => if firmware != Online || ready then Rechecking else Asleep
    case (Asleep, Wake) => Waiting
    case (Asleep, Interrupt) => Interrupted
    case (Interrupted, Recheck(_)) => Done
    case (Rechecking, Recheck(abort)) => if abort || firmware != Online then Done else Transferring
    case (Transferring, Transfer) => Done
    case (Refused, Leave) => Idle
    case (Done, Leave) => Idle
    case (_, _) => pc
  }

  function WakeAll(cs: seq<Pc>): (r: seq<Pc>)
    ensures |r| == |cs|
    ensures forall i | 0 <= i < |cs| :: r[i] == if cs[i] == Asleep then Waiting else cs[i]
  {
    seq(|cs|, i requires 0 <= i < |cs| => if cs[i] == Asleep then Waiting else cs[i])
  }

  function ClientMove(s: State, c: nat, act: Act): State {
    if c < |s.clients| then
      var was, now := s.clients[c], Advance(s.clients[c], act, s.firmware);
      s.(clients := s.clients[c := now], active := s.active + Busy(now) - Busy(was))
    else s
  }

  function WatchdogMove(s: State): State {
    match s.watchdog
    case WIdle => if s.lock.Free? then s.(lock := ByWatchdog, watchdog := WLooked) else s
    case WLooked =>
      if s.firmware.Ssr? then s.(lock := Free, watchdog := WIdle) else s.(watchdog := WCrashing)
    case WCrashing => s.(firmware := Ssr, lock := Free, watchdog := WDumping)
    case WDumping =>
      // the start-up work is cancelled, or waited for, before the lock is taken again
      if s.online.OIdle? && s.lock.Free? then s.(scheduled := false, lock := ByWatchdog, watchdog := WTaking) else s
    case WTaking =>
      s.(watchdog := if s.firmware.Online? || s.firmware.Ssr? then WMarking else WRestarting)
    case WMarking => s.(firmware := Offline, watchdog := WDraining)
    case WDraining =>
      if s.active != 0 then s.(clients := WakeAll(s.clients)) else s.(watchdog := WDrained)
    case WDrained => s.(services := false, watchdog := WRestarting)
    case WRestarting => s.(lock := Free, watchdog := WIdle)
  }

  function OnlineMove(s: State, ok: bool): State {
    match s.online
    case OIdle =>
      if s.scheduled && s.lock.Free? then s.(scheduled := false, lock := ByOnlineWork, online := OLocked) else s
    case OLocked =>
      if ok then s.(services := true, online := OReady) else s.(lock := Free, online := OIdle)
    case OReady => s.(firmware := Online, online := OPublished)
    case OPublished => s.(lock := Free, online := OIdle)
  }

  function Apply(s: State, e: Event): State {
    match e
    case Client(c, act) => ClientMove(s, c, act)
    case WatchdogStep => WatchdogMove(s)
    case OnlineStep(ok) => OnlineMove(s, ok)
    case CallbackSees => if s.firmware.FirmwareLoaded? then s.(starters := s.starters + 1) else s
    case CallbackStarts =>
      if s.starters > 0 then s.(starters := s.starters - 1, firmware := Starting, scheduled := true) else s
    case FirmwareCallback(loaded) => s.(firmware := if loaded then FirmwareLoaded else Offline)
  }

  function Run(s: State, es: seq<Event>): State
    decreases es
  {
    if es == [] then s else Run(Apply(s, es[0]), es[1..])
  }

  function Init(n: nat): State {
    State(Offline, 0, seq(n, _ => Idle), WIdle, OIdle, false, 0, Free, false)
  }

  // ------------------------------------------------------------- counting clients

  function Weigh(cs: seq<Pc>, w: Pc -> nat): nat {
    if cs == [] then 0 else w(cs[0]) + Weigh(cs[1..], w)
  }

  function Busy(pc: Pc): nat {
    if pc == Idle then 0 else 1
  }

  lemma {:induction false} WeighUpdate(cs: seq<Pc>, i: nat, pc: Pc, w: Pc -> nat)
    requires i < |cs|
    ensures Weigh(cs[i := pc], w) == Weigh(cs, w) - w(cs[i]) + w(pc)
  {
    if i == 0 {
      assert cs[0 := pc][1..] == cs[1..];
    } else {
      WeighUpdate(cs[1..], i - 1, pc, w);
      assert cs[i := pc][1..] == cs[1..][i - 1 := pc];
    }
  }

  lemma {:induction false} WeighPointwise(cs: seq<Pc>, ds: seq<Pc>, w: Pc -> nat)
    requires |cs| == |ds| && forall i | 0 <= i < |cs| :: w(ds[i]) <= w(cs[i])
    ensures Weigh(ds, w) <= Weigh(cs, w)
    ensures (exists i | 0 <= i < |cs| :: w(ds[i]) < w(cs[i])) ==> Weigh(ds, w) < Weigh(cs, w)
    ensures (forall i | 0 <= i < |cs| :: w(ds[i]) == w(cs[i])) ==> Weigh(ds, w) == Weigh(cs, w)
  {
    if cs != [] {
      WeighPointwise(cs[1..], ds[1..], w);
      if i :| 0 <= i < |cs| && w(ds[i]) < w(cs[i]) && i > 0 {
        assert w(ds[1..][i - 1]) < w(cs[1..][i - 1]);
      }
    }
  }

  lemma {:induction false} WeighZero(cs: seq<Pc>, w: Pc -> nat)
    ensures Weigh(cs, w) == 0 <==> forall i | 0 <= i < |cs| :: w(cs[i]) == 0
  {
    if cs != [] {
      WeighZero(cs[1..], w);
      if Weigh(cs, w) == 0 {
        forall i | 0 <= i < |cs|
          ensures w(cs[i]) == 0
        {
          if i > 0 { assert cs[i] == cs[1..][i - 1]; }
        }
      }
    }
  }

  // ------------------------------------------------------------- safety

  /** Between a passed state check and the decrement: the client may touch the services. */
  predicate Inside(pc: Pc) {
    pc in {Using, Waiting, Asleep, Interrupted, Rechecking, Transferring, Done}
  }

  ghost predicate NoneInside(s: State) {
    forall i | 0 <= i < |s.clients| :: !Inside(s.clients[i])
  }

  predicate WatchdogHolds(w: Watchdog) {
    !(w.WIdle? || w.WDumping?)
  }

  ghost predicate Inv(s: State) {
    && s.active == Weigh(s.clients, Busy)
    && (s.lock == ByWatchdog <==> WatchdogHolds(s.watchdog))
    && (s.lock == ByOnlineWork <==> !s.online.OIdle?)
    && (s.watchdog.WDraining? || s.watchdog.WDrained? ==> s.firmware != Online)
    && (s.watchdog.WDrained? ==> NoneInside(s))
    && (s.firmware == Online || s.online.OReady? ==> s.services)
    && (!s.services ==> NoneInside(s))
  }

  lemma InitInv(n: nat)
    ensures Inv(Init(n))
  {
    WeighZero(Init(n).clients, Busy);
  }

  /** The only way in is to have seen the online state. */
  lemma OnlyOnlineAdmits(s: State, c: nat, act: Act)
    requires NoneInside(s) && s.firmware != Online
    ensures NoneInside(ClientMove(s, c, act))
  {
  }

  lemma ClientKeepsInv(s: State, c: nat, act: Act)
    requires Inv(s)
    ensures Inv(ClientMove(s, c, act))
  {
    if c < |s.clients| {
      WeighUpdate(s.clients, c, Advance(s.clients[c], act, s.firmware), Busy);
      if NoneInside(s) && s.firmware != Online {
        OnlyOnlineAdmits(s, c, act);
      }
    }
  }

  lemma DrainLoopKeepsInv(s: State)
    requires Inv(s) && s.watchdog.WDraining?
    ensures Inv(WatchdogMove(s))
  {
    WeighZero(s.clients, Busy);
    WeighPointwise(s.clients, WakeAll(s.clients), Busy);
  }

  lemma WatchdogKeepsInv(s: State)
    requires Inv(s)
    ensures Inv(WatchdogMove(s))
  {
    if s.watchdog.WDraining? {
      DrainLoopKeepsInv(s);
    }
  }

  lemma StepKeepsInv(s: State, e: Event)
    requires Inv(s)
    ensures Inv(Apply(s, e))
  {
    if e.Client? {
      ClientKeepsInv(s, e.c, e.act);
    } else if e.WatchdogStep? {
      WatchdogKeepsInv(s);
    }
  }

  lemma {:induction false} RunKeepsInv(s: State, es: seq<Event>)
    requires Inv(s)
    ensures Inv(Run(s, es))
    decreases es
  {
    if es != [] {
      StepKeepsInv(s, es[0]);
      RunKeepsInv(Apply(s, es[0]), es[1..]);
    }
  }

  /** For any number of clients and any interleaving: the counter counts exactly the clients
      between enter and leave, and a client that may touch the services finds them allocated. */
  lemma EveryRunIsSafe(n: nat, es: seq<Event>)
    ensures var s := Run(Init(n), es);
            && s.active == Weigh(s.clients, Busy)
            && forall i | 0 <= i < |s.clients| && Inside(s.clients[i]) :: s.services
  {
    InitInv(n);
    RunKeepsInv(Init(n), es);
  }

  /** The event that publishes the online state. */
  predicate Publishes(s: State, e: Event) {
    e.OnlineStep? && s.online.OReady?
  }

  ghost predicate NeverPublishes(s: State, es: seq<Event>)
    decreases es
  {
    es != [] ==> !Publishes(s, es[0]) && NeverPublishes(Apply(s, es[0]), es[1..])
  }

  lemma QuietStep(s: State, e: Event)
    requires Inv(s) && NoneInside(s) && s.firmware != Online && !Publishes(s, e)
    ensures NoneInside(Apply(s, e)) && Apply(s, e).firmware != Online
  {
    if e.Client? {
      OnlyOnlineAdmits(s, e.c, e.act);
    }
  }

  /** Once the drain loop has ended, no client is inside again before online is next published,
      whatever else runs: late callbacks, new clients, firmware loading, the watchdog itself. */
  lemma {:induction false} DrainedUntilOnline(s: State, es: seq<Event>)
    requires Inv(s) && NoneInside(s) && s.firmware != Online && NeverPublishes(s, es)
    ensures NoneInside(Run(s, es)) && Run(s, es).firmware != Online
    decreases es
  {
    if es != [] {
      StepKeepsInv(s, es[0]);
      QuietStep(s, es[0]);
      DrainedUntilOnline(Apply(s, es[0]), es[1..]);
    }
  }

  lemma DrainThenQuiet(n: nat, before: seq<Event>, after: seq<Event>)
    requires Run(Init(n), before).watchdog.WDraining? && Run(Init(n), before + [WatchdogStep]).watchdog.WDrained?
    requires NeverPublishes(Run(Init(n), before + [WatchdogStep]), after)
    ensures NoneInside(Run(Init(n), before + [WatchdogStep] + after))
  {
    InitInv(n);
    var s := Run(Init(n), before + [WatchdogStep]);
    RunKeepsInv(Init(n), before + [WatchdogStep]);
    RunConcat(Init(n), before + [WatchdogStep], after);
    DrainedUntilOnline(s, after);
  }

  lemma {:induction false} RunConcat(s: State, a: seq<Event>, b: seq<Event>)
    ensures Run(s, a + b) == Run(Run(s, a), b)
    decreases a
  {
    if a == [] {
      assert a + b == b;
    } else {
      assert (a + b)[1..] == a[1..] + b;
      RunConcat(Apply(s, a[0]), a[1..], b);
    }
  }

  // ------------------------------------------------------------- when the drain is skipped

  /** The watchdog looks at the state, finds neither online nor the crash it published, and so
      goes on to restart without draining, while a client is inside. */
  ghost predicate SkipsDrain(s: State, e: Event) {
    e.WatchdogStep? && s.watchdog.WTaking? && !s.firmware.Online? && !s.firmware.Ssr? && !NoneInside(s)
  }

  ghost predicate EverSkipsDrain(s: State, es: seq<Event>)
    decreases es
  {
    es != [] && (SkipsDrain(s, es[0]) || EverSkipsDrain(Apply(s, es[0]), es[1..]))
  }

  /** At some moment of the run the processor is being restarted with a client inside. */
  ghost predicate EverRestartsUnderClient(s: State, es: seq<Event>)
    decreases es
  {
    || (s.watchdog.WRestarting? && !NoneInside(s))
    || (es != [] && EverRestartsUnderClient(Apply(s, es[0]), es[1..]))
  }

  ghost predicate RestartQuiet(s: State) {
    s.watchdog.WRestarting? ==> NoneInside(s) && s.firmware != Online
  }

  /** One step leads to a restart under a client if and only if it skips the drain. */
  lemma SkipStepIff(s: State, e: Event)
    requires Inv(s) && RestartQuiet(s)
    ensures RestartQuiet(Apply(s, e)) <==> !SkipsDrain(s, e)
    ensures SkipsDrain(s, e) ==> Apply(s, e).watchdog.WRestarting? && !NoneInside(Apply(s, e))
  {
    if e.Client? && s.watchdog.WRestarting? {
      OnlyOnlineAdmits(s, e.c, e.act);
    }
  }

  lemma {:induction false} SkipRunIff(s: State, es: seq<Event>)
    requires Inv(s) && RestartQuiet(s)
    ensures EverRestartsUnderClient(s, es) <==> EverSkipsDrain(s, es)
    decreases es
  {
    if es != [] {
      var s' := Apply(s, es[0]);
      StepKeepsInv(s, es[0]);
      SkipStepIff(s, es[0]);
      if SkipsDrain(s, es[0]) {
        assert EverRestartsUnderClient(s', es[1..]);
      } else {
        SkipRunIff(s', es[1..]);
      }
    }
  }

  /** Over every run, with any number of clients: the processor is restarted under a client if
      and only if the watchdog at some moment skipped the drain because, between publishing the
      crash and looking again, the state had been overwritten by one it does not drain. */
  lemma RestartUnderClientIff(n: nat, es: seq<Event>)
    ensures EverRestartsUnderClient(Init(n), es) <==> EverSkipsDrain(Init(n), es)
  {
    InitInv(n);
    SkipRunIff(Init(n), es);
  }

  /** A callback or the firmware loader overwrites the state while the watchdog, having
      published the crash, has not looked at it again. */
  predicate LateWrite(s: State, e: Event) {
    (e.CallbackStarts? || e.FirmwareCallback?) && (s.watchdog.WDumping? || s.watchdog.WTaking?)
  }

  ghost predicate NoLateWrite(s: State, es: seq<Event>)
    decreases es
  {
    es != [] ==> !LateWrite(s, es[0]) && NoLateWrite(Apply(s, es[0]), es[1..])
  }

  ghost predicate CrashKept(s: State) {
    s.watchdog.WDumping? || s.watchdog.WTaking? ==> s.firmware == Ssr || s.firmware == Online
  }

  lemma CrashKeptStep(s: State, e: Event)
    requires Inv(s) && CrashKept(s) && !LateWrite(s, e)
    ensures CrashKept(Apply(s, e)) && !SkipsDrain(s, e)
  {
  }

  lemma {:induction false} NoLateWriteNoSkip(s: State, es: seq<Event>)
    requires Inv(s) && CrashKept(s) && NoLateWrite(s, es)
    ensures !EverSkipsDrain(s, es)
    decreases es
  {
    if es != [] {
      StepKeepsInv(s, es[0]);
      CrashKeptStep(s, es[0]);
      NoLateWriteNoSkip(Apply(s, es[0]), es[1..]);
    }
  }

  /** In particular the processor is only restarted with no client inside, in every run in which
      nobody overwrites the published crash. */
  lemma RestartIsQuiet(n: nat, es: seq<Event>)
    requires NoLateWrite(Init(n), es)
    ensures !EverRestartsUnderClient(Init(n), es)
  {
    InitInv(n);
    NoLateWriteNoSkip(Init(n), es);
    RestartUnderClientIff(n, es);
  }

  lemma RunSnoc(s: State, es: seq<Event>, e: Event)
    ensures Run(s, es + [e]) == Apply(Run(s, es), e)
  {
    RunConcat(s, es, [e]);
    assert Run(Run(s, es), [e]) == Run(Apply(Run(s, es), e), []);
  }

  /** Firmware comes up while a second mailbox callback, which also saw it loaded, is late;
      one client gets in. */
  lemma OnlineWithLateCallback() returns (es: seq<Event>)
    ensures Run(Init(1), es) == State(Online, 1, [Using], WIdle, OIdle, false, 1, Free, true)
  {
    var events := [FirmwareCallback(true), CallbackSees, CallbackSees, CallbackStarts, OnlineStep(true),
                   OnlineStep(true), OnlineStep(true), OnlineStep(true), Client(0, Enter), Client(0, Check)];
    var states := [
      State(Offline, 0, [Idle], WIdle, OIdle, false, 0, Free, false),
      State(FirmwareLoaded, 0, [Idle], WIdle, OIdle, false, 0, Free, false),
      State(FirmwareLoaded, 0, [Idle], WIdle, OIdle, false, 1, Free, false),
      State(FirmwareLoaded, 0, [Idle], WIdle, OIdle, false, 2, Free, false),
      State(Starting, 0, [Idle], WIdle, OIdle, true, 1, Free, false),
      State(Starting, 0, [Idle], WIdle, OLocked, false, 1, ByOnlineWork, false),
      State(Starting, 0, [Idle], WIdle, OReady, false, 1, ByOnlineWork, true),
      State(Online, 0, [Idle], WIdle, OPublished, false, 1, ByOnlineWork, true),
      State(Online, 0, [Idle], WIdle, OIdle, false, 1, Free, true),
      State(Online, 1, [Entered], WIdle, OIdle, false, 1, Free, true),
      State(Online, 1, [Using], WIdle, OIdle, false, 1, Free, true)];
    es := [];
    for i := 0 to 10
      invariant Run(Init(1), es) == states[i]
    {
      RunSnoc(Init(1), es, events[i]);
      es := es + [events[i]];
    }
  }

  /** With one late write the processor can be restarted under a client: the second callback
      acts after the crash was published, so the watchdog finds a state it does not drain. */
  lemma LateWriteSkipsDrain() returns (es: seq<Event>)
    ensures var s := Run(Init(1), es);
            s.watchdog.WRestarting? && |s.clients| == 1 && Inside(s.clients[0])
  {
    es := OnlineWithLateCallback();
    var events := [WatchdogStep, WatchdogStep, WatchdogStep, CallbackStarts, WatchdogStep, WatchdogStep];
    var states := [
      State(Online, 1, [Using], WIdle, OIdle, false, 1, Free, true),
      State(Online, 1, [Using], WLooked, OIdle, false, 1, ByWatchdog, true),
      State(Online, 1, [Using], WCrashing, OIdle, false, 1, ByWatchdog, true),
      State(Ssr, 1, [Using], WDumping, OIdle, false, 1, Free, true),
      State(Starting, 1, [Using], WDumping, OIdle, true, 0, Free, true),
      State(Starting, 1, [Using], WTaking, OIdle, false, 0, ByWatchdog, true),
      State(Starting, 1, [Using], WRestarting, OIdle, false, 0, ByWatchdog, true)];
    for i := 0 to 6
      invariant Run(Init(1), es) == states[i]
    {
      RunSnoc(Init(1), es, events[i]);
      es := es + [events[i]];
    }
  }

  // ------------------------------------------------------------- the drain cannot be held up

  /** Steps a client still needs to leave, once the state is not online. */
  function Left(pc: Pc): nat {
    match pc
    case Idle => 0
    case Refused => 1
    case Done => 1
    case Transferring => 2
    case Rechecking => 2
    case Interrupted => 2
    case Waiting => 3
    case Asleep => 4
    case Using => 4
    case Entered => 2
  }

  /** While the state is not online, whatever a client that is already in does next brings it
      closer to leaving; in particular its wait condition cannot be false. */
  lemma EveryClientStepDescends(s: State, c: nat, act: Act)
    requires s.firmware != Online && !act.Enter? && ClientMove(s, c, act) != s
    ensures Weigh(ClientMove(s, c, act).clients, Left) < Weigh(s.clients, Left)
  {
    WeighUpdate(s.clients, c, Advance(s.clients[c], act, s.firmware), Left);
  }

  /** The drain loop is running, now and after every event of the run. */
  ghost predicate StaysDraining(s: State, es: seq<Event>)
    decreases es
  {
    s.watchdog.WDraining? && (es != [] ==> StaysDraining(Apply(s, es[0]), es[1..]))
  }

  /** The event lets a new client in. */
  predicate Enters(s: State, e: Event) {
    e.Client? && e.act.Enter? && Apply(s, e).clients != s.clients
  }

  /** Any other event that moves some client, the loop's own wake-ups included. */
  predicate Moves(s: State, e: Event) {
    !(e.Client? && e.act.Enter?) && Apply(s, e).clients != s.clients
  }

  function EntryCount(s: State, es: seq<Event>): nat
    decreases es
  {
    if es == [] then 0 else (if Enters(s, es[0]) then 1 else 0) + EntryCount(Apply(s, es[0]), es[1..])
  }

  function MoveCount(s: State, es: seq<Event>): nat
    decreases es
  {
    if es == [] then 0 else (if Moves(s, es[0]) then 1 else 0) + MoveCount(Apply(s, es[0]), es[1..])
  }

  lemma WakeUpDescends(cs: seq<Pc>)
    ensures Weigh(WakeAll(cs), Left) <= Weigh(cs, Left)
    ensures WakeAll(cs) != cs ==> Weigh(WakeAll(cs), Left) < Weigh(cs, Left)
  {
    var ds := WakeAll(cs);
    WeighPointwise(cs, ds, Left);
    if ds != cs {
      var i :| 0 <= i < |cs| && ds[i] != cs[i];
      assert Left(ds[i]) < Left(cs[i]);
    }
  }

  lemma ClientStepBound(pc: Pc, act: Act, firmware: Firmware)
    requires firmware != Online && Advance(pc, act, firmware) != pc
    ensures if act.Enter? then Left(Advance(pc, act, firmware)) == Left(pc) + 2
            else Left(Advance(pc, act, firmware)) < Left(pc)
  {
  }

  /** One event while draining: an entry adds two steps, any other move uses up at least one. */
  lemma DrainStepBound(s: State, e: Event)
    requires Inv(s) && s.watchdog.WDraining?
    ensures var before, after := Weigh(s.clients, Left), Weigh(Apply(s, e).clients, Left);
            && (Enters(s, e) ==> after == before + 2)
            && (Moves(s, e) ==> after < before)
            && (!Enters(s, e) && !Moves(s, e) ==> after == before)
  {
    if e.WatchdogStep? {
      WakeUpDescends(s.clients);
    } else if e.Client? && e.c < |s.clients| {
      var was, now := s.clients[e.c], Advance(s.clients[e.c], e.act, s.firmware);
      WeighUpdate(s.clients, e.c, now, Left);
      if now != was {
        ClientStepBound(was, e.act, s.firmware);
      } else {
        assert s.clients[e.c := now] == s.clients;
      }
    }
  }

  /** In every run during which the drain loop does not end, the clients move at most as often as
      they had steps left, plus twice for each client that comes in meanwhile: nothing a client
      does, waiting for messages included, can keep the loop going by itself. */
  lemma {:induction false} DrainBound(s: State, es: seq<Event>)
    requires Inv(s) && StaysDraining(s, es)
    ensures Weigh(Run(s, es).clients, Left) + MoveCount(s, es) <= Weigh(s.clients, Left) + 2 * EntryCount(s, es)
    decreases es
  {
    if es != [] {
      StepKeepsInv(s, es[0]);
      DrainStepBound(s, es[0]);
      DrainBound(Apply(s, es[0]), es[1..]);
    }
  }

  /** So once the clients have moved that often, whatever the schedule was, the counter is zero
      and the loop's next look ends it. */
  lemma DrainForced(s: State, es: seq<Event>)
    requires Inv(s) && StaysDraining(s, es) && MoveCount(s, es) >= Weigh(s.clients, Left) + 2 * EntryCount(s, es)
    ensures Run(s, es).active == 0
    ensures Run(s, es + [WatchdogStep]).watchdog.WDrained? && NoneInside(Run(s, es + [WatchdogStep]))
  {
    var s' := Run(s, es);
    DrainBound(s, es);
    RunKeepsInv(s, es);
    StillDraining(s, es);
    WeighZero(s'.clients, Left);
    WeighZero(s'.clients, Busy);
    RunSnoc(s, es, WatchdogStep);
    StepKeepsInv(s', WatchdogStep);
  }

  lemma {:induction false} StillDraining(s: State, es: seq<Event>)
    requires StaysDraining(s, es)
    ensures Run(s, es).watchdog.WDraining?
    decreases es
  {
    if es != [] {
      StillDraining(Apply(s, es[0]), es[1..]);
    }
  }

  /** The step that client c, which is in and awake, takes next. */
  function NextAct(pc: Pc): Act {
    match pc
    case Entered => Check
    case Using => GiveUp
    case Waiting => Evaluate(false)
    case Interrupted => Recheck(false)
    case Rechecking => Recheck(false)
    case Transferring => Transfer
    case _ => Leave
  }

  lemma ActiveMeansSomeoneBusy(cs: seq<Pc>) returns (c: nat)
    requires Weigh(cs, Busy) > 0
    ensures c < |cs| && cs[c] != Idle
  {
    WeighZero(cs, Busy);
    c :| c < |cs| && Busy(cs[c]) != 0;
  }

  /** One step of the drain: while the counter is not zero, some client that is in, or the
      drain loop's own wake-up, can move, and moving uses up one of the steps left. */
  lemma DrainAdvances(s: State) returns (e: Event)
    requires Inv(s) && s.watchdog.WDraining? && s.active > 0
    ensures e.WatchdogStep? || (e.Client? && !e.act.Enter?)
    ensures Apply(s, e).watchdog.WDraining? && Inv(Apply(s, e))
    ensures Weigh(Apply(s, e).clients, Left) < Weigh(s.clients, Left)
  {
    var c := ActiveMeansSomeoneBusy(s.clients);
    var pc := s.clients[c];
    if pc.Asleep? {
      e := WatchdogStep;
      assert Left(WakeAll(s.clients)[c]) < Left(pc);
      WeighPointwise(s.clients, WakeAll(s.clients), Left);
    } else {
      e := Client(c, NextAct(pc));
      assert Apply(s, e).clients[c] != pc;
      EveryClientStepDescends(s, c, NextAct(pc));
    }
    StepKeepsInv(s, e);
  }

  /** The bound is met: from every reachable state of the drain loop some run of no more events
      than steps are left, and without new clients, ends it. */
  lemma {:induction false} DrainCompletes(s: State) returns (es: seq<Event>)
    requires Inv(s) && s.watchdog.WDraining?
    ensures |es| <= Weigh(s.clients, Left) + 1
    ensures forall e | e in es :: e.WatchdogStep? || (e.Client? && !e.act.Enter?)
    ensures Run(s, es).watchdog.WDrained? && NoneInside(Run(s, es))
    decreases Weigh(s.clients, Left)
  {
    if s.active == 0 {
      es := [WatchdogStep];
      StepKeepsInv(s, WatchdogStep);
      assert Run(s, es) == Run(Apply(s, WatchdogStep), []);
    } else {
      WeighZero(s.clients, Busy);
      var e := DrainAdvances(s);
      var rest := DrainCompletes(Apply(s, e));
      es := [e] + rest;
      assert es[1..] == rest;
    }
  }

  // ------------------------------------------------------------- what a client gets done

  /** What a client saw and did since it last came in. */
  datatype Visit = Visit(
    firstOnline: bool,           // its first look found the state online
    gaveUp: bool,
    waited: bool,
    waitOver: bool,              // its wait condition was last found true
    secondOnline: bool,          // its second look found the state online
    aborted: bool,
    transfers: nat)

  const NoVisit: Visit := Visit(false, false, false, false, false, false, 0)

  /** The record after one more act of the client, at which the state was `firmware`. */
  function Note(v: Visit, act: Act, firmware: Firmware): Visit {
    match act
    case Enter => NoVisit
    case Check => v.(firstOnline := firmware.Online?)
    case GiveUp => v.(gaveUp := true)
    case Block => v.(waited := true)
    case Evaluate(ready) => v.(waitOver := ready || !firmware.Online?)
    case Recheck(abort) => v.(secondOnline := firmware.Online?, aborted := abort)
    case Transfer => v.(transfers := v.transfers + 1)
    case _ => v
  }

  /** The record of client c after a run, from the events by which it moved itself. */
  function VisitOf(s: State, es: seq<Event>, c: nat, v: Visit): Visit
    decreases es
  {
    if es == [] then v
    else
      var s' := Apply(s, es[0]);
      var moved := es[0].Client? && es[0].c == c && s'.clients != s.clients;
      VisitOf(s', es[1..], c, if moved then Note(v, es[0].act, s.firmware) else v)
  }

  /** It found the state online twice, its wait, if any, ended because there was something to
      transfer or the state had changed, and it neither gave up nor aborted. */
  predicate Earned(v: Visit) {
    v.firstOnline && !v.gaveUp && (v.waited ==> v.waitOver) && v.secondOnline && !v.aborted
  }

  /** How far the record is at each place. */
  ghost predicate Matches(pc: Pc, v: Visit) {
    match pc
    case Idle => v.transfers == if Earned(v) then 1 else 0
    case Entered => v == NoVisit
    case Refused => !v.firstOnline && v.transfers == 0
    case Using => v == NoVisit.(firstOnline := true)
    case Waiting => v.firstOnline && !v.gaveUp && v.waited && v.transfers == 0
    case Asleep => v.firstOnline && !v.gaveUp && v.waited && !v.waitOver && v.transfers == 0
    case Interrupted => v.firstOnline && !v.gaveUp && v.waited && !v.waitOver && v.transfers == 0
    case Rechecking => v.firstOnline && !v.gaveUp && (v.waited ==> v.waitOver) && v.transfers == 0
    case Transferring => Earned(v) && v.transfers == 0
    case Done => v.transfers == if Earned(v) then 1 else 0
  }

  /** A client's own act keeps its record right. */
  lemma ActMatches(pc: Pc, act: Act, firmware: Firmware, v: Visit)
    requires Matches(pc, v) && Advance(pc, act, firmware) != pc
    ensures Matches(Advance(pc, act, firmware), Note(v, act, firmware))
  {
  }

  /** Nobody but the client itself moves it, except that the drain loop wakes sleepers. */
  lemma OthersLeaveAlone(s: State, e: Event, c: nat)
    requires c < |s.clients| && !(e.Client? && e.c == c)
    ensures |Apply(s, e).clients| == |s.clients|
    ensures Apply(s, e).clients[c] == s.clients[c] || (s.clients[c].Asleep? && Apply(s, e).clients[c].Waiting?)
  {
  }

  lemma {:induction false} RunMatches(s: State, es: seq<Event>, c: nat, v: Visit)
    requires c < |s.clients| && Matches(s.clients[c], v)
    ensures c < |Run(s, es).clients| && Matches(Run(s, es).clients[c], VisitOf(s, es, c, v))
    decreases es
  {
    if es != [] {
      var s', e := Apply(s, es[0]), es[0];
      if e.Client? && e.c == c {
        if s'.clients != s.clients {
          ActMatches(s.clients[c], e.act, s.firmware, v);
          RunMatches(s', es[1..], c, Note(v, e.act, s.firmware));
        } else {
          assert s'.clients[c] == s.clients[c];
          RunMatches(s', es[1..], c, v);
        }
      } else {
        OthersLeaveAlone(s, e, c);
        RunMatches(s', es[1..], c, v);
      }
    }
  }

  /** In every run, of every client that is not inside: on its last visit it transferred exactly once
      if it earned it, and otherwise not at all. A client that is inside has transferred at most
      once, and is about to only if it earned it. */
  lemma TransfersExactlyWhenEarned(n: nat, es: seq<Event>, c: nat)
    requires c < n
    ensures var s, v := Run(Init(n), es), VisitOf(Init(n), es, c, NoVisit);
            && c < |s.clients| && v.transfers <= 1
            && (s.clients[c].Idle? ==> v.transfers == if Earned(v) then 1 else 0)
            && (s.clients[c].Transferring? ==> Earned(v) && v.transfers == 0)
  {
    RunMatches(Init(n), es, c, NoVisit);
  }

  lemma RunCons(s: State, e: Event, es: seq<Event>)
    ensures Run(s, [e] + es) == Run(Apply(s, e), es)
  {
    assert ([e] + es)[1..] == es;
  }

  /** What a client does next that has something to transfer. */
  function WillingAct(pc: Pc): Act {
    match pc
    case Idle => Enter
    case Entered => Check
    case Using => Proceed
    case Waiting => Evaluate(true)
    case Asleep => Wake
    case _ => Recheck(false)
  }

  function WillingRank(pc: Pc): nat {
    match pc
    case Idle => 5
    case Entered => 4
    case Using => 3
    case Asleep => 3
    case Waiting => 2
    case Rechecking => 1
    case _ => 0
  }

  /** While the state is online, a client that is outside, looking or waiting, and has something to
      transfer, gets to it by its own acts within five steps, and nothing else changes. */
  lemma {:induction false} OnlineClientTransfers(s: State, c: nat) returns (es: seq<Event>)
    requires c < |s.clients| && s.firmware.Online? && !s.clients[c].Done? && !s.clients[c].Refused?
    requires !s.clients[c].Interrupted?
    ensures |es| <= 5 && forall e | e in es :: e.Client? && e.c == c && !e.act.GiveUp?
    ensures var s' := Run(s, es);
            && s'.clients == s.clients[c := Transferring]
            && s' == s.(clients := s'.clients, active := s.active + if s.clients[c].Idle? then 1 else 0)
    ensures |es| <= WillingRank(s.clients[c])
    decreases WillingRank(s.clients[c])
  {
    es := [];
    var pc := s.clients[c];
    if pc.Transferring? {
      assert s.clients[c := Transferring] == s.clients;
    } else {
      var e := Client(c, WillingAct(pc));
      var rest := OnlineClientTransfers(Apply(s, e), c);
      RunCons(s, e, rest);
      es := [e] + rest;
    }
  }

  /** And then it leaves, with the counter as before it came. */
  lemma TransferThenLeave(s: State, c: nat)
    requires c < |s.clients| && s.clients[c].Transferring?
    ensures Run(s, [Client(c, Transfer)] + ([Client(c, Leave)] + [])) ==
            s.(clients := s.clients[c := Idle], active := s.active - 1)
  {
    var s1 := s.(clients := s.clients[c := Done]);
    assert Apply(s, Client(c, Transfer)) == s1;
    assert s1.clients[c := Idle] == s.clients[c := Idle];
    assert Apply(s1, Client(c, Leave)) == s.(clients := s.clients[c := Idle], active := s.active - 1);
    RunCons(s, Client(c, Transfer), [Client(c, Leave)] + []);
    RunCons(s1, Client(c, Leave), []);
  }

  // ------------------------------------------------------------- going up and coming down

  /** n steps of the watchdog. */
  function Watchdogs(n: nat): seq<Event> {
    if n == 0 then [] else [WatchdogStep] + Watchdogs(n - 1)
  }

  lemma NextWatchdog(s: State, n: nat)
    requires n > 0
    ensures Run(s, Watchdogs(n)) == Run(WatchdogMove(s), Watchdogs(n - 1))
  {
    RunCons(s, WatchdogStep, Watchdogs(n - 1));
  }

  /** Three steps publish the crash. */
  lemma CrashIsPublished(s: State, n: nat)
    requires s.watchdog.WIdle? && s.lock.Free? && !s.firmware.Ssr?
    ensures Run(s, Watchdogs(n + 3)) == Run(s.(firmware := Ssr, watchdog := WDumping), Watchdogs(n))
  {
    var s1 := s.(lock := ByWatchdog, watchdog := WLooked);
    NextWatchdog(s, n + 3);
    NextWatchdog(s1, n + 2);
    NextWatchdog(s1.(watchdog := WCrashing), n + 1);
  }

  /** Three more take the state offline and start to drain, if nobody overwrote it. */
  lemma CrashStartsDrain(s: State, n: nat)
    requires s.watchdog.WDumping? && s.lock.Free? && s.online.OIdle? && s.firmware.Ssr?
    ensures Run(s, Watchdogs(n + 3)) ==
            Run(s.(firmware := Offline, scheduled := false, lock := ByWatchdog, watchdog := WDraining), Watchdogs(n))
  {
    var s1 := s.(scheduled := false, lock := ByWatchdog, watchdog := WTaking);
    NextWatchdog(s, n + 3);
    NextWatchdog(s1, n + 2);
    NextWatchdog(s1.(watchdog := WMarking), n + 1);
  }

  /** And two, once drained, free the services and give back the lock. */
  lemma DrainedFrees(s: State)
    requires s.watchdog.WDrained?
    ensures Run(s, Watchdogs(2)) == s.(services := false, lock := Free, watchdog := WIdle)
  {
    NextWatchdog(s, 2);
    NextWatchdog(s.(services := false, watchdog := WRestarting), 1);
  }

  /** A crash that is already being handled is not handled twice. */
  lemma CrashOnce(s: State)
    requires s.watchdog.WIdle? && s.lock.Free? && s.firmware.Ssr?
    ensures Run(s, Watchdogs(2)) == s
  {
    NextWatchdog(s, 2);
    NextWatchdog(s.(lock := ByWatchdog, watchdog := WLooked), 1);
  }

  lemma {:induction false} OnlyWatchdogs(n: nat)
    ensures forall e | e in Watchdogs(n) :: e.WatchdogStep?
  {
    if n > 0 {
      OnlyWatchdogs(n - 1);
    }
  }

  /** The services are down: freed, with nobody inside, and a state that admits nobody. */
  ghost predicate Down(s: State) {
    !s.services && NoneInside(s) && s.watchdog.WIdle? && s.lock.Free? && !s.firmware.Online?
  }

  lemma DrainFrees(s: State) returns (es: seq<Event>)
    requires Inv(s) && s.watchdog.WDraining?
    ensures forall e | e in es :: e.WatchdogStep? || (e.Client? && !e.act.Enter?)
    ensures Down(Run(s, es))
  {
    var drain := DrainCompletes(s);
    var s1 := Run(s, drain);
    RunKeepsInv(s, drain);
    DrainedFrees(s1);
    RunConcat(s, drain, Watchdogs(2));
    es := drain + Watchdogs(2);
    OnlyWatchdogs(2);
  }

  /** From every reachable state with the lock free and no crash in progress, whatever the clients
      are doing: the watchdog can take the services down, and has then freed them with nobody
      inside, given back its lock, and left a state that admits nobody. */
  lemma CrashTakesDown(s: State) returns (es: seq<Event>)
    requires Inv(s) && s.watchdog.WIdle? && s.lock.Free? && !s.firmware.Ssr?
    ensures forall e | e in es :: e.WatchdogStep? || (e.Client? && !e.act.Enter?)
    ensures Down(Run(s, es))
  {
    CrashIsPublished(s, 3);
    CrashStartsDrain(s.(firmware := Ssr, watchdog := WDumping), 0);
    var s1 := Run(s, Watchdogs(6));
    assert s1.watchdog.WDraining?;
    RunKeepsInv(s, Watchdogs(6));
    var rest := DrainFrees(s1);
    RunConcat(s, Watchdogs(6), rest);
    es := Watchdogs(6) + rest;
    OnlyWatchdogs(6);
  }

  /** From loaded firmware a mailbox callback and the start-up work bring the services up; if
      validation fails, nothing is published. */
  lemma LoadedComesUp(s: State)
    requires s.firmware.FirmwareLoaded? && s.lock.Free? && s.online.OIdle?
    ensures var ups := [OnlineStep(true)] + ([OnlineStep(true)] + ([OnlineStep(true)] + ([OnlineStep(true)] + [])));
            Run(s, [CallbackSees] + ([CallbackStarts] + ups)) ==
            s.(firmware := Online, services := true, scheduled := false)
    ensures Run(s, [CallbackSees] + ([CallbackStarts] + ([OnlineStep(true)] + ([OnlineStep(false)] + [])))) ==
            s.(firmware := Starting, scheduled := false)
  {
    var u1 := [OnlineStep(true)] + [];
    var u2 := [OnlineStep(true)] + u1;
    var u3 := [OnlineStep(true)] + u2;
    var u4 := [OnlineStep(true)] + u3;
    var s1 := Apply(s, CallbackSees);
    var s2 := Apply(s1, CallbackStarts);
    var s3 := Apply(s2, OnlineStep(true));
    var s4 := Apply(s3, OnlineStep(true));
    var s5 := Apply(s4, OnlineStep(true));
    RunCons(s, CallbackSees, [CallbackStarts] + u4);
    RunCons(s1, CallbackStarts, u4);
    RunCons(s2, OnlineStep(true), u3);
    RunCons(s3, OnlineStep(true), u2);
    RunCons(s4, OnlineStep(true), u1);
    RunCons(s5, OnlineStep(true), []);
    var d1 := [OnlineStep(false)] + [];
    RunCons(s, CallbackSees, [CallbackStarts] + ([OnlineStep(true)] + d1));
    RunCons(s1, CallbackStarts, [OnlineStep(true)] + d1);
    RunCons(s2, OnlineStep(true), d1);
    RunCons(s3, OnlineStep(false), []);
  }

  /** Nothing is on its way up. */
  ghost predicate AtRest(s: State) {
    && s.firmware in {Offline, Ssr} && s.starters == 0 && !s.scheduled && s.online.OIdle?
  }

  lemma {:induction false} RestsUntilLoaded(s: State, es: seq<Event>)
    requires AtRest(s) && forall e | e in es :: e != FirmwareCallback(true)
    ensures AtRest(Run(s, es))
    decreases es
  {
    if es != [] {
      assert es[0] in es && forall e | e in es[1..] :: e in es;
      RestsUntilLoaded(Apply(s, es[0]), es[1..]);
    }
  }

  /** The state is online only in runs in which firmware was loaded. */
  lemma OnlineOnlyAfterLoad(n: nat, es: seq<Event>)
    requires Run(Init(n), es).firmware.Online?
    ensures FirmwareCallback(true) in es
  {
    if FirmwareCallback(true) !in es {
      RestsUntilLoaded(Init(n), es);
      assert false;
    }
  }
}
