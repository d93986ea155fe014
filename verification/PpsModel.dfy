/** The programmable power supply adapter of google_dc_pps.c: which stage it is in after any
    run of driver calls and adapter replies, and how often the adapter is contacted. */
module PpsModel {
  import opened Errno

  /** POWER_SUPPLY_PROP_ONLINE values. */
  const OFFLINE: int := 0
  const FIXED_ONLINE: int := 1
  const PROG_ONLINE: int := 2

  /** pd_pps_stage: not supported, never tried, to be tried, adapter supports it, in use. */
  datatype Stage = NotSupported | Disabled | Try | Available | Active

  /** The two fields that decide the stage. */
  datatype Core = Core(stage: Stage, online: int)

  const Fresh: Core := Core(Disabled, OFFLINE)

  /** What the power supply answers during one pps_work. */
  datatype WorkReply = WorkReply(
    psy: bool,               // a power supply was passed
    presentRet: int,
    present: int,
    limitsOk: bool,          // all five voltage and current readings are non-negative
    pingRet: int,
    online: int,             // a negative value is a read error
    typeOk: bool,
    progRet: int)

  predicate Absent(r: WorkReply) {
    r.presentRet == 0 && r.present == 0
  }

  datatype Call =
    | Work(r: WorkReply)
    | KeepAlive(pingRet: int)
    | SetProp(setRet: int)                                       // the setter inside an update
    | CheckOnline(seen: int, limits: bool, ping: int, caps: int) // pps_prog_check_online
    | ProgOffline
    | SetStage(to: Stage)                                        // the charger's own resets

  /** The charger enables, disables or gives up detection; it never declares success. (A debugfs
      file that stores any stage by hand is not one of the calls.) */
  predicate Legal(call: Call) {
    call.SetStage? ==> call.to in {NotSupported, Disabled, Try}
  }

  /** Adapter still has to be switched, or switched again, to programmable mode. */
  function Switch(r: WorkReply): Core {
    if r.typeOk && r.online == FIXED_ONLINE then
      if r.progRet == 0 then Core(Try, PROG_ONLINE)
      else Core(if r.progRet == EOPNOTSUPP then NotSupported else Try, FIXED_ONLINE)
    else Core(Try, r.online)
  }

  function WorkCore(c: Core, r: WorkReply): Core {
    if !r.psy || Absent(r) then c.(stage := NotSupported)
    else if c.stage == NotSupported then c
    else if c == Core(Try, PROG_ONLINE) then
      if !r.limitsOk then c
      else Core(Available, if r.pingRet < 0 then FIXED_ONLINE else PROG_ONLINE)
    else if r.online < 0 then c
    else if (c.stage == Available || c.stage == Active) && c.online == PROG_ONLINE == r.online then
      c.(stage := Active)
    else Switch(r)
  }

  function After(c: Core, call: Call): Core {
    match call
    case Work(r) => WorkCore(c, r)
    case KeepAlive(rc) =>
      if rc < 0 then c.(online := FIXED_ONLINE) else if rc == 0 then c.(online := PROG_ONLINE) else c
    case SetProp(ret) => if ret == EOPNOTSUPP then c.(online := FIXED_ONLINE) else c
    case CheckOnline(seen, limits, ping, caps) =>
      if seen == OFFLINE then Fresh
      else if seen != PROG_ONLINE then Core(NotSupported, OFFLINE)
      else if c.stage == Active then c
      else if limits && ping >= 0 && caps >= 0 then Core(Active, PROG_ONLINE)
      else Core(NotSupported, OFFLINE)
    case ProgOffline => Fresh
    case SetStage(to) => c.(stage := to)
  }

  /** The call contains a ping that the adapter did not refuse. */
  predicate Pings(c: Core, call: Call) {
    match call
    case Work(r) =>
      r.psy && !Absent(r) && c == Core(Try, PROG_ONLINE) && r.limitsOk && r.pingRet >= 0
    case KeepAlive(rc) => rc >= 0
    case CheckOnline(seen, limits, ping, _) => seen == PROG_ONLINE && c.stage != Active && limits && ping >= 0
    case _ => false
  }

  function Run(c: Core, calls: seq<Call>): Core
    decreases calls
  {
    if calls == [] then c else Run(After(c, calls[0]), calls[1..])
  }

  /** Whether, after the calls, some ping went through since the stage last was Try; `before`
      tells it for the start. */
  function PingedSinceTry(c: Core, before: bool, calls: seq<Call>): bool
    decreases calls
  {
    if calls == [] then before
    else
      var c' := After(c, calls[0]);
      PingedSinceTry(c', c'.stage != Try && (before || Pings(c, calls[0])), calls[1..])
  }

  ghost predicate Backed(c: Core, pinged: bool) {
    c.stage == Active || (c.stage == Available && c.online == PROG_ONLINE) ==> pinged
  }

  lemma StepStaysBacked(c: Core, pinged: bool, call: Call)
    requires Backed(c, pinged) && Legal(call)
    ensures var c' := After(c, call); Backed(c', c'.stage != Try && (pinged || Pings(c, call)))
  {
  }

  lemma {:induction false} RunStaysBacked(c: Core, pinged: bool, calls: seq<Call>)
    requires Backed(c, pinged) && forall call | call in calls :: Legal(call)
    ensures Backed(Run(c, calls), PingedSinceTry(c, pinged, calls))
    decreases calls
  {
    if calls != [] {
      var c' := After(c, calls[0]);
      StepStaysBacked(c, pinged, calls[0]);
      RunStaysBacked(c', c'.stage != Try && (pinged || Pings(c, calls[0])), calls[1..]);
    }
  }

  /** Over every run and all adapter replies: the stage is Active only if a ping went through
      since it last was Try. */
  lemma ActiveOnlyAfterPing(calls: seq<Call>)
    requires forall call | call in calls :: Legal(call)
    ensures Run(Fresh, calls).stage == Active ==> PingedSinceTry(Fresh, false, calls)
  {
    RunStaysBacked(Fresh, false, calls);
  }

  /** NotSupported is final for detection, keep-alive and updates, whatever the adapter says. */
  lemma {:induction false} NotSupportedAbsorbs(c: Core, calls: seq<Call>)
    requires c.stage == NotSupported
    requires forall call | call in calls :: call.Work? || call.KeepAlive? || call.SetProp?
    ensures Run(c, calls).stage == NotSupported
    decreases calls
  {
    if calls != [] {
      assert calls[0] in calls;
      NotSupportedAbsorbs(After(c, calls[0]), calls[1..]);
    }
  }

  /** A refused keep-alive is noticed by the next pps_work: an adapter in use stays Active if
      and only if that call found it present but could not read whether it is online. */
  lemma FailedKeepAliveDemotesIff(c: Core, pingRet: int, r: WorkReply)
    requires c.stage == Active && pingRet < 0
    ensures Run(c, [KeepAlive(pingRet), Work(r)]).stage == Active <==> r.psy && !Absent(r) && r.online < 0
  {
    var c1 := After(c, KeepAlive(pingRet));
    assert Run(c, [KeepAlive(pingRet), Work(r)]) == Run(c1, [Work(r)]) == Run(After(c1, Work(r)), []);
  }

  /** Exactly which calls leave the stage Active: a work or an online check that confirms an adapter
      in programmable mode, a work that cannot read, and calls that do not touch the stage. */
  lemma ActiveAfterIff(c: Core, call: Call)
    ensures After(c, call).stage == Active <==>
            match call
            case Work(r) =>
              && r.psy && !(r.presentRet == 0 && r.present == 0)
              && ((r.online < 0 && c.stage == Active) ||
                  (c.stage in {Available, Active} && c.online == PROG_ONLINE && r.online == PROG_ONLINE))
            case CheckOnline(seen, limits, ping, caps) =>
              seen == PROG_ONLINE && (c.stage == Active || (limits && ping >= 0 && caps >= 0))
            case SetStage(to) => to == Active
            case ProgOffline => false
            case _ => c.stage == Active
  {
  }

  /** And exactly which leave it NotSupported. */
  lemma NotSupportedAfterIff(c: Core, call: Call)
    ensures After(c, call).stage == NotSupported <==>
            match call
            case Work(r) =>
              || !r.psy || (r.presentRet == 0 && r.present == 0) || c.stage == NotSupported
              || (c != Core(Try, PROG_ONLINE) && r.online == FIXED_ONLINE && r.typeOk && r.progRet == EOPNOTSUPP)
            case CheckOnline(seen, limits, ping, caps) =>
              seen != OFFLINE && (seen == PROG_ONLINE ==> c.stage != Active && !(limits && ping >= 0 && caps >= 0))
            case SetStage(to) => to == NotSupported
            case ProgOffline => false
            case _ => c.stage == NotSupported
  {
  }

  /** Exactly which leave it Available: the turn after the switch that finds all readings, and calls
      that change nothing about it. */
  lemma AvailableAfterIff(c: Core, call: Call)
    ensures After(c, call).stage == Available <==>
            match call
            case Work(r) =>
              && r.psy && !(r.presentRet == 0 && r.present == 0)
              && ((c == Core(Try, PROG_ONLINE) && r.limitsOk) || (c.stage == Available && r.online < 0))
            case SetStage(to) => to == Available
            case CheckOnline(_, _, _, _) => false
            case ProgOffline => false
            case _ => c.stage == Available
  {
  }

  /** And Disabled: only a reset, or nothing learnt since. */
  lemma DisabledAfterIff(c: Core, call: Call)
    ensures After(c, call).stage == Disabled <==>
            match call
            case Work(r) => r.psy && !(r.presentRet == 0 && r.present == 0) && c.stage == Disabled && r.online < 0
            case SetStage(to) => to == Disabled
            case CheckOnline(seen, _, _, _) => seen == OFFLINE
            case ProgOffline => true
            case _ => c.stage == Disabled
  {
  }

  /** A keep-alive that goes through vouches for programmable mode: the next pps_work that sees the
      adapter in it leaves it in use. */
  lemma KeepAliveConfirmsIff(c: Core, pingRet: int, r: WorkReply)
    requires c.stage == Active && pingRet >= 0
    ensures Run(c, [KeepAlive(pingRet), Work(r)]).stage == Active <==>
            && r.psy && !Absent(r)
            && (r.online < 0 || ((pingRet == 0 || c.online == PROG_ONLINE) && r.online == PROG_ONLINE))
  {
    var c1 := After(c, KeepAlive(pingRet));
    assert Run(c, [KeepAlive(pingRet), Work(r)]) == Run(c1, [Work(r)]) == Run(After(c1, Work(r)), []);
  }

  /** An adapter that answers every question, and is in the mode it was last put in. */
  predicate Cooperates(c: Core, r: WorkReply) {
    && r.psy && r.presentRet == 0 && r.present != 0 && r.limitsOk && r.pingRet == 0 && r.typeOk && r.progRet == 0
    && r.online == if c.online == PROG_ONLINE then PROG_ONLINE else FIXED_ONLINE
  }

  ghost predicate AllCooperate(c: Core, rs: seq<WorkReply>)
    decreases rs
  {
    rs != [] ==> Cooperates(c, rs[0]) && AllCooperate(After(c, Work(rs[0])), rs[1..])
  }

  function Works(rs: seq<WorkReply>): seq<Call> {
    if rs == [] then [] else [Work(rs[0])] + Works(rs[1..])
  }

  /** Turns of detection left until an adapter that cooperates is in use. */
  function TurnsLeft(c: Core): nat {
    if c.online == PROG_ONLINE then
      match c.stage
      case Active => 0
      case Available => 1
      case Try => 2
      case _ => 3
    else 3
  }

  /** Detection succeeds: from every stage that is not final, after three turns with an adapter that
      cooperates it is Active in programmable mode, and it stays so. */
  lemma {:induction false} DetectionSucceeds(c: Core, rs: seq<WorkReply>)
    requires c.stage != NotSupported && AllCooperate(c, rs) && |rs| >= TurnsLeft(c)
    ensures TurnsLeft(c) <= 3 && Run(c, Works(rs)) == Core(Active, PROG_ONLINE)
    decreases rs
  {
    if rs != [] {
      var calls := Works(rs);
      assert calls[0] == Work(rs[0]) && calls[1..] == Works(rs[1..]);
      DetectionSucceeds(After(c, Work(rs[0])), rs[1..]);
    }
  }

  /** A setter the adapter does not support is noticed by the next pps_work, just as a refused
      keep-alive is; any other reply leaves an adapter in use as it was. */
  lemma UnsupportedSetterDemotesIff(c: Core, ret: int, r: WorkReply)
    requires c.stage == Active
    ensures Run(c, [SetProp(ret), Work(r)]).stage == Active <==>
            && r.psy && !Absent(r)
            && (r.online < 0 || (ret != EOPNOTSUPP && c.online == PROG_ONLINE && r.online == PROG_ONLINE))
  {
    var c1 := After(c, SetProp(ret));
    assert Run(c, [SetProp(ret), Work(r)]) == Run(c1, [Work(r)]) == Run(After(c1, Work(r)), []);
  }

  // ------------------------------------------------------------- how often the adapter is contacted

  const NS: nat := 1_000_000_000
  const NS_PER_MS: nat := 1_000_000
  const TIMEOUT_MS: nat := 9000        // PD_T_PPS_TIMEOUT
  const DEADLINE_S: nat := 7           // PD_T_PPS_DEADLINE_S

  function Sec(t: nat): nat {
    t / NS
  }

  /** What a pps_update_adapter call finds to change. */
  datatype Pending = Nothing | OneValue | TwoValues

  /** Does a call at time t, with the last contact stamped `last`, contact the adapter? */
  predicate Contacts(last: nat, t: nat, p: Pending) {
    !p.Nothing? || Sec(t) - last >= DEADLINE_S
  }

  /** The delay it returns, in milliseconds. */
  function Delay(last: nat, t: nat, p: Pending): int {
    match p
    case TwoValues => 0
    case OneValue => TIMEOUT_MS
    case Nothing =>
      var interval := Sec(t) - last;
      if interval < DEADLINE_S then TIMEOUT_MS - interval * 1000 else TIMEOUT_MS
  }

  datatype Update = Update(t: nat, pending: Pending)

  /** Each call comes no later than `due`, then no later than the delay of the call before. */
  ghost predicate OnTime(contact: nat, from: nat, due: nat, calls: seq<Update>)
    decreases calls
  {
    calls != [] ==>
      var u := calls[0];
      && from <= u.t <= due
      && var contact' := if Contacts(Sec(contact), u.t, u.pending) then u.t else contact;
         var due' := u.t + Delay(Sec(contact), u.t, u.pending) * NS_PER_MS;
         u.t <= due' && OnTime(contact', u.t, due', calls[1..])
  }

  /** The times at which the adapter is contacted, the last contact before the run included. */
  function ContactTimes(contact: nat, calls: seq<Update>): seq<nat>
    decreases calls
  {
    if calls == [] then [contact]
    else if Contacts(Sec(contact), calls[0].t, calls[0].pending) then
      [contact] + ContactTimes(calls[0].t, calls[1..])
    else ContactTimes(contact, calls[1..])
  }

  /** A delay never reaches past ten seconds after the second of the last contact. */
  lemma DelayBound(contact: nat, t: nat, p: Pending)
    requires contact <= t
    ensures var c := if Contacts(Sec(contact), t, p) then t else contact;
            t + Delay(Sec(contact), t, p) * NS_PER_MS < (Sec(c) + 10) * NS
  {
  }

  /** Nor does one end too early: a caller that uses up its delay contacts the adapter then, unless
      it is to set a second value at once. */
  lemma FullDelayContacts(contact: nat, t: nat, p: Pending, next: Pending)
    requires contact <= t
    ensures var c := if Contacts(Sec(contact), t, p) then t else contact;
            var t' := t + Delay(Sec(contact), t, p) * NS_PER_MS;
            if p.TwoValues? then t' == t else t < t' && Contacts(Sec(c), t', next)
  {
  }

  /** When two values differ, the first is set by this call and the second by the next one on time,
      which comes at once. */
  lemma SecondValueAtOnce(contact: nat, from: nat, due: nat, calls: seq<Update>)
    requires OnTime(contact, from, due, calls) && |calls| >= 2
    requires calls[0].pending.TwoValues? && calls[1].pending.OneValue?
    ensures calls[1].t == calls[0].t
    ensures var ts := ContactTimes(contact, calls);
            |ts| >= 3 && ts[..3] == [contact, calls[0].t, calls[0].t]
  {
    var u, rest := calls[0], calls[1..];
    assert OnTime(u.t, u.t, u.t, rest) && rest[0] == calls[1];
    ContactsStart(calls[1].t, rest[1..]);
  }

  lemma {:induction false} ContactsStart(contact: nat, calls: seq<Update>)
    ensures |ContactTimes(contact, calls)| > 0 && ContactTimes(contact, calls)[0] == contact
    decreases calls
  {
    if calls != [] && !Contacts(Sec(contact), calls[0].t, calls[0].pending) {
      ContactsStart(contact, calls[1..]);
    }
  }

  /** If the caller comes back within every returned delay, any two successive contacts are
      less than ten seconds apart, and the last call is less than ten seconds after the last contact,
      although the timestamps only count whole seconds. */
  lemma {:induction false} ContactGapBelowTenSeconds(contact: nat, from: nat, due: nat, calls: seq<Update>)
    requires contact <= from && due < (Sec(contact) + 10) * NS && OnTime(contact, from, due, calls)
    ensures |ContactTimes(contact, calls)| > 0 && ContactTimes(contact, calls)[0] == contact
    ensures var ts := ContactTimes(contact, calls);
            && (forall i | 0 <= i < |ts| - 1 :: ts[i] <= ts[i + 1] < ts[i] + 10 * NS)
            && (calls != [] ==> ts[|ts| - 1] <= calls[|calls| - 1].t < ts[|ts| - 1] + 10 * NS)
    decreases calls
  {
    if calls != [] {
      var u := calls[0];
      var contact' := if Contacts(Sec(contact), u.t, u.pending) then u.t else contact;
      var due' := u.t + Delay(Sec(contact), u.t, u.pending) * NS_PER_MS;
      DelayBound(contact, u.t, u.pending);
      ContactGapBelowTenSeconds(contact', u.t, due', calls[1..]);
    }
  }

  /** The bound is the best possible: a run on time can leave a gap one nanosecond short of it. */
  lemma GapIsTight()
    ensures exists calls ::
              OnTime(0, 0, TIMEOUT_MS * NS_PER_MS, calls) && ContactTimes(0, calls) == [0, 10 * NS - 1]
  {
    var u1, u2 := Update(7 * NS - 1, Nothing), Update(10 * NS - 1, Nothing);
    var calls := [u1, u2];
    assert calls[1..] == [u2] && [u2][1..] == [];
    assert Sec(u1.t) == 6 && Sec(u2.t) == 9;
    assert Delay(0, u1.t, Nothing) == 3000 && Delay(0, u2.t, Nothing) == TIMEOUT_MS;
    assert OnTime(u2.t, u2.t, u2.t + TIMEOUT_MS * NS_PER_MS, []);
    assert OnTime(0, u1.t, u2.t, [u2]);
    assert OnTime(0, 0, TIMEOUT_MS * NS_PER_MS, calls);
    assert ContactTimes(0, [u2]) == [0] + ContactTimes(u2.t, []);
  }
}
