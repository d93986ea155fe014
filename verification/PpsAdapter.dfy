/** The driver's record of one PPS adapter, updated in place. Replies of the power supply and
    the boot time, in nanoseconds, are arguments. */
module PpsAdapter {
  import opened Machine
  import opened Errno
  import opened PpsModel

  /** Voltage and current readings; a negative value is a read error. */
  datatype Limits = Limits(maxUv: int, minUv: int, maxUa: int, outUv: int, opUa: int) {
    predicate Ok() {
      maxUv >= 0 && minUv >= 0 && maxUa >= 0 && outUv >= 0 && opUa >= 0
    }
  }

  class Adapter {
    var online: int               // pd_online
    var stage: Stage
    var keepAliveCnt: u32
    var lastUpdate: nat           // seconds
    var limits: Limits
    var nrSrcCap: int

    constructor ()
      ensures Now() == Fresh
    {
      online, stage, keepAliveCnt, lastUpdate := OFFLINE, Disabled, 0, 0;
      limits, nrSrcCap := Limits(0, 0, 0, 0, 0), 0;
    }

    function Now(): Core
      reads this
    {
      Core(stage, online)
    }

    method InitState()
      modifies this`online, this`stage, this`keepAliveCnt, this`nrSrcCap
      ensures Now() == Fresh && keepAliveCnt == 0 && nrSrcCap == 0
    {
      online, stage, keepAliveCnt, nrSrcCap := OFFLINE, Disabled, 0, 0;
    }

    /** pps_is_avail. */
    method IsAvail(l: Limits) returns (s: Stage)
      modifies this`limits
      ensures limits == l && s == if l.Ok() then Available else Try
    {
      limits := l;
      s := if l.maxUv < 0 || l.minUv < 0 || l.maxUa < 0 || l.outUv < 0 || l.opUa < 0 then Try else Available;
    }

    /** pps_ping; `rc` is the power supply's reply. */
    method Ping(psy: bool, rc: int) returns (ret: int)
      modifies this`online
      ensures ret == (if psy then rc else ENODEV)
      ensures online == if psy && rc == 0 then PROG_ONLINE else old(online)
    {
      if !psy {
        return ENODEV;
      }
      if rc == 0 {
        online := PROG_ONLINE;
      }
      ret := rc;
    }

    /** pps_prog_online. */
    method ProgOnline(rc: int, now: nat)
      modifies this`online, this`stage, this`lastUpdate
      ensures lastUpdate == Sec(now)
      ensures stage == if rc == EOPNOTSUPP then NotSupported else if rc == 0 then Try else old(stage)
      ensures online == if rc == 0 then PROG_ONLINE else old(online)
    {
      if rc == EOPNOTSUPP {
        stage := NotSupported;
      } else if rc == 0 {
        online := PROG_ONLINE;
        stage := Try;
      }
      lastUpdate := Sec(now);
    }

    /** pps_work: one turn of detection, for any replies. A zero result switches the update
        interval off; the caller otherwise returns within it. */
    method Work(r: WorkReply, l: Limits, srcCap: int, now: nat) returns (ret: int)
      requires r.limitsOk == l.Ok()
      modifies this
      ensures Now() == After(old(Now()), PpsModel.Work(r))
      ensures keepAliveCnt == old(keepAliveCnt)
      ensures Pings(old(Now()), PpsModel.Work(r)) ==> lastUpdate == Sec(now) && ret == TIMEOUT_MS
      ensures !old(stage).Active? && stage.Active? ==> ret == 0
    {
      if !r.psy {
        stage := NotSupported;
        return EINVAL;
      }
      if r.presentRet == 0 && r.present == 0 {
        stage := NotSupported;
      }
      if stage.NotSupported? {
        return 0;
      }
      if stage.Try? && online == PROG_ONLINE {
        stage := IsAvail(l);
        if stage.Available? {
          var rc := Ping(true, r.pingRet);
          if rc < 0 {
            online := FIXED_ONLINE;
            return 0;
          }
          lastUpdate := Sec(now);
          nrSrcCap := srcCap;
        }
        return TIMEOUT_MS;
      }
      if r.online < 0 {
        return 0;
      }
      stage := if r.online == online && r.online == PROG_ONLINE && (stage.Available? || stage.Active?)
               then Active else Try;
      if stage.Active? {
        return 0;
      }
      if r.typeOk && r.online == FIXED_ONLINE {
        ProgOnline(r.progRet, now);
        if r.progRet == 0 {
          return TIMEOUT_MS;
        } else if r.progRet == EAGAIN {
          online := r.online;
          return r.progRet;
        } else if r.progRet == EOPNOTSUPP {
          stage := NotSupported;
        }
      }
      online := r.online;
      ret := 0;
    }

    /** pps_prog_check_online; without a power supply it reports true and changes nothing. */
    method CheckOnline(psy: bool, seen: int, l: Limits, ping: int, caps: int, now: nat) returns (ok: bool)
      modifies this
      ensures !psy ==> ok && Now() == old(Now()) && lastUpdate == old(lastUpdate)
      ensures psy ==> Now() == After(old(Now()), PpsModel.CheckOnline(seen, l.Ok(), ping, caps))
      ensures psy ==> (ok <==> stage.Active?)
    {
      if !psy {
        return true;
      }
      if seen == OFFLINE {
        InitState();
        return false;
      }
      var supported := seen == PROG_ONLINE;
      if supported && !stage.Active? {
        stage := IsAvail(l);
        supported := stage.Available?;
        if supported {
          var rc := Ping(true, ping);
          supported := rc >= 0;
        }
        if supported {
          lastUpdate := Sec(now);
          nrSrcCap := caps;
          supported := caps >= 0;
        }
        if supported {
          online := PROG_ONLINE;
          stage := Active;
        }
      }
      if !supported {
        InitState();
        stage := NotSupported;
      }
      ok := supported;
    }

    /** pps_prog_offline: back to fixed mode if it was in programmable mode, then start over. */
    method ProgOffline(psy: bool, getRet: int, seen: int, setRet: int) returns (ret: int)
      modifies this
      ensures !psy ==> ret == ENODEV && Now() == old(Now())
      ensures psy ==> Now() == After(old(Now()), PpsModel.ProgOffline)
      ensures psy ==> ret == if getRet >= 0 && seen == PROG_ONLINE then setRet else getRet
    {
      if !psy {
        return ENODEV;
      }
      ret := getRet;
      if getRet >= 0 && seen == PROG_ONLINE {
        ret := setRet;
      }
      InitState();
    }

    /** pps_keep_alive. */
    method KeepAlive(psy: bool, rc: int, now: nat) returns (ret: int)
      modifies this`online, this`keepAliveCnt, this`lastUpdate
      ensures ret == if !psy then EINVAL else if rc < 0 then rc else 0
      ensures Now() == if psy then After(old(Now()), PpsModel.KeepAlive(rc)) else old(Now())
      ensures lastUpdate == if ret == 0 then Sec(now) else old(lastUpdate)
      ensures ret == 0 ==> keepAliveCnt == Min(old(keepAliveCnt) + 1, TWO32 - 1)
      ensures ret != 0 ==> keepAliveCnt == if psy then 0 else old(keepAliveCnt)
    {
      if !psy {
        return EINVAL;
      }
      ret := Ping(true, rc);
      if ret < 0 {
        online := FIXED_ONLINE;
        keepAliveCnt := 0;
        return;
      }
      keepAliveCnt := keepAliveCnt + if keepAliveCnt < TWO32 - 1 then 1 else 0;
      lastUpdate := Sec(now);
      ret := 0;
    }

    /** pps_set_prop; `ret` is the power supply's reply. */
    method SetProp(ret: int)
      modifies this`online, this`keepAliveCnt
      ensures Now() == After(old(Now()), PpsModel.SetProp(ret))
      ensures keepAliveCnt == if ret == 0 || ret == EOPNOTSUPP then 0 else old(keepAliveCnt)
    {
      if ret == 0 {
        keepAliveCnt := 0;
      } else if ret == EOPNOTSUPP {
        online := FIXED_ONLINE;
        keepAliveCnt := 0;
      }
    }

    /** What an update to `uv` and `ua` has to change, given the readings; negative means keep. */
    static function PendingOf(uv: int, ua: int, outUv: int, opUa: int): Pending {
      var setsUv, setsUa := uv >= 0 && uv != outUv, ua >= 0 && ua != opUa;
      if setsUa && setsUv then TwoValues else if setsUa || setsUv then OneValue else Nothing
    }

    /** pps_update_adapter: sets the current, else the voltage, else pings when the deadline has
        passed. Never changes the stage. When the adapter cooperates it is contacted and the
        delay is chosen as the schedule says; when a reading fails nothing is contacted. */
    method UpdateAdapter(psy: bool, uv: int, ua: int, outUv: int, opUa: int, setRet: int, pingRet: int, now: nat)
      returns (ret: int, ghost contacted: bool)
      requires lastUpdate <= Sec(now)
      modifies this
      ensures stage == old(stage)
      ensures !psy ==> ret == EINVAL && !contacted && Now() == old(Now())
      ensures psy && (outUv < 0 || opUa < 0) ==> ret == EIO && !contacted && Now() == old(Now())
      ensures lastUpdate == if contacted then Sec(now) else old(lastUpdate)
      ensures psy && outUv >= 0 && opUa >= 0 && setRet == 0 && pingRet == 0 ==>
                var p := PendingOf(uv, ua, outUv, opUa);
                && contacted == Contacts(old(lastUpdate), now, p)
                && ret == Delay(old(lastUpdate), now, p)
      ensures psy && outUv >= 0 && opUa >= 0 && setRet == 0 ==>
                && limits.opUa == (if ua >= 0 then ua else opUa)
                && limits.outUv == (if uv >= 0 && !(ua >= 0 && ua != opUa) then uv else outUv)
      ensures psy && outUv >= 0 && opUa >= 0 ==>
                Now() == if !PendingOf(uv, ua, outUv, opUa).Nothing? then After(old(Now()), PpsModel.SetProp(setRet))
                         else if Sec(now) - old(lastUpdate) < DEADLINE_S then old(Now())
                         else After(old(Now()), PpsModel.KeepAlive(pingRet))
    {
      contacted := false;
      if !psy {
        return EINVAL, false;
      }
      var interval := Sec(now) - lastUpdate;
      limits := limits.(outUv := outUv, opUa := opUa);
      if outUv < 0 || opUa < 0 {
        return EIO, false;
      }
      var pendingUv := if uv < 0 then outUv else uv;
      var pendingUa := if ua < 0 then opUa else ua;

      if opUa != pendingUa {
        keepAliveCnt := 0;
        SetProp(setRet);
        ret := setRet;
        if ret == 0 {
          lastUpdate, contacted := Sec(now), true;
          limits := limits.(opUa := pendingUa);
          return (if outUv != pendingUv then 0 else TIMEOUT_MS), true;
        }
      } else if outUv != pendingUv {
        SetProp(setRet);
        keepAliveCnt := 0;
        ret := setRet;
        if ret == 0 {
          lastUpdate, contacted := Sec(now), true;
          limits := limits.(outUv := pendingUv);
          return TIMEOUT_MS, true;
        }
      } else if interval < DEADLINE_S {
        return TIMEOUT_MS - interval * 1000, false;
      } else {
        ret := KeepAlive(true, pingRet, now);
        contacted := ret == 0;
        if ret >= 0 {
          keepAliveCnt := Wrap32(keepAliveCnt + 1);
          return TIMEOUT_MS, true;
        }
      }
    }
  }

  /** Two calls in a row, as the returned delays ask for: the first sets the current and asks to be
      called again at once, the second sets the voltage, and then both are as wanted. */
  method SettleBoth(a: Adapter, uv: nat, ua: nat, outUv: nat, opUa: nat, now: nat) returns (first: int, second: int)
    requires a.lastUpdate <= Sec(now) && uv != outUv && ua != opUa
    modifies a
    ensures first == 0 && second == TIMEOUT_MS
    ensures a.limits.outUv == uv && a.limits.opUa == ua && a.stage == old(a.stage) && a.lastUpdate == Sec(now)
  {
    ghost var contacted: bool;
    first, contacted := a.UpdateAdapter(true, uv, ua, outUv, opUa, 0, 0, now);
    second, contacted := a.UpdateAdapter(true, uv, ua, a.limits.outUv, a.limits.opUa, 0, 0, now);
  }
}
