/**
 Camera ownership hand-over: acquiring takes the camera, then the CSI link, then configures MIPI;
 releasing gives the link back before the camera. Any command can fail, with or without having been
 applied; a zero return is taken to mean that it was.
 */
module IntelVsc {

  const EINVAL := -22
  const EAGAIN := -11

  datatype Owner = Firmware | Ipu

  datatype Config = Config(laneNum: nat, freq: nat)

  datatype Command = OwnCamera(who: Owner) | OwnCsi(who: Owner) | ConfigureMipi(config: Config)

  /** A command given to the firmware, what it returned and whether it took effect. */
  datatype Done = Done(cmd: Command, ret: int, applied: bool)

  datatype Mipi = Unset | Set(config: Config)

  datatype FwState = FwState(camera: Owner, csi: Owner, mipi: Mipi)

  const POWER_ON := FwState(Firmware, Firmware, Unset)

  function Apply(fw: FwState, d: Done): FwState {
    if !d.applied then fw
    else
      match d.cmd
      case OwnCamera(who) => fw.(camera := who)
      case OwnCsi(who) => fw.(csi := who)
      case ConfigureMipi(config) => fw.(mipi := Set(config))
  }

  /** The firmware after a log of commands. */
  function After(fw: FwState, log: seq<Done>): FwState
    decreases |log|
  {
    if log == [] then fw else After(Apply(fw, log[0]), log[1..])
  }

  /** The link is the IPU's only while the camera is. */
  predicate Safe(fw: FwState) {
    fw.csi == Ipu ==> fw.camera == Ipu
  }

  /** A zero return means the command was applied. */
  predicate Honest(d: Done) {
    d.ret == 0 ==> d.applied
  }

  /** The commands of one acquire, up to the first that failed. */
  predicate AcquireLog(log: seq<Done>) {
    && 1 <= |log| <= 3 && (forall k :: 0 <= k < |log| ==> Honest(log[k]))
    && log[0].cmd == OwnCamera(Ipu)
    && (|log| == 1 ==> log[0].ret != 0)
    && (|log| >= 2 ==> log[0].ret == 0 && log[1].cmd == OwnCsi(Ipu))
    && (|log| == 2 ==> log[1].ret != 0)
    && (|log| == 3 ==> log[1].ret == 0 && log[2].cmd.ConfigureMipi?)
  }

  predicate ReleaseLog(log: seq<Done>) {
    && 1 <= |log| <= 2 && (forall k :: 0 <= k < |log| ==> Honest(log[k]))
    && log[0].cmd == OwnCsi(Firmware)
    && (|log| == 1 ==> log[0].ret != 0)
    && (|log| == 2 ==> log[0].ret == 0 && log[1].cmd == OwnCamera(Firmware))
  }

  /** A log made of whole acquires and releases, in any order and number. */
  ghost predicate History(log: seq<Done>)
    decreases |log|
  {
    || log == []
    || exists n :: 0 < n <= |log| && (AcquireLog(log[..n]) || ReleaseLog(log[..n])) && History(log[n..])
  }

  lemma {:induction false} AfterSplit(fw: FwState, a: seq<Done>, b: seq<Done>)
    ensures After(fw, a + b) == After(After(fw, a), b)
    decreases |a|
  {
    if a == [] {
      assert a + b == b;
    } else {
      AfterSplit(Apply(fw, a[0]), a[1..], b);
      assert (a + b)[1..] == a[1..] + b;
    }
  }

  /** Inside one acquire or release the ownership is safe at every moment, if it was before. */
  lemma SegmentSafe(fw: FwState, log: seq<Done>, k: nat)
    requires Safe(fw) && (AcquireLog(log) || ReleaseLog(log)) && k <= |log|
    ensures Safe(After(fw, log[..k]))
  {
    if k > 0 {
      var f1 := Apply(fw, log[0]);
      var t1 := log[..k][1..];
      assert After(fw, log[..k]) == After(f1, t1);
      if k > 1 {
        var f2 := Apply(f1, t1[0]);
        var t2 := t1[1..];
        assert After(f1, t1) == After(f2, t2);
        if k > 2 {
          var t3 := t2[1..];
          assert After(f2, t2) == After(Apply(f2, t2[0]), t3);
        }
      }
    }
  }

  /**
   Ownership safety over every history of acquires and releases failing anywhere: at every moment the
   link is the IPU's only while the camera is.
   */
  lemma {:induction false} OwnershipSafe(fw: FwState, log: seq<Done>, k: nat)
    requires Safe(fw) && History(log) && k <= |log|
    ensures Safe(After(fw, log[..k]))
    decreases |log|
  {
    hide AcquireLog, ReleaseLog, Safe;
    if log != [] {
      var n :| 0 < n <= |log| && (AcquireLog(log[..n]) || ReleaseLog(log[..n])) && History(log[n..]);
      if k <= n {
        SegmentSafe(fw, log[..n], k);
        assert log[..n][..k] == log[..k];
      } else {
        SegmentSafe(fw, log[..n], n);
        assert log[..n][..n] == log[..n];
        OwnershipSafe(After(fw, log[..n]), log[n..], k - n);
        AfterSplit(fw, log[..n], log[n..][..k - n]);
        assert log[..n] + log[n..][..k - n] == log[..k];
      }
    }
  }

  /** MIPI is only ever configured right after both the camera and the link were granted, in the same acquire. */
  lemma {:induction false} MipiOnlyWhenGranted(log: seq<Done>, k: nat)
    requires History(log) && k < |log| && log[k].cmd.ConfigureMipi?
    ensures k >= 2
    ensures log[k - 2].cmd == OwnCamera(Ipu) && log[k - 2].ret == 0
    ensures log[k - 1].cmd == OwnCsi(Ipu) && log[k - 1].ret == 0
    decreases |log|
  {
    var n :| 0 < n <= |log| && (AcquireLog(log[..n]) || ReleaseLog(log[..n])) && History(log[n..]);
    if k < n {
      assert log[..n][k] == log[k];
      assert log[..n][0] == log[0];
      assert n > 1 ==> log[..n][1] == log[1];
    } else {
      MipiOnlyWhenGranted(log[n..], k - n);
    }
  }

  lemma {:induction false} HistoryThen(log: seq<Done>, more: seq<Done>)
    requires History(log) && (AcquireLog(more) || ReleaseLog(more))
    ensures History(log + more)
    decreases |log|
  {
    hide AcquireLog, ReleaseLog;
    if log == [] {
      assert log + more == more && more[..|more|] == more && more[|more|..] == [];
    } else {
      var n :| 0 < n <= |log| && (AcquireLog(log[..n]) || ReleaseLog(log[..n])) && History(log[n..]);
      HistoryThen(log[n..], more);
      assert (log + more)[..n] == log[..n] && (log + more)[n..] == log[n..] + more;
    }
  }

  datatype Component = Ace | Csi

  /** An attempt to register, with or without all the operations asked for, or an unregistration. */
  datatype Registration = Registered(which: Component, complete: bool) | Unregistered(which: Component)

  /** A complete registration of the component has no unregistration of it after it. */
  predicate Standing(h: seq<Registration>, c: Component) {
    exists k :: 0 <= k < |h| && h[k] == Registered(c, true) && Unregistered(c) !in h[k..]
  }

  /** The last event alone decides if it is an unregistration or a complete registration of the component. */
  lemma StandingStep(h: seq<Registration>, e: Registration, c: Component)
    ensures Standing(h + [e], c) <==> e == Registered(c, true) || (Standing(h, c) && e != Unregistered(c))
  {
    if e == Registered(c, true) {
      assert (h + [e])[|h|] == e && (h + [e])[|h|..] == [e];
    } else {
      forall k | 0 <= k < |h|
        ensures Unregistered(c) in (h + [e])[k..] <==> Unregistered(c) in h[k..] || e == Unregistered(c)
      {
        assert (h + [e])[k..] == h[k..] + [e];
      }
      assert forall k :: 0 <= k < |h| ==> (h + [e])[k] == h[k];
    }
  }

  /** After an unregistration only what comes later makes the component stand again. */
  lemma {:induction false} UnregisteredForgets(h: seq<Registration>, c: Component, later: seq<Registration>)
    ensures Standing(h + [Unregistered(c)] + later, c) <==> Standing(later, c)
    decreases |later|
  {
    if later == [] {
      StandingStep(h, Unregistered(c), c);
      assert h + [Unregistered(c)] + later == h + [Unregistered(c)];
    } else {
      var front, e := later[..|later| - 1], later[|later| - 1];
      UnregisteredForgets(h, c, front);
      StandingStep(h + [Unregistered(c)] + front, e, c);
      StandingStep(front, e, c);
      assert h + [Unregistered(c)] + later == h + [Unregistered(c)] + front + [e] && later == front + [e];
    }
  }

  datatype Callback = NoCallback | Callback(id: nat, handle: nat)

  datatype CameraStatus = CameraStatus(owner: nat, privacyOn: bool, exposureLevel: nat)

  class Vsc {
    // what the firmware answers to the k-th command, and the camera status it reports with it
    const answers: nat -> (int, bool)
    const reports: nat -> CameraStatus
    var aceRegistered: bool
    var csiRegistered: bool
    var callback: Callback
    var log: seq<Done>
    ghost var fw: FwState
    ghost var history: seq<Registration>

    ghost predicate Valid()
      reads this
    {
      && (forall k :: answers(k).0 == 0 ==> answers(k).1)
      && History(log) && fw == After(POWER_ON, log) && Safe(fw)
      && aceRegistered == Standing(history, Ace) && csiRegistered == Standing(history, Csi)
    }

    constructor (answers: nat -> (int, bool), reports: nat -> CameraStatus)
      requires forall k :: answers(k).0 == 0 ==> answers(k).1
      ensures Valid() && log == [] && history == [] && callback == NoCallback
    {
      this.answers, this.reports := answers, reports;
      aceRegistered, csiRegistered, callback, log, fw, history := false, false, NoCallback, [], POWER_ON, [];
    }

    /** One more event in the history. */
    ghost method Note(e: Registration)
      modifies this`history
      ensures history == old(history) + [e]
      ensures forall c :: Standing(history, c) <==> e == Registered(c, true) || (Standing(old(history), c) && e != Unregistered(c))
    {
      hide Standing;
      forall c {
        StandingStep(history, e, c);
      }
      history := history + [e];
    }

    /** vsc_register_ace, which wants both ownership operations. */
    method RegisterAce(present: bool, hasIpuOwn: bool, hasAceOwn: bool) returns (ret: int)
      requires Valid()
      modifies this`aceRegistered, this`history
      ensures Valid() && ret == (if present && hasIpuOwn && hasAceOwn then 0 else -1)
      ensures history == old(history) + [Registered(Ace, ret == 0)]
      ensures Standing(history, Ace) <==> Standing(old(history), Ace) || ret == 0
      ensures Standing(history, Csi) <==> Standing(old(history), Csi)
    {
      hide Standing, History, After, Safe;
      if present && hasIpuOwn && hasAceOwn {
        aceRegistered := true;
        Note(Registered(Ace, true));
        return 0;
      }
      Note(Registered(Ace, false));
      ret := -1;
    }

    method UnregisterAce()
      requires Valid()
      modifies this`aceRegistered, this`history
      ensures Valid() && history == old(history) + [Unregistered(Ace)] && !Standing(history, Ace)
    {
      hide Standing, History, After, Safe;
      aceRegistered := false;
      Note(Unregistered(Ace));
    }

    /** vsc_register_csi, which wants the callback, ownership and MIPI operations. */
    method RegisterCsi(present: bool, hasCallback: bool, hasOwner: bool, hasMipi: bool) returns (ret: int)
      requires Valid()
      modifies this`csiRegistered, this`history
      ensures Valid() && ret == (if present && hasCallback && hasOwner && hasMipi then 0 else -1)
      ensures history == old(history) + [Registered(Csi, ret == 0)]
      ensures Standing(history, Csi) <==> Standing(old(history), Csi) || ret == 0
      ensures Standing(history, Ace) <==> Standing(old(history), Ace)
    {
      hide Standing, History, After, Safe;
      if present && hasCallback && hasOwner && hasMipi {
        csiRegistered := true;
        Note(Registered(Csi, true));
        return 0;
      }
      Note(Registered(Csi, false));
      ret := -1;
    }

    method UnregisterCsi()
      requires Valid()
      modifies this`csiRegistered, this`history
      ensures Valid() && history == old(history) + [Unregistered(Csi)] && !Standing(history, Csi)
    {
      hide Standing, History, After, Safe;
      csiRegistered := false;
      Note(Unregistered(Csi));
    }

    /** One command to the firmware. */
    method Give(cmd: Command) returns (ret: int)
      requires forall k :: answers(k).0 == 0 ==> answers(k).1
      modifies this`log, this`fw
      ensures ret == answers(|old(log)|).0
      ensures log == old(log) + [Done(cmd, ret, answers(|old(log)|).1)] && Honest(log[|log| - 1])
      ensures fw == Apply(old(fw), log[|log| - 1])
    {
      ret := answers(|log|).0;
      ghost var d := Done(cmd, ret, answers(|log|).1);
      log := log + [Done(cmd, ret, answers(|log|).1)];
      fw := Apply(fw, d);
    }

    /** The log has grown by one acquire or release. */
    ghost method Close(was: seq<Done>, more: seq<Done>)
      requires (forall k :: answers(k).0 == 0 ==> answers(k).1)
      requires History(was) && (AcquireLog(more) || ReleaseLog(more)) && log == was + more
      requires fw == After(After(POWER_ON, was), more)
      requires aceRegistered == Standing(history, Ace) && csiRegistered == Standing(history, Csi)
      ensures Valid()
    {
      HistoryThen(was, more);
      AfterSplit(POWER_ON, was, more);
      OwnershipSafe(POWER_ON, log, |log|);
      assert log[..|log|] == log;
    }

    /** The second half of an acquire, the camera granted: the link, then MIPI. */
    method TakeLink(config: Config, ghost was: seq<Done>, ghost fw0: FwState) returns (ret: int)
      requires forall k :: answers(k).0 == 0 ==> answers(k).1
      requires History(was) && fw0 == After(POWER_ON, was)
      requires |log| == |was| + 1 && was < log && fw == Apply(fw0, log[|was|])
      requires log[|was|].cmd == OwnCamera(Ipu) && log[|was|].ret == 0 && Honest(log[|was|])
      requires aceRegistered == Standing(history, Ace) && csiRegistered == Standing(history, Csi)
      modifies this`log, this`fw
      ensures Valid() && old(log) < log && AcquireLog(log[|was|..]) && ret == log[|log| - 1].ret
      ensures ret == 0 <==> |log| == |was| + 3 && log[|log| - 1].ret == 0
      ensures ret == 0 ==> fw == FwState(Ipu, Ipu, Set(config))
    {
      hide History, After, Safe, Standing;
      ret := Give(OwnCsi(Ipu));
      if ret != 0 {
        TwoCommands(fw0, log[|was|], log[|was| + 1]);
        Close(was, [log[|was|], log[|was| + 1]]);
        assert log[|was|..] == [log[|was|], log[|was| + 1]];
        return;
      }
      ret := Give(ConfigureMipi(config));
      ThreeCommands(fw0, log[|was|], log[|was| + 1], log[|was| + 2]);
      Close(was, [log[|was|], log[|was| + 1], log[|was| + 2]]);
      assert log[|was|..] == [log[|was|], log[|was| + 1], log[|was| + 2]];
    }

    /**
     vsc_acquire_camera_sensor. It returns zero exactly when all three commands do, and then camera,
     link and MIPI configuration are as asked for; a failing step ends it, with nothing undone. It gets
     that far exactly when both components stand registered.
     */
    method Acquire(hasConfig: bool, config: Config, privacy: Callback, wantsStatus: bool, status: CameraStatus)
      returns (ret: int, status': CameraStatus)
      requires Valid()
      modifies this`callback, this`log, this`fw
      ensures Valid()
      ensures !hasConfig ==> ret == EINVAL && log == old(log) && callback == old(callback)
      ensures hasConfig && !(Standing(history, Ace) && Standing(history, Csi)) ==> ret == EAGAIN && log == old(log) && callback == old(callback)
      ensures hasConfig && Standing(history, Ace) && Standing(history, Csi) ==>
                && callback == privacy
                && old(log) < log && AcquireLog(log[|old(log)|..])
                && ret == log[|log| - 1].ret
                && (ret == 0 <==> |log| == |old(log)| + 3 && log[|log| - 1].ret == 0)
                && (ret == 0 ==> fw == FwState(Ipu, Ipu, Set(config)))
                && (wantsStatus && log[|old(log)|].ret == 0 ==> status' == reports(|old(log)|))
                && (!wantsStatus || log[|old(log)|].ret != 0 ==> status' == status)
    {
      status' := status;
      if !hasConfig {
        return EINVAL, status;
      }
      if !(aceRegistered && csiRegistered) {
        return EAGAIN, status;
      }
      hide History, After, Safe, Standing;
      callback := privacy;
      ghost var was, fw0 := log, fw;
      ret := Give(OwnCamera(Ipu));
      if ret != 0 {
        OneCommand(fw0, log[|was|]);
        Close(was, [log[|was|]]);
        assert log[|was|..] == [log[|was|]];
        return;
      }
      if wantsStatus {
        status' := reports(|log| - 1);
      }
      ret := TakeLink(config, was, fw0);
    }

    /** vsc_release_camera_sensor. A zero return means both are the firmware's again. */
    method Release(wantsStatus: bool, status: CameraStatus) returns (ret: int, status': CameraStatus)
      requires Valid()
      modifies this`callback, this`log, this`fw
      ensures Valid()
      ensures !(Standing(history, Ace) && Standing(history, Csi)) ==> ret == EAGAIN && log == old(log) && callback == old(callback)
      ensures Standing(history, Ace) && Standing(history, Csi) ==>
                && callback == NoCallback
                && old(log) < log && ReleaseLog(log[|old(log)|..])
                && ret == log[|log| - 1].ret
                && (ret == 0 <==> |log| == |old(log)| + 2 && log[|log| - 1].ret == 0)
                && (ret == 0 ==> fw == old(fw).(camera := Firmware, csi := Firmware))
                && status' == if ret == 0 && wantsStatus then reports(|log| - 1) else status
    {
      status' := status;
      if !(aceRegistered && csiRegistered) {
        return EAGAIN, status;
      }
      hide History, After, Safe, Standing;
      callback := NoCallback;
      ghost var was, fw0 := log, fw;
      ret := Give(OwnCsi(Firmware));
      if ret != 0 {
        OneCommand(fw0, log[|was|]);
        Close(was, [log[|was|]]);
        assert log[|was|..] == [log[|was|]];
        return;
      }
      ret := Give(OwnCamera(Firmware));
      TwoCommands(fw0, log[|was|], log[|was| + 1]);
      Close(was, [log[|was|], log[|was| + 1]]);
      assert log[|was|..] == [log[|was|], log[|was| + 1]];
      if ret == 0 && wantsStatus {
        status' := reports(|log| - 1);
      }
    }
  }

  lemma OneCommand(fw: FwState, a: Done)
    ensures After(fw, [a]) == Apply(fw, a)
  {
    assert After(Apply(fw, a), [a][1..]) == Apply(fw, a);
  }

  lemma TwoCommands(fw: FwState, a: Done, b: Done)
    ensures After(fw, [a, b]) == Apply(Apply(fw, a), b)
  {
    assert [a, b][1..] == [b];
    assert After(Apply(fw, a), [b]) == After(Apply(Apply(fw, a), b), [b][1..]);
  }

  lemma ThreeCommands(fw: FwState, a: Done, b: Done, c: Done)
    ensures After(fw, [a, b, c]) == Apply(Apply(Apply(fw, a), b), c)
  {
    assert [a, b, c][1..] == [b, c];
    TwoCommands(Apply(fw, a), b, c);
  }
}
