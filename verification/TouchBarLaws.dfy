/** What the touch bar's settings and keys mean to its user, as the driver documents them
    (touchbar/src/apple-ib-tb.c:60-85, 478-830). Key codes are those of the Linux input layer. */
module TouchBarLaws {
  import opened TouchBar

  // ----- keys

  /** The touch bar shows Escape and twelve function keys, each in a slot of its own. */
  lemma ThirteenKeys(code: nat)
    ensures Slot(code) >= 0 <==> code == 1 || 59 <= code <= 68 || code == 87 || code == 88
    ensures Slot(1) == 0 && Slot(59) == 1 && Slot(68) == 10 && Slot(87) == 11 && Slot(88) == 12
    ensures 59 <= code < 68 ==> Slot(code + 1) == Slot(code) + 1
    ensures KEYS == 13
  {}

  /** From F1 to F12: brightness down and up, expose, dashboard, keyboard light down and up, previous,
      play, next, mute, volume down and up. Escape stands for nothing else. */
  lemma SpecialKeys()
    ensures Special(59) == 224 && Special(60) == 225 && Special(61) == 120 && Special(62) == 204
    ensures Special(63) == 229 && Special(64) == 230 && Special(65) == 165 && Special(66) == 164
    ensures Special(67) == 163 && Special(68) == 113 && Special(87) == 114 && Special(88) == 115
    ensures forall code :: !(59 <= code <= 68 || code == 87 || code == 88) ==> Special(code) == 0
  {}

  predicate IsFunctionKey(code: nat) { 59 <= code <= 68 || code == 87 || code == 88 }

  /** A press, or a repeat, of a key that is down: swallowed while the bar is off, its special key in the
      special mode if it is a function key, and itself otherwise. Other keys are none of its business. */
  lemma PressOutput(s: Bar, code: nat, value: nat)
    requires Shape(s) && value > 0 && (value == 2 ==> Slot(code) >= 0 && s.pressed[Slot(code)])
    ensures KeyEvent(s, code, value).1 ==
      if !(code == 1 || IsFunctionKey(code)) then Ignored
      else if s.curMode == ModeOff || s.curDisp == DispOff then Dummy
      else if IsFunctionKey(code) && EffMode(s) == ModeSpcl then Translated(Special(code))
      else Passed
  {
    ThirteenKeys(code);
    if Slot(code) >= 0 {
      var n := Noted(s, Key(code, value));
      assert n.pressed[Slot(code)];
      assert AnyPressed(n);
      UpdateMode(n, false);
      hide Update, AnyPressed;
    }
  }

  // ----- the Fn setting

  /** 0: function keys only; 1: Fn switches from special to function keys; 2: the inverse; 3: special
      keys only. */
  lemma FnSettings(s: Bar)
    requires s.idleTimeout != -2
    ensures s.fnMode == 0 ==> WantMode(s) == ModeFn
    ensures s.fnMode == 1 ==> WantMode(s) == if s.fnPressed then ModeFn else ModeSpcl
    ensures s.fnMode == 2 ==> WantMode(s) == if s.fnPressed then ModeSpcl else ModeFn
    ensures s.fnMode == 3 ==> WantMode(s) == ModeSpcl
  {}

  /** Pressing and releasing Fn is noted, a repeat and any other input is not. */
  lemma FnIsNoted(s: Bar, isFn: bool, value: nat)
    requires Shape(s)
    ensures Step(s, Input(isFn, value)).fnPressed == if isFn && value != 2 then value != 0 else s.fnPressed
    ensures var s' := Step(s, Input(isFn, value));
      && s'.pressed == s.pressed && s'.fnMode == s.fnMode
      && s'.idleTimeout == s.idleTimeout && s'.dimTimeout == s.dimTimeout
  {}

  /** From probing on, whenever no key is down and no setting is half stored, the mode in force is what
      the settings say. */
  lemma ModeFollowsSettings(fnMode: int, idle: int, dim: int, mode: Mode, disp: Disp, es: seq<Event>)
    ensures var s := Run(Probed(fnMode, idle, dim, mode, disp), es);
      !AnyPressed(s) && s.late == 0 && s.lateForced == 0 ==>
        if s.idleTimeout == -2 then EffMode(s) == ModeOff
        else EffMode(s) == if s.fnMode == 0 || s.fnMode == (if s.fnPressed then 1 else 2) then ModeFn else ModeSpcl
  {
    var s0 := Probed(fnMode, idle, dim, mode, disp);
    HeldBackModeIsApplied(s0, es);
    FnModeInRange(s0, es);
    hide Run, Probed;
  }

  lemma {:induction false} FnModeInRange(s: Bar, es: seq<Event>)
    requires Shape(s) && 0 <= s.fnMode <= 3
    ensures 0 <= Run(s, es).fnMode <= 3
    decreases |es|
  {
    if es != [] {
      FnModeStep(s, es[0]);
      hide Step;
      FnModeInRange(Step(s, es[0]), es[1..]);
    }
  }

  lemma FnModeStep(s: Bar, e: Event)
    requires Shape(s) && 0 <= s.fnMode <= 3
    ensures 0 <= Step(s, e).fnMode <= 3
  {
    StepRequest(s, e);
    hide AnyPressed, EffMode, EffDisp, KeyEvent, FollowUp;
  }

  // ----- stores

  /** A timeout of at least -2 that fits an int, and a Fn setting of 0 to 3, are stored; nothing else has
      any effect. */
  lemma StoresAreChecked(s: Bar, v: int)
    requires Shape(s)
    ensures if -2 <= v <= 2147483647 then Step(s, StoreIdle(v)).idleTimeout == v else Step(s, StoreIdle(v)) == s
    ensures !(-2 <= v <= 2147483647) ==> Step(s, StoreDim(v)) == s
    ensures if 0 <= v <= 3 then Step(s, StoreFnMode(v)) == s.(fnMode := v, late := s.late + 1)
            else Step(s, StoreFnMode(v)) == s
  {}

  /** A dim timeout that is given stays as it is when the idle timeout changes. */
  lemma GivenDimTimeout(s: Bar, d: int, v: int)
    requires Shape(s) && -1 <= d <= 2147483647 && -2 <= v <= 2147483647
    ensures var s1 := Step(s, StoreDim(d)); var s2 := Step(s1, StoreIdle(v));
      && s1.dimTimeout == d && s1.idleTimeout == s.idleTimeout && s2.dimTimeout == d && s2.idleTimeout == v
      && s2.lateForced == s.lateForced + 2
  {}

  /** One that is calculated dims the bar half a minute before it goes off, or a third of the time if that
      is less, also when the idle timeout changes later; without an idle timeout it never dims it. */
  lemma CalculatedDimTimeout(s: Bar, v: int)
    requires Shape(s) && -2 <= v <= 2147483647
    ensures var s1 := Step(s, StoreDim(-2)); var s2 := Step(s1, StoreIdle(v));
      && s1.idleTimeout == s.idleTimeout && s2.idleTimeout == v
      && IsCalculated(s1.idleTimeout, s1.dimTimeout) && IsCalculated(v, s2.dimTimeout)
  {}

  predicate IsCalculated(idle: int, dim: int) {
    if idle <= 0 then dim == -1
    else
      && dim <= idle && idle - dim <= 30 && 3 * (idle - dim) <= idle
      && (idle - dim == 30 || 3 * (idle - dim) > idle - 3)
  }

  /** Storing a timeout always ends with a run of the worker. */
  lemma StoreQueues(s: Bar, e: Event)
    requires Shape(s) && (e.StoreIdle? || e.StoreDim?) && -2 <= e.v <= 2147483647
    ensures var s' := Step(Step(s, e), StoreDone(true)); s'.queued && s'.lateForced == s.lateForced
  {
    hide KeyEvent, ChangesMode, ChangesDisp, WantMode, WantDisp, SetIdleTimeout, SetDimTimeout;
    StoreIsHalf(s, e);
  }

  lemma StoreIsHalf(s: Bar, e: Event)
    requires Shape(s) && (e.StoreIdle? || e.StoreDim?) && -2 <= e.v <= 2147483647
    ensures Step(s, e).lateForced == s.lateForced + 1
  {
    hide KeyEvent;
  }

  /** Storing a Fn setting only does if something changes. */
  lemma FnStoreQueues(s: Bar, v: int)
    requires Shape(s) && 0 <= v <= 3 && s.late == 0
    ensures var s1 := Step(s, StoreFnMode(v)); var s2 := Step(s1, StoreDone(false));
      (s2.queued <==> s.queued || ChangesMode(s1) || ChangesDisp(s1)) && s2.late == 0
  {
    var s1 := Step(s, StoreFnMode(v));
    NotedChanges(s1);
    hide KeyEvent, ChangesMode, ChangesDisp, WantMode, WantDisp, AnyPressed;
  }

  lemma NotedChanges(s: Bar)
    requires s.late > 0
    ensures var n := s.(late := s.late - 1); ChangesMode(n) == ChangesMode(s) && ChangesDisp(n) == ChangesDisp(s)
  {
    assert AnyPressed(s.(late := s.late - 1)) == AnyPressed(s);
    hide AnyPressed;
  }

  // ----- the display

  /** On while the bar is used; always dimmed with a dim timeout of 0; off with an idle timeout of 0 or
      when the bar is disabled. */
  lemma WantedDisplay(s: Bar)
    ensures s.idleTimeout == -2 || s.idleTimeout == 0 ==> WantDisp(s) == DispOff
    ensures s.idleTimeout != -2 && s.idleTimeout != 0 ==> WantDisp(s) == if s.dimTimeout == 0 then DispDim else DispOn
    ensures s.idleTimeout == -2 <==> WantMode(s) == ModeOff
  {}

  /** Any input turns it back on: what is then in force is what is wanted, but that a key that is down
      keeps it from being turned off. */
  lemma InputRestoresDisplay(s: Bar, e: Event)
    requires Shape(s) && Request(s, e)
    ensures var s' := Step(s, e);
      && WantDisp(s') == WantDisp(Noted(s, e))
      && EffDisp(s') == if AnyPressed(s') && WantDisp(s') == DispOff then EffDisp(s) else WantDisp(s')
  {
    StepRequest(s, e);
    var n := Noted(s, e);
    assert EffDisp(n) == EffDisp(s);
    hide KeyEvent, Noted, EffMode, WantMode;
  }

  /** What the worker does with nothing new to transfer, `idle` seconds after the last input and no key
      down: off when the idle timeout has passed; dimmed when the dim timeout has, to come back for the
      idle timeout if there is one; later, if one of them is still to come; and nothing without any. */
  lemma TimeoutsTakeEffect(s: Bar, idle: nat)
    requires !AnyPressed(s)
    ensures var s' := FollowUp(s, idle);
      && (s.idleTimeout > 0 && idle >= s.idleTimeout ==> s'.worker == Dimming(DispOff, false) && s'.queued == s.queued)
      && (s.idleTimeout > 0 && idle < s.idleTimeout && s.dimTimeout > 0 && idle >= s.dimTimeout ==>
            s'.worker == Dimming(DispDim, true) && s'.queued == s.queued)
      && (s.idleTimeout == -1 && s.dimTimeout > 0 && idle >= s.dimTimeout ==>
            s'.worker == Dimming(DispDim, false) && s'.queued == s.queued)
      && (s.idleTimeout > 0 && idle < s.idleTimeout && (s.dimTimeout <= 0 || idle < s.dimTimeout) ==>
            s'.worker == Resting && s'.queued)
      && (s.idleTimeout == -1 && s.dimTimeout > 0 && idle < s.dimTimeout ==> s'.worker == Resting && s'.queued)
      && (s.idleTimeout == 0 || s.idleTimeout == -2 || (s.idleTimeout == -1 && s.dimTimeout <= 0) ==>
            s'.worker == Resting && s'.queued == s.queued)
  {}

  /** While a key is down the display is neither dimmed nor turned off. */
  lemma HeldKeyKeepsDisplay(s: Bar, idle: nat)
    requires AnyPressed(s)
    ensures FollowUp(s, idle).worker == Resting
    ensures FollowUp(s, idle).queued <==> s.queued || MinTimeout(s) > 0
  {}

  /** The dim or off write is recorded if it succeeds, and the run for the idle timeout follows. */
  lemma DimIsRecorded(s: Bar, ok: bool)
    requires Shape(s) && s.worker.Dimming?
    ensures var s' := Step(s, WorkerDim(ok));
      && s'.curDisp == (if ok then s.worker.next else s.curDisp) && s'.worker == Resting
      && (s'.queued <==> s.queued || s.worker.again)
      && s'.pndMode == s.pndMode && s'.pndDisp == s.pndDisp && s'.curMode == s.curMode
  {}

  /** After a transfer the device has what was sent, and a request for just that is answered. A newer request
      brings another run at once; without one the worker looks at the timeouts. */
  lemma NewerRequestIsServed(s: Bar, ok1: bool, ok2: bool, idle: nat)
    requires Shape(s) && s.worker.Running?
    ensures var s' := Step(s, WorkerCommit(ok1, ok2, idle)); var Running(m, d) := s.worker;
      var sent1, sent2 := m != ModeNone && ok1, d != DispNone && ok2;
      && s'.curMode == (if sent1 then m else s.curMode) && s'.curDisp == (if sent2 then d else s.curDisp)
      && s'.pndMode == (if sent1 && s.pndMode == m then ModeNone else s.pndMode)
      && s'.pndDisp == (if sent2 && s.pndDisp == d then DispNone else s.pndDisp)
      && if (sent1 && s.pndMode != m) || (sent2 && s.pndDisp != d) then s'.worker == Resting && s'.queued
         else s'.worker == FollowUp(s, idle).worker && s'.queued == FollowUp(s, idle).queued
  {
    SameFollowUp(s, Accepted(s, ok1, ok2), idle);
    hide FollowUp, KeyEvent;
  }

  lemma SameFollowUp(s: Bar, t: Bar, idle: nat)
    requires t == s.(curMode := t.curMode, pndMode := t.pndMode, curDisp := t.curDisp, pndDisp := t.pndDisp)
    ensures FollowUp(t, idle).worker == FollowUp(s, idle).worker && FollowUp(t, idle).queued == FollowUp(s, idle).queued
  {
    assert AnyPressed(t) == AnyPressed(s);
    hide AnyPressed;
  }

  /** The worker starts when it is queued and at rest, with what is asked for then. */
  lemma WorkerTakesRequests(s: Bar)
    requires Shape(s)
    ensures Step(s, WorkerStart) ==
      if s.queued && s.worker == Resting then s.(queued := false, worker := Running(s.pndMode, s.pndDisp)) else s
  {}

  /** After probing, one undisturbed run of the worker brings the device to the configured mode and
      display, an invalid Fn setting counting as 1. */
  lemma ProbeConfigures(fnMode: int, idleTimeout: int, dimTimeout: int, mode: Mode, disp: Disp, idle: nat)
    ensures var s := Probed(fnMode, idleTimeout, dimTimeout, mode, disp);
      var s' := Run(s, [WorkerStart, WorkerCommit(true, true, idle)]);
      && s.fnMode == (if 0 <= fnMode <= 3 then fnMode else 1) && s.idleTimeout == idleTimeout
      && (if dimTimeout == -2 then IsCalculated(idleTimeout, s.dimTimeout) else s.dimTimeout == dimTimeout)
      && !s.fnPressed && !AnyPressed(s) && s.curMode == mode && s.curDisp == disp
      && s'.curMode == WantMode(s) && s'.curDisp == WantDisp(s) && s'.pndMode == ModeNone && s'.pndDisp == DispNone
  {
    var s := Probed(fnMode, idleTimeout, dimTimeout, mode, disp);
    UndisturbedRunSettles(s, idle);
    hide Run;
  }
}
