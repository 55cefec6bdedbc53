/** The touch bar's mode and display requests (touchbar/src/apple-ib-tb.c): events ask for values
    under a lock, a worker snapshots them, talks to the device without the lock and then commits.
    Each locked section is one step; steps of worker and events interleave freely. */
module TouchBar {

  datatype Mode = ModeEsc | ModeFn | ModeSpcl | ModeOff | ModeUpd | ModeNone
  datatype Disp = DispOn | DispDim | DispOff | DispUpd | DispNone

  /** `Running` holds the snapshot, `Dimming` the display value written after the commit. */
  datatype Worker = Resting | Running(mode: Mode, disp: Disp) | Dimming(next: Disp, again: bool)

  const KEYS: nat := 13

  /** `late` and `lateForced` count the writers that have stored a setting, without the lock, and not
      yet asked for the update, the second kind for a forced one. */
  datatype Bar = Bar(pndMode: Mode, curMode: Mode, pndDisp: Disp, curDisp: Disp,
                     pressed: seq<bool>, translated: seq<bool>, fnPressed: bool, fnMode: int,
                     idleTimeout: int, dimTimeout: int, dimCalc: bool, late: nat, lateForced: nat,
                     queued: bool, worker: Worker)

  // ----- keys

  const KEY_ESC: nat := 1
  const KEY_F1: nat := 59
  const KEY_F10: nat := 68
  const KEY_F11: nat := 87
  const KEY_F12: nat := 88

  /** The slot of a touch bar key, -1 for any other key. */
  function Slot(code: nat): (slot: int)
    ensures -1 <= slot < KEYS
  {
    if code == KEY_ESC then 0
    else if KEY_F1 <= code <= KEY_F10 then code - KEY_F1 + 1
    else if code == KEY_F11 || code == KEY_F12 then code - KEY_F11 + 11
    else -1
  }

  const SPECIALS: seq<nat> := [224, 225, 120, 204, 229, 230, 165, 164, 163, 113, 114, 115]

  /** The special key a function key stands for, 0 if none. */
  function Special(code: nat): (to: nat)
    ensures Slot(code) >= 0 ==> (to != 0 <==> Slot(code) > 0)
  {
    if Slot(code) > 0 then SPECIALS[Slot(code) - 1] else 0
  }

  // ----- what is in force and what is wanted

  function EffMode(s: Bar): Mode { if s.pndMode != ModeNone then s.pndMode else s.curMode }
  function EffDisp(s: Bar): Disp { if s.pndDisp != DispNone then s.pndDisp else s.curDisp }

  predicate AnyPressed(s: Bar) { exists i | 0 <= i < |s.pressed| :: s.pressed[i] }

  function FnTbMode(s: Bar): (m: Mode)
    ensures m == ModeFn || m == ModeSpcl
  {
    if s.fnMode == 0 then ModeFn
    else if s.fnMode == 3 then ModeSpcl
    else if s.fnMode == 2 then (if s.fnPressed then ModeSpcl else ModeFn)
    else (if s.fnPressed then ModeFn else ModeSpcl)
  }

  function WantMode(s: Bar): (m: Mode)
    ensures m != ModeNone
  {
    if s.idleTimeout == -2 then ModeOff else FnTbMode(s)
  }

  function WantDisp(s: Bar): (d: Disp)
    ensures d != DispNone
  {
    if s.idleTimeout == -2 || s.idleTimeout == 0 then DispOff
    else if s.dimTimeout == 0 then DispDim
    else DispOn
  }

  // ----- the steps

  predicate ChangesMode(s: Bar) { EffMode(s) != WantMode(s) && !AnyPressed(s) }

  predicate ChangesDisp(s: Bar) { EffDisp(s) != WantDisp(s) && (!AnyPressed(s) || WantDisp(s) != DispOff) }

  /** appletb_update_touchbar_no_lock. */
  function Update(s: Bar, force: bool): (s': Bar) {
    s.(pndMode := if ChangesMode(s) then WantMode(s) else s.pndMode,
       pndDisp := if ChangesDisp(s) then WantDisp(s) else s.pndDisp,
       queued := s.queued || ChangesMode(s) || ChangesDisp(s) || force)
  }

  /** A setting is stored in two steps: the value without the lock, then the update. */
  datatype Event =
    | Key(code: nat, value: nat)
    | Input(isFn: bool, value: nat)
    | StoreIdle(v: int) | StoreDim(v: int) | StoreFnMode(v: int)
    | StoreDone(force: bool)
    | WorkerStart
    | WorkerCommit(ok1: bool, ok2: bool, idle: nat)
    | WorkerDim(ok: bool)

  predicate Shape(s: Bar) { |s.pressed| == |s.translated| == KEYS }

  datatype Output = Ignored | Passed | Dummy | Translated(code: nat)

  predicate IsOff(s: Bar) { s.curMode == ModeOff || s.curDisp == DispOff }

  function SetIdleTimeout(s: Bar, v: int): Bar {
    s.(idleTimeout := v,
       dimTimeout := if !s.dimCalc then s.dimTimeout
                     else if v > 0 then v - (if v / 3 < 30 then v / 3 else 30)
                     else -1)
  }

  function SetDimTimeout(s: Bar, v: int): Bar {
    if v == -2 then SetIdleTimeout(s.(dimCalc := true), s.idleTimeout) else s.(dimCalc := false, dimTimeout := v)
  }

  const INT_MAX: int := 0x7fff_ffff

  predicate ValidTimeout(v: int) { -2 <= v <= INT_MAX }

  /** The value of a setting is written; an invalid one is refused. */
  predicate Writes(e: Event) {
    match e
    case StoreIdle(v) => ValidTimeout(v)
    case StoreDim(v) => ValidTimeout(v)
    case StoreFnMode(v) => 0 <= v <= 3
    case _ => false
  }

  function Written(s: Bar, e: Event): (s': Bar)
    requires Writes(e)
  {
    match e
    case StoreIdle(v) => SetIdleTimeout(s, v).(lateForced := s.lateForced + 1)
    case StoreDim(v) => SetDimTimeout(s, v).(lateForced := s.lateForced + 1)
    case StoreFnMode(v) => s.(fnMode := v, late := s.late + 1)
  }

  /** An event that updates the touch bar: a touch bar key, other input, or the end of a store. */
  predicate Request(s: Bar, e: Event) {
    match e
    case Key(code, _) => Slot(code) >= 0
    case Input(_, _) => true
    case StoreDone(force) => if force then s.lateForced > 0 else s.late > 0
    case _ => false
  }

  /** What the event itself records, before the update. */
  function Noted(s: Bar, e: Event): (s': Bar)
    requires Shape(s) && Request(s, e)
    ensures Shape(s') && s'.pndMode == s.pndMode && s'.curMode == s.curMode
    ensures s'.pndDisp == s.pndDisp && s'.curDisp == s.curDisp
    ensures s'.translated == s.translated && s'.queued == s.queued && s'.worker == s.worker
    ensures !e.Key? ==> s'.pressed == s.pressed
  {
    match e
    case Key(code, value) => if value != 2 then s.(pressed := s.pressed[Slot(code) := value != 0]) else s
    case Input(isFn, value) => if isFn && value != 2 then s.(fnPressed := value != 0) else s
    case StoreDone(force) => if force then s.(lateForced := s.lateForced - 1) else s.(late := s.late - 1)
  }

  predicate Forced(e: Event) { e.StoreDone? && e.force }

  function Requested(s: Bar, e: Event): (s': Bar)
    requires Shape(s) && Request(s, e)
    ensures Shape(s') && s'.translated == s.translated
  {
    Update(Noted(s, e), Forced(e))
  }

  /** appletb_hid_event; `value` is 0 for release, 1 for press, 2 for repeat. */
  function KeyEvent(s: Bar, code: nat, value: nat): (r: (Bar, Output))
    requires Shape(s)
    ensures Shape(r.0)
  {
    if Slot(code) < 0 then (s, Ignored) else Classified(Requested(s, Key(code, value)), code, value)
  }

  /** Swallowed while the bar is off, translated or passed on. */
  function Classified(s: Bar, code: nat, value: nat): (r: (Bar, Output))
    requires Shape(s) && Slot(code) >= 0
    ensures Shape(r.0)
  {
    var slot := Slot(code);
    if IsOff(s) then (s, Dummy)
    else if Special(code) != 0 && ((value > 0 && EffMode(s) == ModeSpcl) || (value == 0 && s.translated[slot])) then
      (s.(translated := s.translated[slot := true]), Translated(Special(code)))
    else (s.(translated := s.translated[slot := false]), Passed)
  }

  function MinTimeout(s: Bar): int {
    if s.idleTimeout == -2 || s.idleTimeout == 0 then -1
    else if s.idleTimeout == -1 then s.dimTimeout
    else if s.dimTimeout <= 0 then s.idleTimeout
    else if s.dimTimeout < s.idleTimeout then s.dimTimeout else s.idleTimeout
  }

  /** The keys and the settings are the same. */
  predicate SameInputs(s: Bar, s': Bar) {
    && s'.pressed == s.pressed && s'.translated == s.translated
    && s'.fnPressed == s.fnPressed && s'.fnMode == s.fnMode && s'.idleTimeout == s.idleTimeout
    && s'.late == s.late && s'.lateForced == s.lateForced
  }

  /** What the worker does next when no newer request waits, `idle` seconds after the last event. */
  function FollowUp(s: Bar, idle: nat): (s': Bar)
    ensures SameInputs(s, s') && !s'.worker.Running? && (s.queued ==> s'.queued)
    ensures s'.pndMode == s.pndMode && s'.curMode == s.curMode && s'.pndDisp == s.pndDisp && s'.curDisp == s.curDisp
  {
    var min := MinTimeout(s);
    if min <= 0 then s.(worker := Resting)
    else if idle < min || AnyPressed(s) then s.(worker := Resting, queued := true)
    else
      var next := if s.idleTimeout > 0 && idle >= s.idleTimeout then DispOff else DispDim;
      s.(worker := Dimming(next, s.idleTimeout > 0 && idle < s.idleTimeout))
  }

  /** The second locked section of the worker. A transfer happened for each value in the snapshot;
      `ok1` and `ok2` say whether it succeeded. */
  function Commit(s: Bar, ok1: bool, ok2: bool, idle: nat): (s': Bar)
    requires s.worker.Running?
    ensures SameInputs(s, s')
  {
    if Superseded(s, ok1, ok2) then Accepted(s, ok1, ok2).(worker := Resting, queued := true)
    else FollowUp(Accepted(s, ok1, ok2), idle)
  }

  /** The device now has what was transferred; a request for just that is answered. */
  function Accepted(s: Bar, ok1: bool, ok2: bool): (s': Bar)
    requires s.worker.Running?
    ensures SameInputs(s, s')
  {
    var Running(m, d) := s.worker;
    var done1, done2 := m != ModeNone && ok1, d != DispNone && ok2;
    s.(curMode := if done1 then m else s.curMode,
       pndMode := if done1 && s.pndMode == m then ModeNone else s.pndMode,
       curDisp := if done2 then d else s.curDisp,
       pndDisp := if done2 && s.pndDisp == d then DispNone else s.pndDisp)
  }

  /** A newer request arrived while the worker was busy. */
  predicate Superseded(s: Bar, ok1: bool, ok2: bool)
    requires s.worker.Running?
  {
    var Running(m, d) := s.worker;
    (m != ModeNone && ok1 && s.pndMode != m) || (d != DispNone && ok2 && s.pndDisp != d)
  }

  /** The unlocked dim or off write at the end, and the commit of its value. */
  function FinishDim(s: Bar, ok: bool): Bar
    requires s.worker.Dimming?
  {
    s.(curDisp := if s.worker.next != s.curDisp && ok then s.worker.next else s.curDisp,
       queued := s.queued || s.worker.again, worker := Resting)
  }

  /** One step; a worker step that cannot happen now changes nothing. */
  function Step(s: Bar, e: Event): (s': Bar)
    requires Shape(s)
    ensures Shape(s')
  {
    match e
    case Key(code, value) => KeyEvent(s, code, value).0
    case WorkerStart =>
      if s.queued && s.worker.Resting? then s.(queued := false, worker := Running(s.pndMode, s.pndDisp)) else s
    case WorkerCommit(ok1, ok2, idle) => if s.worker.Running? then Commit(s, ok1, ok2, idle) else s
    case WorkerDim(ok) => if s.worker.Dimming? then FinishDim(s, ok) else s
    case Input(_, _) => Requested(s, e)
    case StoreDone(_) => if Request(s, e) then Requested(s, e) else s
    case StoreIdle(_) => if Writes(e) then Written(s, e) else s
    case StoreDim(_) => if Writes(e) then Written(s, e) else s
    case StoreFnMode(_) => if Writes(e) then Written(s, e) else s
  }

  /** A request is noted and answered by an update; only a key event touches `translated` too. */
  lemma StepRequest(s: Bar, e: Event)
    requires Shape(s)
    ensures Request(s, e) ==> Step(s, e) == Requested(s, e).(translated := Step(s, e).translated)
    ensures !e.Key? && Request(s, e) ==> Step(s, e).translated == s.translated
    ensures Writes(e) ==> Step(s, e) == Written(s, e)
    ensures (e.Key? || e.StoreDone?) && !Request(s, e) ==> Step(s, e) == s
  {
    hide Requested, Special;
  }

  function Run(s: Bar, es: seq<Event>): (s': Bar)
    requires Shape(s)
    ensures Shape(s')
    decreases |es|
  {
    if es == [] then s else Run(Step(s, es[0]), es[1..])
  }

  // ----- a commit takes nothing away

  /** A value in flight is still asked for, or has been replaced by a newer request. */
  predicate InFlight(s: Bar) {
    s.worker.Running? ==>
      && (s.worker.mode != ModeNone ==> s.pndMode != ModeNone)
      && (s.worker.disp != DispNone ==> s.pndDisp != DispNone)
  }

  lemma StepKeepsInFlight(s: Bar, e: Event)
    requires Shape(s) && InFlight(s)
    ensures InFlight(Step(s, e))
  {
    hide Noted, WantMode, WantDisp, KeyEvent, AnyPressed, EffMode, EffDisp, MinTimeout;
    StepRequest(s, e);
  }

  /** Whatever the transfers return, a commit leaves mode and display in force as they were: a value
      set after the snapshot is neither lost nor overridden. */
  lemma CommitKeepsEffective(s: Bar, ok1: bool, ok2: bool, idle: nat)
    requires Shape(s) && InFlight(s) && s.worker.Running?
    ensures var s' := Commit(s, ok1, ok2, idle);
      && EffMode(s') == EffMode(s) && EffDisp(s') == EffDisp(s)
      && (s.pndMode != s.worker.mode ==> s'.pndMode == s.pndMode)
      && (s.pndDisp != s.worker.disp ==> s'.pndDisp == s.pndDisp)
  {
    hide FollowUp;
    AcceptedKeepsEffective(s, ok1, ok2);
    hide Accepted, EffMode, EffDisp;
    var a, s' := Accepted(s, ok1, ok2), Commit(s, ok1, ok2, idle);
    SameEffective(a, s');
  }

  lemma SameEffective(s: Bar, s': Bar)
    requires s'.pndMode == s.pndMode && s'.curMode == s.curMode && s'.pndDisp == s.pndDisp && s'.curDisp == s.curDisp
    ensures EffMode(s') == EffMode(s) && EffDisp(s') == EffDisp(s)
  {}

  lemma AcceptedKeepsEffective(s: Bar, ok1: bool, ok2: bool)
    requires InFlight(s) && s.worker.Running?
    ensures var s' := Accepted(s, ok1, ok2);
      && EffMode(s') == EffMode(s) && EffDisp(s') == EffDisp(s)
      && (s.pndMode != s.worker.mode ==> s'.pndMode == s.pndMode)
      && (s.pndDisp != s.worker.disp ==> s'.pndDisp == s.pndDisp)
  {}

  // ----- a held key fixes the mode

  /** While a touch bar key is down the mode in force cannot change. */
  lemma HeldKeyFixesMode(s: Bar, e: Event)
    requires Shape(s) && InFlight(s) && AnyPressed(Step(s, e))
    ensures EffMode(Step(s, e)) == EffMode(s)
  {
    StepFacts(s, e);
    hide Step;
  }

  /** An update leaves the mode alone while a key is down, and else puts the wanted one in force. */
  lemma UpdateMode(s: Bar, force: bool)
    ensures var s' := Update(s, force);
      && s'.pressed == s.pressed && WantMode(s') == WantMode(s)
      && EffMode(s') == if AnyPressed(s) then EffMode(s) else WantMode(s)
  {}

  /** The worker's steps change neither keys nor settings nor the mode in force. */
  lemma WorkerFacts(s: Bar, e: Event)
    requires Shape(s) && InFlight(s) && !Request(s, e) && !Writes(e)
    ensures var s' := Step(s, e);
      && s'.pressed == s.pressed && s'.translated == s.translated && s'.late == s.late && s'.lateForced == s.lateForced
      && WantMode(s') == WantMode(s) && EffMode(s') == EffMode(s)
  {
    StepRequest(s, e);
    hide KeyEvent, Requested, Commit, AnyPressed, EffDisp, Written;
    if e.WorkerCommit? && s.worker.Running? { CommitKeepsEffective(s, e.ok1, e.ok2, e.idle); }
  }

  /** Writing a setting changes neither keys nor the mode in force; an update will follow. */
  lemma WriteFacts(s: Bar, e: Event)
    requires Shape(s) && Writes(e)
    ensures var s' := Step(s, e);
      && s'.pressed == s.pressed && s'.translated == s.translated && EffMode(s') == EffMode(s)
      && s'.late + s'.lateForced > 0
  {}

  /** All that matters of a step for keys and mode. */
  lemma StepFacts(s: Bar, e: Event)
    requires Shape(s) && InFlight(s)
    ensures var s' := Step(s, e);
      && s'.pressed == (if Request(s, e) then Noted(s, e).pressed else s.pressed)
      && (!e.Key? ==> s'.translated == s.translated)
      && (Writes(e) ==> s'.late + s'.lateForced > 0)
      && (!Writes(e) && !Request(s, e) ==>
            s'.late == s.late && s'.lateForced == s.lateForced && WantMode(s') == WantMode(s))
      && EffMode(s') == if Request(s, e) && !AnyPressed(s') then WantMode(s') else EffMode(s)
  {
    if Request(s, e) {
      StepRequest(s, e);
      UpdateMode(Noted(s, e), Forced(e));
      hide Step, Update, Noted;
    } else if Writes(e) {
      WriteFacts(s, e);
      hide Step, Written;
    } else {
      WorkerFacts(s, e);
      hide Step;
    }
  }

  predicate Releases(e: Event, slot: int) { e.Key? && Slot(e.code) == slot && e.value == 0 }

  /** Slot `slot` is held in a hold whose press was translated (`t`) or not. */
  predicate Holding(s: Bar, slot: nat, code: nat, t: bool)
    requires Shape(s)
  {
    && slot < KEYS && Slot(code) == slot && s.pressed[slot] && s.translated[slot] == t
    && t == (Special(code) != 0 && EffMode(s) == ModeSpcl)
  }

  /** Only its own key events touch what is remembered of a key. */
  lemma StepPresses(s: Bar, e: Event, slot: nat)
    requires Shape(s) && InFlight(s) && slot < KEYS && s.pressed[slot] && !Releases(e, slot)
    ensures Step(s, e).pressed[slot]
    ensures !(e.Key? && Slot(e.code) == slot) ==> Step(s, e).translated[slot] == s.translated[slot]
  {
    hide Step, Slot;
    StepFacts(s, e);
    if e.Key? && Slot(e.code) != slot { KeyTouchesOwn(s, e.code, e.value, slot); }
  }

  lemma KeyTouchesOwn(s: Bar, code: nat, value: nat, slot: nat)
    requires Shape(s) && slot < KEYS && Slot(code) != slot
    ensures Step(s, Key(code, value)).translated[slot] == s.translated[slot]
  {
    hide Requested, Special, Slot, EffMode, IsOff;
  }

  lemma StepKeepsHolding(s: Bar, e: Event, slot: nat, code: nat, t: bool)
    requires Shape(s) && InFlight(s) && Holding(s, slot, code, t) && !Releases(e, slot)
    ensures Holding(Step(s, e), slot, code, t)
  {
    StepPresses(s, e, slot);
    HeldKeyFixesMode(s, e);
    if e.Key? && Slot(e.code) == slot {
      assert e.code == code;
      hide Update, Noted, WantMode, WantDisp;
      StepRequest(s, e);
    } else {
      hide *;
    }
  }

  /** From a press on, through any steps that do not release the key, every further event of the key
      that is not swallowed because the bar is off is translated exactly if the press was. */
  lemma {:induction false} HoldIsConsistent(s: Bar, es: seq<Event>, slot: nat, code: nat, t: bool, value: nat)
    requires Shape(s) && InFlight(s) && Holding(s, slot, code, t)
    requires forall e :: e in es ==> !Releases(e, slot)
    ensures var out := KeyEvent(Run(s, es), code, value).1; out != Dummy ==> (out.Translated? <==> t)
    decreases |es|
  {
    if es == [] {
      if value != 0 {
        StepPresses(s, Key(code, value), slot);
        HeldKeyFixesMode(s, Key(code, value));
      }
    } else {
      assert es[0] in es && forall e :: e in es[1..] ==> e in es;
      StepKeepsHolding(s, es[0], slot, code, t);
      StepKeepsInFlight(s, es[0]);
      HoldIsConsistent(Step(s, es[0]), es[1..], slot, code, t, value);
    }
  }

  /** A press that is not swallowed starts such a hold. */
  lemma PressStartsHold(s: Bar, code: nat)
    requires Shape(s) && InFlight(s) && Slot(code) >= 0 && KeyEvent(s, code, 1).1 != Dummy
    ensures var (s', out) := KeyEvent(s, code, 1);
      InFlight(s') && Holding(s', Slot(code), code, out.Translated?)
  {
    StepKeepsInFlight(s, Key(code, 1));
  }

  /** Key-hold consistency: press, repeats and release of one hold are all translated or all not,
      whatever happens in between, as long as the bar is not off at them. */
  lemma KeyHoldConsistency(s: Bar, code: nat, es: seq<Event>, value: nat)
    requires Shape(s) && InFlight(s) && Slot(code) >= 0
    requires forall e :: e in es ==> !Releases(e, Slot(code))
    ensures var (s1, press) := KeyEvent(s, code, 1); var later := KeyEvent(Run(s1, es), code, value).1;
      press != Dummy && later != Dummy ==> (later.Translated? <==> press.Translated?)
  {
    var (s1, press) := KeyEvent(s, code, 1);
    if press != Dummy {
      PressStartsHold(s, code);
      HoldIsConsistent(s1, es, Slot(code), code, press.Translated?, value);
    }
  }

  // ----- no request is stranded

  /** A request that waits has a worker run queued, or is the one in flight. */
  predicate Served(s: Bar) {
    match s.worker
    case Running(m, d) =>
      && (s.pndMode != ModeNone && s.pndMode != m ==> s.queued)
      && (s.pndDisp != DispNone && s.pndDisp != d ==> s.queued)
    case _ => s.pndMode != ModeNone || s.pndDisp != DispNone ==> s.queued
  }

  /** A pending value with no run queued, none in flight, and none to follow the dim write. */
  predicate Stranded(s: Bar) {
    && (s.pndMode != ModeNone || s.pndDisp != DispNone)
    && !s.queued && !s.worker.Running? && !(s.worker.Dimming? && s.worker.again)
  }

  predicate Succeeds(e: Event) { e.WorkerCommit? ==> e.ok1 && e.ok2 }

  lemma StepKeepsServed(s: Bar, e: Event)
    requires Shape(s) && Served(s) && Succeeds(e)
    ensures Served(Step(s, e))
  {
    hide KeyEvent, Requested, Written, FollowUp, Commit;
    StepRequest(s, e);
    if Request(s, e) { RequestKeepsServed(s, e); hide Step; }
    else if Writes(e) { WriteKeepsServed(s, e); hide Step; }
    else if e.WorkerCommit? && s.worker.Running? { CommitKeepsServed(s, e.idle); }
  }

  lemma RequestKeepsServed(s: Bar, e: Event)
    requires Shape(s) && Served(s) && Request(s, e)
    ensures Served(Requested(s, e))
  {
    hide Noted, WantMode, WantDisp, EffMode, EffDisp, AnyPressed;
  }

  lemma WriteKeepsServed(s: Bar, e: Event)
    requires Served(s) && Writes(e)
    ensures Served(Written(s, e))
  {}

  lemma CommitKeepsServed(s: Bar, idle: nat)
    requires Served(s) && s.worker.Running?
    ensures Served(Commit(s, true, true, idle))
  {
    hide FollowUp;
  }

  /** When transfers succeed no request is ever stranded. */
  lemma {:induction false} NoStrandedRequest(s: Bar, es: seq<Event>)
    requires Shape(s) && Served(s) && forall e :: e in es ==> Succeeds(e)
    ensures Served(Run(s, es)) && !Stranded(Run(s, es))
    decreases |es|
  {
    if es != [] {
      assert es[0] in es && forall e :: e in es[1..] ==> e in es;
      StepKeepsServed(s, es[0]);
      NoStrandedRequest(Step(s, es[0]), es[1..]);
    }
  }

  /** The timeouts bring another run, at once or after the dim write. */
  predicate RunFollows(s: Bar, idle: nat) {
    MinTimeout(s) > 0 && (idle < MinTimeout(s) || AnyPressed(s) || idle < s.idleTimeout)
  }

  /** A commit strands a request exactly when one of its transfers failed, nothing newer was queued
      and the timeouts bring no further run. */
  lemma CommitStrandsIff(s: Bar, ok1: bool, ok2: bool, idle: nat)
    requires Shape(s) && InFlight(s) && Served(s) && s.worker.Running?
    ensures Stranded(Commit(s, ok1, ok2, idle)) <==>
      && ((s.worker.mode != ModeNone && !ok1) || (s.worker.disp != DispNone && !ok2))
      && !s.queued && !RunFollows(s, idle)
  {
    assert AnyPressed(Commit(s, ok1, ok2, idle)) == AnyPressed(s);
  }

  /** The event makes an update that queues a run: it wants something else, or is forced. */
  predicate Asks(s: Bar, e: Event)
    requires Shape(s)
  {
    Request(s, e) && (ChangesMode(Noted(s, e)) || ChangesDisp(Noted(s, e)) || Forced(e))
  }

  /** Only such an event ends it: a stranded request does not get served by itself. */
  lemma StrandedUntilAsked(s: Bar, e: Event)
    requires Shape(s) && Stranded(s)
    ensures Stranded(Step(s, e)) <==> !Asks(s, e)
  {
    StepRequest(s, e);
    hide Noted, WantMode, WantDisp, EffMode, EffDisp, AnyPressed, KeyEvent;
  }

  predicate NeverAsks(s: Bar, es: seq<Event>)
    requires Shape(s)
    decreases |es|
  {
    es == [] || (!Asks(s, es[0]) && NeverAsks(Step(s, es[0]), es[1..]))
  }

  predicate StrandedThroughout(s: Bar, es: seq<Event>)
    requires Shape(s)
    decreases |es|
  {
    Stranded(s) && (es == [] || StrandedThroughout(Step(s, es[0]), es[1..]))
  }

  /** It stays stranded all along a run if and only if the run never asks. */
  lemma {:induction false} StrandedThroughoutIff(s: Bar, es: seq<Event>)
    requires Shape(s) && Stranded(s)
    ensures StrandedThroughout(s, es) <==> NeverAsks(s, es)
    decreases |es|
  {
    if es != [] {
      StrandedUntilAsked(s, es[0]);
      hide Step, Stranded, Asks;
      if Stranded(Step(s, es[0])) { StrandedThroughoutIff(Step(s, es[0]), es[1..]); }
    }
  }

  /** A run of the worker that nothing disturbs brings the device to what is in force. */
  lemma UndisturbedRunSettles(s: Bar, idle: nat)
    requires Shape(s) && Served(s) && s.queued && s.worker.Resting?
    ensures var s' := Run(s, [WorkerStart, WorkerCommit(true, true, idle)]);
      && s'.pndMode == ModeNone && s'.pndDisp == DispNone
      && s'.curMode == EffMode(s) && s'.curDisp == EffDisp(s)
  {
    var e1, e2 := WorkerStart, WorkerCommit(true, true, idle);
    var s1 := Step(s, e1);
    assert [e1, e2][1..] == [e2] && [e2][1..] == [];
    assert Run(s, [e1, e2]) == Run(s1, [e2]) == Step(s1, e2);
  }

  // ----- the mode in force is the wanted one

  /** With no key down and no store under way, what is in force is what the settings and the Fn key
      ask for. */
  predicate Settled(s: Bar) { !AnyPressed(s) && s.late + s.lateForced == 0 ==> EffMode(s) == WantMode(s) }

  lemma StepKeepsSettled(s: Bar, e: Event)
    requires Shape(s) && InFlight(s) && Settled(s)
    ensures Settled(Step(s, e))
  {
    StepFacts(s, e);
    hide Step, WantMode, EffMode;
  }

  /** A mode change held back by a key is not forgotten: whenever no key is down and no store is
      half done, the mode in force is the wanted one, even if transfers fail. */
  lemma {:induction false} HeldBackModeIsApplied(s: Bar, es: seq<Event>)
    requires Shape(s) && InFlight(s) && Settled(s)
    ensures InFlight(Run(s, es)) && Settled(Run(s, es))
    decreases |es|
  {
    if es != [] {
      StepKeepsInFlight(s, es[0]);
      StepKeepsSettled(s, es[0]);
      HeldBackModeIsApplied(Step(s, es[0]), es[1..]);
    }
  }

  /** The state after probing, whatever mode and display the device has: both values to be set, then
      the first update. */
  function Probed(fnMode: int, idleTimeout: int, dimTimeout: int, mode: Mode, disp: Disp): (s: Bar)
    ensures Shape(s) && InFlight(s) && Served(s) && Settled(s)
  {
    var none := seq(KEYS, _ => false);
    var s := Bar(ModeUpd, mode, DispUpd, disp, none, none, false,
                 if 0 <= fnMode <= 3 then fnMode else 1, 0, 0, false, 0, 0, false, Resting);
    Update(SetDimTimeout(SetIdleTimeout(s, idleTimeout), dimTimeout), false)
  }

  /** A stranded request: without timeouts, a first mode transfer that fails is never repeated. */
  lemma FailedTransferStrands(mode: Mode, disp: Disp)
    ensures var s := Run(Probed(1, -1, -1, mode, disp), [WorkerStart, WorkerCommit(false, true, 0)]);
      s.pndMode == ModeSpcl && s.pndDisp == DispNone && Stranded(s)
  {
    var s0 := Probed(1, -1, -1, mode, disp);
    var e1, e2 := WorkerStart, WorkerCommit(false, true, 0);
    var s1 := Step(s0, e1);
    assert [e1, e2][1..] == [e2] && [e2][1..] == [];
    assert Run(s0, [e1, e2]) == Run(s1, [e2]) == Step(s1, e2);
  }
}
