/** The touch bar device structure and its locked sections (touchbar/src/apple-ib-tb.c:341-830), each
    proved to act on the device's view as module TouchBar says. */
module TouchBarDevice {
  import opened TouchBar

  class AppleTb {
    const lastPressed: array<bool>
    const lastTranslated: array<bool>
    var lastFnPressed: bool
    var curMode: Mode
    var pndMode: Mode
    var curDisp: Disp
    var pndDisp: Disp
    var dimTimeout: int
    var idleTimeout: int
    var dimToIsCalc: bool
    var fnMode: int
    var queued: bool    // the delayed work is scheduled
    var worker: Worker
    ghost var late: nat        // writers between a stored setting and its update
    ghost var lateForced: nat

    ghost function View(): (s: Bar)
      reads this, lastPressed, lastTranslated
    {
      Bar(pndMode, curMode, pndDisp, curDisp, lastPressed[..], lastTranslated[..], lastFnPressed, fnMode,
          idleTimeout, dimTimeout, dimToIsCalc, late, lateForced, queued, worker)
    }

    ghost predicate Valid()
      reads this, lastPressed, lastTranslated
    {
      Shape(View()) && lastPressed != lastTranslated
    }

    /** The touch bar as the probe leaves it, whatever mode and display the device has. */
    constructor (defFnMode: int, defIdleTimeout: int, defDimTimeout: int, mode: Mode, disp: Disp)
      ensures Valid() && View() == Probed(defFnMode, defIdleTimeout, defDimTimeout, mode, disp)
      ensures fresh(lastPressed) && fresh(lastTranslated)
    {
      lastPressed := new bool[KEYS](_ => false);
      lastTranslated := new bool[KEYS](_ => false);
      lastFnPressed := false;
      curMode, curDisp, pndMode, pndDisp := mode, disp, ModeUpd, DispUpd;
      fnMode := if 0 <= defFnMode <= 3 then defFnMode else 1;
      idleTimeout, dimTimeout, dimToIsCalc := 0, 0, false;
      queued, worker, late, lateForced := false, Resting, 0, 0;
      new;
      ghost var none := seq(KEYS, _ => false);
      assert lastPressed[..] == none && lastTranslated[..] == none;
      SetIdle(defIdleTimeout);
      SetDim(defDimTimeout);
      UpdateTouchbarNoLock(false);
    }

    method AnyTbKeyPressed() returns (any: bool)
      requires Valid()
      ensures any == AnyPressed(View())
    {
      ghost var keys := lastPressed[..];
      for i := 0 to KEYS
        invariant forall j :: 0 <= j < i ==> !keys[j]
      {
        assert keys[i] == lastPressed[i];
        if lastPressed[i] { return true; }
      }
      return false;
    }

    method GetFnTbMode() returns (m: Mode)
      requires Valid()
      ensures m == FnTbMode(View())
    {
      match fnMode
      case 0 => m := ModeFn;
      case 3 => m := ModeSpcl;
      case 2 => m := if lastFnPressed then ModeSpcl else ModeFn;
      case _ => m := if lastFnPressed then ModeFn else ModeSpcl;
    }

    method Wanted() returns (wantMode: Mode, wantDisp: Disp)
      requires Valid()
      ensures wantMode == WantMode(View()) && wantDisp == WantDisp(View())
    {
      if idleTimeout == -2 {
        wantMode, wantDisp := ModeOff, DispOff;
      } else {
        wantMode := GetFnTbMode();
        wantDisp := if idleTimeout == 0 then DispOff else if dimTimeout == 0 then DispDim else DispOn;
      }
    }

    /** Asks for the wanted mode and display where they are not in force and no key forbids it. */
    method UpdateTouchbarNoLock(force: bool)
      requires Valid()
      modifies this`pndMode, this`pndDisp, this`queued
      ensures Valid() && View() == Update(old(View()), force)
    {
      var wantMode, wantDisp := Wanted();
      var any := AnyTbKeyPressed();
      hide WantMode, WantDisp, AnyPressed;
      var needUpdate := false;
      if (if pndMode != ModeNone then pndMode else curMode) != wantMode && !any {
        pndMode := wantMode;
        needUpdate := true;
      }
      if (if pndDisp != DispNone then pndDisp else curDisp) != wantDisp && (!any || wantDisp != DispOff) {
        pndDisp := wantDisp;
        needUpdate := true;
      }
      if force { needUpdate := true; }
      if needUpdate { queued := true; }
    }

    /** Decides between swallowing, translating and passing on a touch bar key. */
    method HidEvent(code: nat, value: nat) returns (out: Output)
      requires Valid()
      modifies this`pndMode, this`pndDisp, this`queued, lastPressed, lastTranslated
      ensures Valid() && (View(), out) == KeyEvent(old(View()), code, value)
    {
      ghost var s0 := View();
      var slot := Slot(code);
      if slot < 0 { return Ignored; }
      var newCode := Special(code);
      if value != 2 {
        lastPressed[slot] := value != 0;
        assert lastPressed[..] == s0.pressed[slot := value != 0];
      }
      assert View() == Noted(s0, Key(code, value));
      UpdateTouchbarNoLock(false);
      out := Classify(code, newCode, slot, value);
    }

    method Classify(code: nat, newCode: nat, slot: nat, value: nat) returns (out: Output)
      requires Valid() && slot == Slot(code) && newCode == Special(code)
      modifies lastTranslated
      ensures Valid() && (View(), out) == Classified(old(View()), code, value)
    {
      ghost var s1 := View();
      if curMode == ModeOff || curDisp == DispOff { return Dummy; }
      var eff := if pndMode != ModeNone then pndMode else curMode;
      if newCode != 0 && ((value > 0 && eff == ModeSpcl) || (value == 0 && lastTranslated[slot])) {
        lastTranslated[slot] := true;
        out := Translated(newCode);
      } else {
        lastTranslated[slot] := false;
        out := Passed;
      }
      assert lastTranslated[..] == s1.translated[slot := out.Translated?];
    }

    method InpEvent(isFn: bool, value: nat)
      requires Valid()
      modifies this`lastFnPressed, this`pndMode, this`pndDisp, this`queued
      ensures Valid() && View() == Step(old(View()), Input(isFn, value))
    {
      if isFn && value != 2 { lastFnPressed := value != 0; }
      UpdateTouchbarNoLock(false);
    }

    method SetIdle(v: int)
      requires Valid()
      modifies this`idleTimeout, this`dimTimeout
      ensures Valid() && View() == SetIdleTimeout(old(View()), v)
    {
      idleTimeout := v;
      if dimToIsCalc && idleTimeout > 0 {
        dimTimeout := v - (if v / 3 < 30 then v / 3 else 30);
      } else if dimToIsCalc {
        dimTimeout := -1;
      }
    }

    method SetDim(v: int)
      requires Valid()
      modifies this`dimToIsCalc, this`idleTimeout, this`dimTimeout
      ensures Valid() && View() == SetDimTimeout(old(View()), v)
    {
      if v == -2 {
        dimToIsCalc := true;
        SetIdle(idleTimeout);
      } else {
        dimToIsCalc := false;
        dimTimeout := v;
      }
    }

    /** The first half of a store: the value is checked and written, without the lock. */
    method WriteSetting(e: Event) returns (ok: bool)
      requires Valid() && (e.StoreIdle? || e.StoreDim? || e.StoreFnMode?)
      modifies this`fnMode, this`dimToIsCalc, this`idleTimeout, this`dimTimeout, this`late, this`lateForced
      ensures Valid() && View() == Step(old(View()), e) && ok == Writes(e)
    {
      ok := true;
      match e
      case StoreIdle(v) =>
        if v > INT_MAX || v < -2 { return false; }
        SetIdle(v);
        lateForced := lateForced + 1;
      case StoreDim(v) =>
        if v > INT_MAX || v < -2 { return false; }
        SetDim(v);
        lateForced := lateForced + 1;
      case StoreFnMode(v) =>
        if v > 3 || v < 0 { return false; }
        fnMode := v;
        late := late + 1;
    }

    /** The second half: the update, under the lock. Anything may have happened in between. */
    method UpdateTouchbar(force: bool)
      requires Valid() && Request(View(), StoreDone(force))
      modifies this`late, this`lateForced, this`pndMode, this`pndDisp, this`queued
      ensures Valid() && View() == Step(old(View()), StoreDone(force))
    {
      if force { lateForced := lateForced - 1; } else { late := late - 1; }
      UpdateTouchbarNoLock(force);
    }

    method IdleTimeoutStore(v: int)
      requires Valid()
      modifies this
      ensures Valid()
      ensures View() == if ValidTimeout(v) then Step(Step(old(View()), StoreIdle(v)), StoreDone(true)) else old(View())
    {
      var ok := WriteSetting(StoreIdle(v));
      if ok { UpdateTouchbar(true); }
    }

    method DimTimeoutStore(v: int)
      requires Valid()
      modifies this
      ensures Valid()
      ensures View() == if ValidTimeout(v) then Step(Step(old(View()), StoreDim(v)), StoreDone(true)) else old(View())
    {
      var ok := WriteSetting(StoreDim(v));
      if ok { UpdateTouchbar(true); }
    }

    method FnmodeStore(v: int)
      requires Valid()
      modifies this
      ensures Valid()
      ensures View() == if 0 <= v <= 3 then Step(Step(old(View()), StoreFnMode(v)), StoreDone(false)) else old(View())
    {
      var ok := WriteSetting(StoreFnMode(v));
      if ok { UpdateTouchbar(false); }
    }

    /** The worker's first locked section: it starts when it was queued. */
    method WorkerSnapshot()
      requires Valid() && queued && worker.Resting?
      modifies this`queued, this`worker
      ensures Valid() && View() == Step(old(View()), WorkerStart)
    {
      queued := false;
      worker := Running(pndMode, pndDisp);
    }

    /** The worker's second locked section and its choice of the next run. */
    method WorkerFinish(ok1: bool, ok2: bool, idle: nat)
      requires Valid() && worker.Running?
      modifies this`curMode, this`pndMode, this`curDisp, this`pndDisp, this`queued, this`worker
      ensures Valid() && View() == Step(old(View()), WorkerCommit(ok1, ok2, idle))
    {
      var needReschedule := CommitValues(ok1, ok2);
      hide Accepted, Superseded, FollowUp;
      if needReschedule {
        queued := true;
        worker := Resting;
      } else {
        ScheduleNext(idle);
      }
    }

    method CommitValues(ok1: bool, ok2: bool) returns (needReschedule: bool)
      requires Valid() && worker.Running?
      modifies this`curMode, this`pndMode, this`curDisp, this`pndDisp
      ensures Valid() && View() == Accepted(old(View()), ok1, ok2)
      ensures needReschedule == Superseded(old(View()), ok1, ok2)
    {
      var pendingMode, pendingDisp := worker.mode, worker.disp;
      needReschedule := false;
      if pendingMode != ModeNone && ok1 {
        curMode := pendingMode;
        if pndMode == pendingMode { pndMode := ModeNone; } else { needReschedule := true; }
      }
      if pendingDisp != DispNone && ok2 {
        curDisp := pendingDisp;
        if pndDisp == pendingDisp { pndDisp := DispNone; } else { needReschedule := true; }
      }
    }

    method ScheduleNext(idle: nat)
      requires Valid()
      modifies this`queued, this`worker
      ensures Valid() && View() == FollowUp(old(View()), idle)
    {
      var minTimeout;
      if idleTimeout == -2 || idleTimeout == 0 {
        minTimeout := -1;
      } else if idleTimeout == -1 {
        minTimeout := dimTimeout;
      } else if dimTimeout <= 0 {
        minTimeout := idleTimeout;
      } else {
        minTimeout := if dimTimeout < idleTimeout then dimTimeout else idleTimeout;
      }
      var timeLeft := if minTimeout - idle > 0 then minTimeout - idle else 0;
      var timeToOff := if idleTimeout <= 0 then -1 else if idle >= idleTimeout then 0 else idleTimeout - idle;
      var any := AnyTbKeyPressed();
      hide AnyPressed;
      worker := Resting;
      if minTimeout > 0 {
        if timeLeft > 0 || any {
          queued := true;
        } else {
          worker := Dimming(if timeToOff == 0 then DispOff else DispDim, timeToOff > 0);
        }
      }
    }

    method WorkerSetsDim(ok: bool)
      requires Valid() && worker.Dimming?
      modifies this`curDisp, this`queued, this`worker
      ensures Valid() && View() == Step(old(View()), WorkerDim(ok))
    {
      if worker.next != curDisp && ok { curDisp := worker.next; }
      if worker.again { queued := true; }
      worker := Resting;
    }
  }
}
