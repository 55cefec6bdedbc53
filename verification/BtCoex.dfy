/** The Bluetooth-coexistence DHCP session (wifi-bcm4350/src/btcoex.c): saved and overridden
    registers, a timer and a work item. API calls, timer callback and work handler are atomic steps
    in any order; register reads and writes succeed. */
module BtCoex {
  import opened Basics

  datatype State = Idle | Start | Window | Force

  /** The three registers of the first step and the five of the second. */
  datatype Part1 = Part1(r66: nat, r41: nat, r68: nat)
  datatype Part2 = Part2(r50: nat, r51: nat, r64: nat, r65: nat, r71: nat)

  const DHCP1 := Part1(0x2710, 0x33, 0x190)
  const DHCP2 := Part2(0x8022, 0, 0, 0, 0)
  const WINDOW: nat := 2000  // opportunity window in ticks

  /** `timerOn` is the driver's flag, `armed` the kernel timer itself, `work` a queued handler run;
      `regs1` and `regs2` are the firmware's registers. */
  datatype Coex = Coex(state: State, timerOn: bool, armed: bool, work: bool, dhcpDone: bool, timeout: nat,
                       vif: Option<nat>, saved1: Option<Part1>, saved2: Option<Part2>, regs1: Part1, regs2: Part2)

  // ----- the pieces

  function SavePart1(c: Coex): Coex { if c.saved1.None? then c.(saved1 := Some(c.regs1)) else c }

  function RestorePart1(c: Coex): Coex {
    if c.saved1.Some? then c.(saved1 := None, regs1 := c.saved1.value) else c
  }

  /** Note the middle case: a second boost would restore. */
  function BoostWifi(c: Coex, trump: bool): Coex {
    if trump && c.saved2.None? then c.(saved2 := Some(c.regs2), regs2 := DHCP2)
    else if c.saved2.Some? then c.(saved2 := None, regs2 := c.saved2.value)
    else c
  }

  function DhcpStart(c: Coex): Coex {
    SavePart1(c).(regs1 := DHCP1, dhcpDone := false, state := Start, work := true)
  }

  function DhcpEnd(c: Coex): Coex {
    if c.timerOn then c.(dhcpDone := true, timerOn := false, armed := false, work := c.work || c.state != Idle)
    else RestorePart1(c.(dhcpDone := true))
  }

  function GoIdle(c: Coex): Coex {
    RestorePart1(BoostWifi(c.(state := Idle, timerOn := false), false)).(vif := None)
  }

  /** One run of the work handler. */
  function Handler(c: Coex): Coex {
    var c0 := c.(work := false, timerOn := false, armed := c.armed && !c.timerOn);
    match c0.state
    case Start =>
      c0.(state := Window, timerOn := true, armed := true,
          timeout := if c0.timeout < WINDOW then c0.timeout else c0.timeout - WINDOW)
    case Window =>
      if c0.dhcpDone then GoIdle(c0)
      else BoostWifi(c0, true).(state := Force, timerOn := true, armed := true)
    case Force => GoIdle(c0)
    case Idle => GoIdle(c0)
  }

  datatype Event =
    | Disable(vif: nat, sco: bool, duration: nat)  // the DHCP session starts
    | Enable(vif: nat)                             // and ends
    | TimerFires
    | WorkRuns
    | Reprogram(regs1: Part1, regs2: Part2)        // someone else sets the registers between sessions

  /** `before` is what the registers held when last nobody had overridden them. */
  datatype World = World(c: Coex, before1: Part1, before2: Part2)

  function Step(w: World, e: Event): (w': World) {
    var c := w.c;
    match e
    case Disable(vif, sco, duration) =>
      if c.state != Idle || !sco then w else w.(c := DhcpStart(c.(timeout := duration, vif := Some(vif))))
    case Enable(vif) => if c.state != Idle && c.vif == Some(vif) then w.(c := DhcpEnd(c)) else w
    case TimerFires => if c.armed then w.(c := c.(armed := false, timerOn := false, work := true)) else w
    case WorkRuns => if c.work then w.(c := Handler(c)) else w
    case Reprogram(r1, r2) => if c.state == Idle then World(c.(regs1 := r1, regs2 := r2), r1, r2) else w
  }

  function Run(w: World, es: seq<Event>): (w': World)
    decreases |es|
  {
    if es == [] then w else Run(Step(w, es[0]), es[1..])
  }

  // ----- the session invariant

  /** Every override can be undone: what is saved, or else what is in the register, is what was there
      before the session. */
  predicate Undoable(w: World) {
    && w.before1 == (if w.c.saved1.Some? then w.c.saved1.value else w.c.regs1)
    && w.before2 == (if w.c.saved2.Some? then w.c.saved2.value else w.c.regs2)
  }

  predicate Inv(w: World) {
    var c := w.c;
    && Undoable(w)
    && c.timerOn == c.armed
    && (c.saved2.Some? <==> c.state == Force) && (c.state == Start ==> c.work)
    && (if c.state == Idle then !c.work && !c.armed && c.vif.None? && c.saved1.None?
        else c.vif.Some? && (c.work <==> !c.armed))
  }

  lemma StepKeepsInv(w: World, e: Event)
    requires Inv(w)
    ensures Inv(Step(w, e))
  {}

  /** In every run: an active session has exactly one of a queued handler run and an armed timer; an
      idle one has neither, so the handler never meets the idle state, and all eight registers are
      back to what they were. The interface is known whenever it is needed. */
  lemma {:induction false} SessionInvariant(w: World, es: seq<Event>)
    requires Inv(w)
    ensures var w' := Run(w, es); var c := w'.c;
      && Inv(w')
      && (c.state != Idle ==> (c.work != c.armed) && c.vif.Some?)
      && (c.work ==> c.state != Idle)
      && (c.state == Idle ==> !c.work && !c.armed && c.regs1 == w'.before1 && c.regs2 == w'.before2)
    decreases |es|
  {
    if es != [] {
      StepKeepsInv(w, es[0]);
      SessionInvariant(Step(w, es[0]), es[1..]);
    }
  }

  /** The registers before a session are those after it: only others change them. */
  lemma {:induction false} RegistersRestored(w: World, es: seq<Event>)
    requires Inv(w) && forall e :: e in es ==> !e.Reprogram?
    ensures var w' := Run(w, es);
      && w'.before1 == w.before1 && w'.before2 == w.before2
      && (w.c.state == Idle && w'.c.state == Idle ==> w'.c.regs1 == w.c.regs1 && w'.c.regs2 == w.c.regs2)
    decreases |es|
  {
    if es != [] {
      assert es[0] in es && forall e :: e in es[1..] ==> e in es;
      StepKeepsInv(w, es[0]);
      RegistersRestored(Step(w, es[0]), es[1..]);
      if w.c.state == Idle { SessionInvariant(w, es); }
    }
  }

  // ----- a session ends

  function HandlerRunsLeft(s: State): nat {
    match s
    case Idle => 0
    case Force => 1
    case Window => 2
    case Start => 3
  }

  /** Handler runs of the session that is active in `w`, within `es`. */
  function SessionRuns(w: World, es: seq<Event>): nat
    decreases |es|
  {
    if es == [] || w.c.state == Idle then 0
    else (if es[0].WorkRuns? && w.c.work then 1 else 0) + SessionRuns(Step(w, es[0]), es[1..])
  }

  /** A session takes at most three handler runs, and something is always about to bring the next. */
  lemma {:induction false} SessionEnds(w: World, es: seq<Event>)
    requires Inv(w)
    ensures SessionRuns(w, es) <= HandlerRunsLeft(w.c.state) <= 3
    ensures w.c.state != Idle ==> w.c.work || w.c.armed
    decreases |es|
  {
    if es != [] && w.c.state != Idle {
      StepKeepsInv(w, es[0]);
      SessionEnds(Step(w, es[0]), es[1..]);
    }
  }

  // ----- what a session does

  /** A session starts exactly on an idle machine with a SCO connection: work is queued, the first
      registers are overridden, the others are not, and nothing else changes. */
  lemma StartIff(w: World, v: nat, sco: bool, duration: nat)
    requires Inv(w)
    ensures var w' := Step(w, Disable(v, sco, duration));
      if w.c.state == Idle && sco then
        && w'.c.state == Start && w'.c.work && !w'.c.armed && w'.c.vif == Some(v) && !w'.c.dhcpDone
        && w'.c.timeout == duration && w'.c.regs1 == Part1(0x2710, 0x33, 0x190) && w'.c.regs2 == w.c.regs2
        && w'.before1 == w.c.regs1 && w'.before2 == w.c.regs2
      else w' == w
  {}

  /** While a session is active and not ended, the first registers hold the DHCP values; the others hold
      theirs in the forced state, and what they held before the session in any other. */
  predicate Overrides(w: World) {
    var c := w.c;
    && (c.state != Idle && !c.dhcpDone ==> c.regs1 == Part1(0x2710, 0x33, 0x190))
    && c.regs2 == (if c.state == Force then Part2(0x8022, 0, 0, 0, 0) else w.before2)
  }

  lemma {:induction false} OverridesInEveryRun(w: World, es: seq<Event>)
    requires Inv(w) && Overrides(w)
    ensures Overrides(Run(w, es))
    decreases |es|
  {
    if es != [] {
      StepKeepsInv(w, es[0]);
      OverridesInEveryRun(Step(w, es[0]), es[1..]);
    }
  }

  /** The session that is active in `w` lasts through `es`. */
  predicate StaysActive(w: World, es: seq<Event>)
    decreases |es|
  {
    w.c.state != Idle && (es == [] || StaysActive(Step(w, es[0]), es[1..]))
  }

  function Phase(s: State): int {
    match s
    case Start => 0
    case Window => 1
    case Force => 2
    case Idle => 3
  }

  /** While it lasts, a session is the same interface's, each handler run takes it one phase further, and
      it has ended exactly if that interface, and not just another one, said so. */
  lemma {:induction false} SessionLaw(w: World, v: nat, es: seq<Event>)
    requires Inv(w) && w.c.vif == Some(v) && StaysActive(w, es)
    ensures var c := Run(w, es).c;
      && c.state != Idle && c.vif == Some(v)
      && Phase(c.state) == Phase(w.c.state) + SessionRuns(w, es)
      && (c.dhcpDone <==> w.c.dhcpDone || Enable(v) in es)
    decreases |es|
  {
    if es != [] {
      StepKeepsInv(w, es[0]);
      SessionLaw(Step(w, es[0]), v, es[1..]);
      assert es == [es[0]] + es[1..];
    }
  }

  /** A session that is not ended boosts Wi-Fi: its second handler run, when the window has expired,
      overrides all eight registers and arms the timer again for the rest of the time. */
  lemma UnendedSessionBoosts(w: World, v: nat, duration: nat, es: seq<Event>)
    requires Inv(w) && Overrides(w) && w.c.state == Idle
    requires var w1 := Step(w, Disable(v, true, duration));
      StaysActive(w1, es) && SessionRuns(w1, es) == 1 && Run(w1, es).c.work && Enable(v) !in es
    ensures var c := Step(Run(Step(w, Disable(v, true, duration)), es), WorkRuns).c;
      && c.state == Force && c.armed && !c.work
      && c.regs1 == Part1(0x2710, 0x33, 0x190) && c.regs2 == Part2(0x8022, 0, 0, 0, 0)
  {
    var w1 := Step(w, Disable(v, true, duration));
    StartIff(w, v, true, duration);
    StepKeepsInv(w, Disable(v, true, duration));
    SessionLaw(w1, v, es);
    SessionInvariant(w1, es);
    OverridesInEveryRun(w1, es);
    var w2 := Run(w1, es);
    OverridesInEveryRun(w2, [WorkRuns]);
    assert Run(w2, [WorkRuns]) == Run(Step(w2, WorkRuns), []) == Step(w2, WorkRuns);
  }

  /** As does any session that nobody ends, its timer having fired once. */
  lemma PlainSession(w: World, v: nat, duration: nat)
    requires Inv(w) && Overrides(w) && w.c.state == Idle
    ensures var w1 := Step(w, Disable(v, true, duration)); var es := [WorkRuns, TimerFires];
      && StaysActive(w1, es) && SessionRuns(w1, es) == 1
      && Step(Run(w1, es), WorkRuns).c.regs2 == Part2(0x8022, 0, 0, 0, 0)
  {
    var w1 := Step(w, Disable(v, true, duration));
    var es := [WorkRuns, TimerFires];
    assert es[1..] == [TimerFires] && es[1..][1..] == [];
    var w2 := Step(w1, WorkRuns);
    var w3 := Step(w2, TimerFires);
    assert StaysActive(w3, []) && StaysActive(w2, es[1..]);
    assert SessionRuns(w3, []) == 0 && SessionRuns(w2, es[1..]) == 0;
    assert Run(w2, es[1..]) == Run(w3, []) == w3;
    UnendedSessionBoosts(w, v, duration, es);
  }

  /** One that was ended by then does not: it never gets to the forced state. */
  predicate NeverForced(w: World, es: seq<Event>)
    decreases |es|
  {
    w.c.state != Force && (w.c.state == Idle || es == [] || NeverForced(Step(w, es[0]), es[1..]))
  }

  lemma {:induction false} EndedSessionNeverForces(w: World, es: seq<Event>)
    requires Inv(w) && w.c.state != Force && w.c.dhcpDone
    ensures NeverForced(w, es)
    decreases |es|
  {
    if es != [] && w.c.state != Idle {
      StepKeepsInv(w, es[0]);
      EndedSessionNeverForces(Step(w, es[0]), es[1..]);
    }
  }

  /** Ending a session never waits for the timer: a handler run is queued, and all registers are restored
      by it, or by the next one if the session had only just started. */
  lemma EndIsPrompt(w: World, v: nat)
    requires Inv(w) && w.c.state != Idle && w.c.vif == Some(v)
    ensures var w1 := Step(w, Enable(v)); var w2 := Step(w1, WorkRuns);
      && w1.c.work && !w1.c.armed && w1.c.dhcpDone && w1.c.state == w.c.state
      && (w.c.state != Start ==> w2.c.state == Idle && w2.c.regs1 == w.before1 && w2.c.regs2 == w.before2)
      && (w.c.state == Start ==> w2.c.state == Window && w2.c.armed && w2.c.regs1 == w.before1)
  {}

  /** The window takes its 2000 ticks off the session's time, if there are as many. */
  lemma WindowTakesItsTime(w: World)
    requires Inv(w) && w.c.state == Start && w.c.work
    ensures var c := Step(w, WorkRuns).c;
      && c.state == Window && c.armed && !c.work
      && c.timeout == if w.c.timeout >= 2000 then w.c.timeout - 2000 else w.c.timeout
  {}

  /** An armed timer becomes a handler run, and nothing else does. */
  lemma TimerBringsWork(w: World)
    requires Inv(w)
    ensures var c := Step(w, TimerFires).c; c == w.c.(armed := false, timerOn := false, work := w.c.work || w.c.armed)
  {}

  /** Detaching in any state gives back all eight registers. */
  lemma DetachRestores(w: World)
    requires Inv(w)
    ensures var c := RestorePart1(BoostWifi(w.c.(armed := false, timerOn := false, work := false), false));
      c.regs1 == w.before1 && c.regs2 == w.before2
  {}

  /** The fresh state of brcmf_btcoex_attach. */
  function Attach(regs1: Part1, regs2: Part2): (w: World)
    ensures Inv(w) && Overrides(w) && w.c.state == Idle && w.c.regs1 == regs1 && w.c.regs2 == regs2
  {
    World(Coex(Idle, false, false, false, false, WINDOW, None, None, None, regs1, regs2), regs1, regs2)
  }

  // ----- the object

  class BtCoexInfo {
    var vif: Option<nat>
    var armed: bool  // the kernel timer
    var timeout: nat
    var timerOn: bool
    var dhcpDone: bool
    var btState: State
    var work: bool   // the handler is queued
    var reg1: Part1  // the saved registers 66, 41 and 68
    var savedRegsPart1: bool
    var reg2: Part2  // the saved registers 50, 51, 64, 65 and 71
    var savedRegsPart2: bool
    var fw1: Part1   // the firmware's registers
    var fw2: Part2

    ghost function View(): (c: Coex)
      reads this
    {
      Coex(btState, timerOn, armed, work, dhcpDone, timeout, vif,
           if savedRegsPart1 then Some(reg1) else None, if savedRegsPart2 then Some(reg2) else None, fw1, fw2)
    }

    constructor (fw1: Part1, fw2: Part2)
      ensures View() == Attach(fw1, fw2).c && Inv(World(View(), fw1, fw2))
    {
      vif, btState, timeout := None, Idle, WINDOW;
      armed, timerOn, dhcpDone, work, savedRegsPart1, savedRegsPart2 := false, false, false, false, false, false;
      this.fw1, this.fw2, reg1, reg2 := fw1, fw2, fw1, fw2;
      new;
      assert View() == Attach(fw1, fw2).c;
    }

    method Boost(trump: bool)
      modifies this`fw2, this`savedRegsPart2, this`reg2
      ensures View() == BoostWifi(old(View()), trump)
    {
      if trump && !savedRegsPart2 {
        reg2 := fw2;
        savedRegsPart2 := true;
        fw2 := Part2(0x8022, 0, 0, 0, 0);
      } else if savedRegsPart2 {
        fw2 := reg2;
        savedRegsPart2 := false;
      }
    }

    method Save1()
      modifies this`savedRegsPart1, this`reg1
      ensures View() == SavePart1(old(View()))
    {
      if !savedRegsPart1 {
        reg1 := fw1;
        savedRegsPart1 := true;
      }
    }

    method Restore1()
      modifies this`savedRegsPart1, this`fw1
      ensures View() == RestorePart1(old(View()))
    {
      if savedRegsPart1 {
        savedRegsPart1 := false;
        fw1 := reg1;
      }
    }

    method TimerFunc(ghost w: World)
      requires w.c == View() && armed
      modifies this
      ensures View() == Step(w, TimerFires).c
    {
      armed := false;
      timerOn := false;
      work := true;
    }

    /** The invariant keeps this from ever finding the idle state or a missing interface. */
    method RunHandler(ghost w: World)
      requires w.c == View() && Inv(w) && work
      modifies this
      ensures View() == Step(w, WorkRuns).c && Inv(Step(w, WorkRuns))
    {
      StepKeepsInv(w, WorkRuns);
      work := false;
      assert !timerOn && !armed;  // a queued run and an armed timer exclude each other
      match btState
      case Start =>
        btState := Window;
        if timeout >= WINDOW { timeout := timeout - WINDOW; }
        armed, timerOn := true, true;
      case Window =>
        if dhcpDone {
          ToIdle();
        } else {
          Boost(true);
          btState := Force;
          armed, timerOn := true, true;
        }
      case Force => ToIdle();
      case Idle => assert false;
    }

    method ToIdle()
      modifies this
      ensures View() == GoIdle(old(View()))
    {
      btState := Idle;
      timerOn := false;
      Boost(false);
      Restore1();
      vif := None;
    }

    method StartDhcp()
      modifies this
      ensures View() == DhcpStart(old(View()))
    {
      Save1();
      fw1 := Part1(0x2710, 0x33, 0x190);
      dhcpDone := false;
      btState := Start;
      work := true;
    }

    method EndDhcp()
      modifies this
      ensures View() == DhcpEnd(old(View()))
    {
      dhcpDone := true;
      if timerOn {
        timerOn := false;
        armed := false;
        if btState != Idle { work := true; }
      } else {
        Restore1();
      }
    }

    /** Starting a session needs an idle machine, ending one the interface that started it. */
    method SetMode(disable: bool, v: nat, duration: nat, sco: bool, ghost w: World) returns (busy: bool)
      requires w.c == View() && Inv(w)
      modifies this
      ensures var e := if disable then Disable(v, sco, duration) else Enable(v);
        View() == Step(w, e).c && Inv(Step(w, e))
      ensures busy == (disable && w.c.state != Idle)
    {
      StepKeepsInv(w, if disable then Disable(v, sco, duration) else Enable(v));
      busy := false;
      if disable {
        if btState != Idle { return true; }
        if sco {
          timeout := duration;
          vif := Some(v);
          StartDhcp();
        }
      } else if btState != Idle && vif == Some(v) {
        EndDhcp();
      }
    }

    method Detach(ghost w: World)
      requires w.c == View() && Inv(w)
      modifies this
      ensures fw1 == w.before1 && fw2 == w.before2 && !armed && !work
    {
      DetachRestores(w);
      hide Inv;
      armed := false;
      timerOn := false;
      work := false;
      Boost(false);
      Restore1();
    }
  }
}
