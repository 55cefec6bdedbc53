/** Enqueue, dequeue and reinsertion on one flow ring, interleaved at every shared read and locked
    section (wifi-bcm4350/src/flowring.c:259-314). The queue-length check that enqueue repeats after
    blocking is what keeps a blocked ring from being forgotten; nothing of the kind guards the
    upper mark. */
module FlowRace {
  import FlowRing

  const HIGH := FlowRing.HIGH
  const LOW := FlowRing.LOW

  /** The shared ring, how many threads stand before each remaining step of an operation, and how many
      packets have been dequeued and neither sent nor put back. */
  datatype Race = Race(len: nat, blocked: bool,
                       enqRead: nat, enqLen: nat, enqBlock: nat, enqRecheck: nat, enqRelease: nat,
                       deqRead: nat, deqLen: nat, deqRelease: nat, held: nat)

  datatype Act =
    | Push          // append, then go on to read `blocked`
    | EnqReadFlag   // read `blocked` false
    | EnqReadLen    // compare the length with HIGH
    | SetBlock      // the locked section, blocking
    | Recheck       // compare the length with LOW
    | EnqRelease    // the locked section, unblocking
    | Pop           // remove the head, then go on to read `blocked`
    | DeqReadFlag   // read `blocked` true
    | DeqReadLen    // compare the length with LOW
    | DeqRelease    // the locked section, unblocking
    | Send          // a dequeued packet goes out
    | Reinsert      // or is put back at the head

  function Act1(s: Race, a: Act, recheck: bool): Race {
    match a
    case Push => s.(len := s.len + 1, enqRead := s.enqRead + 1)
    case EnqReadFlag =>
      if s.enqRead == 0 then s
      else s.(enqRead := s.enqRead - 1, enqLen := s.enqLen + if s.blocked then 0 else 1)
    case EnqReadLen =>
      if s.enqLen == 0 then s
      else s.(enqLen := s.enqLen - 1, enqBlock := s.enqBlock + if s.len > HIGH then 1 else 0)
    case SetBlock =>
      if s.enqBlock == 0 then s
      else s.(enqBlock := s.enqBlock - 1, blocked := true, enqRecheck := s.enqRecheck + if recheck then 1 else 0)
    case Recheck =>
      if s.enqRecheck == 0 then s
      else s.(enqRecheck := s.enqRecheck - 1, enqRelease := s.enqRelease + if s.len < LOW then 1 else 0)
    case EnqRelease =>
      if s.enqRelease == 0 then s else s.(enqRelease := s.enqRelease - 1, blocked := false)
    case Pop =>
      if s.len == 0 then s.(deqRead := s.deqRead + 1)
      else s.(len := s.len - 1, deqRead := s.deqRead + 1, held := s.held + 1)
    case DeqReadFlag =>
      if s.deqRead == 0 then s
      else s.(deqRead := s.deqRead - 1, deqLen := s.deqLen + if s.blocked then 1 else 0)
    case DeqReadLen =>
      if s.deqLen == 0 then s
      else s.(deqLen := s.deqLen - 1, deqRelease := s.deqRelease + if s.len < LOW then 1 else 0)
    case DeqRelease =>
      if s.deqRelease == 0 then s else s.(deqRelease := s.deqRelease - 1, blocked := false)
    case Send => if s.held == 0 then s else s.(held := s.held - 1)
    case Reinsert => if s.held == 0 then s else s.(held := s.held - 1, len := s.len + 1)
  }

  function Interleave(s: Race, acts: seq<Act>, recheck: bool): Race
    decreases |acts|
  {
    if acts == [] then s else Interleave(Act1(s, acts[0], recheck), acts[1..], recheck)
  }

  const IDLE := Race(0, false, 0, 0, 0, 0, 0, 0, 0, 0, 0)

  /** Threads on their way from an append to the blocking section. */
  function Coming(s: Race): nat { s.enqRead + s.enqLen + s.enqBlock }

  function Enqueues(s: Race): nat { Coming(s) + s.enqRecheck + s.enqRelease }
  function Dequeues(s: Race): nat { s.deqRead + s.deqLen + s.deqRelease }

  predicate Quiescent(s: Race) { Enqueues(s) == Dequeues(s) == s.held == 0 }

  // ----- the lower mark

  /** A blocked ring below the low mark has a thread on its way to release it. */
  predicate WakeupPending(s: Race) {
    s.blocked && s.len < LOW ==> s.enqRecheck + s.enqRelease + Dequeues(s) > 0
  }

  lemma {:induction false} WakeupPendingInEveryRun(s: Race, acts: seq<Act>)
    requires WakeupPending(s)
    ensures WakeupPending(Interleave(s, acts, true))
    decreases |acts|
  {
    if acts != [] { WakeupPendingInEveryRun(Act1(s, acts[0], true), acts[1..]); }
  }

  /** No lost wake-up: whenever no operation is under way, a blocked ring holds at least LOW
      packets, so a later dequeue will release it. */
  lemma NoLostWakeup(acts: seq<Act>)
    ensures var s := Interleave(IDLE, acts, true); Quiescent(s) && s.blocked ==> s.len >= LOW
  {
    WakeupPendingInEveryRun(IDLE, acts);
  }

  // ----- the upper mark

  /** An unblocked ring exceeds the high mark only by packets whose enqueue is about to block it. */
  predicate UpperMark(s: Race) { !s.blocked ==> s.len <= HIGH + Coming(s) }

  /** A release that was decided on below the low mark and runs when the queue is over the high one, or
      a packet put back onto an unblocked ring that is at the mark. */
  predicate Exceeds(s: Race, a: Act) {
    || (((a == EnqRelease && s.enqRelease > 0) || (a == DeqRelease && s.deqRelease > 0)) && s.len > HIGH + Coming(s))
    || (a == Reinsert && s.held > 0 && !s.blocked && s.len >= HIGH + Coming(s))
  }

  /** Whatever the threads, a step keeps the upper mark if and only if it is none of these. */
  lemma StepKeepsUpperIff(s: Race, a: Act, recheck: bool)
    requires UpperMark(s)
    ensures UpperMark(Act1(s, a, recheck)) <==> !Exceeds(s, a)
  {}

  predicate NeverExceeds(s: Race, acts: seq<Act>)
    decreases |acts|
  {
    acts == [] || (!Exceeds(s, acts[0]) && NeverExceeds(Act1(s, acts[0], true), acts[1..]))
  }

  predicate UpperThroughout(s: Race, acts: seq<Act>)
    decreases |acts|
  {
    UpperMark(s) && (acts == [] || UpperThroughout(Act1(s, acts[0], true), acts[1..]))
  }

  /** Over every run the upper mark holds at all moments if and only if no step of it is one of these. */
  lemma {:induction false} UpperThroughoutIff(s: Race, acts: seq<Act>)
    requires UpperMark(s)
    ensures UpperThroughout(s, acts) <==> NeverExceeds(s, acts)
    decreases |acts|
  {
    if acts != [] {
      StepKeepsUpperIff(s, acts[0], true);
      hide Act1, UpperMark, Exceeds;
      if UpperMark(Act1(s, acts[0], true)) { UpperThroughoutIff(Act1(s, acts[0], true), acts[1..]); }
    }
  }

  /** Nothing is added between the decision to release and the release, and nothing put back onto a ring
      that holds HIGH packets. */
  predicate Prompt(s: Race, a: Act) {
    && (a == Push || a == Reinsert ==> s.enqRelease + s.deqRelease == 0)
    && (a == Reinsert ==> s.len < HIGH)
  }

  predicate PromptRun(s: Race, acts: seq<Act>)
    decreases |acts|
  {
    acts == [] || (Prompt(s, acts[0]) && PromptRun(Act1(s, acts[0], true), acts[1..]))
  }

  predicate ReleasesAreLow(s: Race) { s.enqRelease + s.deqRelease > 0 ==> s.len < LOW }

  /** That is enough, for any number of threads. */
  lemma {:induction false} PromptReleasesKeepUpper(s: Race, acts: seq<Act>)
    requires UpperMark(s) && ReleasesAreLow(s) && PromptRun(s, acts)
    ensures UpperThroughout(s, acts)
    decreases |acts|
  {
    if acts != [] { PromptReleasesKeepUpper(Act1(s, acts[0], true), acts[1..]); }
  }

  // ----- the driver's own order

  /** One enqueue and one dequeue at a time, each with what becomes of its packet, and nothing is
      appended to a blocked ring: the transmit queue is stopped then, and the dequeues of a ring run
      under its lock. */
  predicate OrderlyStep(s: Race, a: Act) {
    && (a == Push ==> Enqueues(s) == 0 && !s.blocked)
    && (a == Pop ==> Dequeues(s) + s.held == 0)
    && (a == Send || a == Reinsert ==> Dequeues(s) == 0)
  }

  predicate Orderly(s: Race, acts: seq<Act>)
    decreases |acts|
  {
    acts == [] || (OrderlyStep(s, acts[0]) && Orderly(Act1(s, acts[0], true), acts[1..]))
  }

  predicate OrderlyInv(s: Race) {
    var all := s.len + s.held;
    && Enqueues(s) <= 1 && Dequeues(s) <= 1 && s.held <= 1
    && (Coming(s) > 0 ==> !s.blocked)
    && (s.enqRelease > 0 ==> all <= LOW)
    && (if s.blocked then all <= HIGH + 3 else all <= HIGH + 2 + Coming(s))
    && (s.deqRelease > 0 ==> if s.blocked then all <= HIGH + 2 else all <= HIGH + 1 + Coming(s))
  }

  lemma OrderlyStepKeepsInv(s: Race, a: Act)
    requires OrderlyInv(s) && OrderlyStep(s, a)
    ensures OrderlyInv(Act1(s, a, true))
  {}

  /** In every orderly run the queue stays within three packets of the high mark, and an unblocked ring
      at rest within two. */
  lemma {:induction false} OrderlyRunsStayNearMark(s: Race, acts: seq<Act>)
    requires OrderlyInv(s) && Orderly(s, acts)
    ensures var s' := Interleave(s, acts, true);
      OrderlyInv(s') && s'.len <= HIGH + 3 && (Quiescent(s') && !s'.blocked ==> s'.len <= HIGH + 2)
    decreases |acts|
  {
    if acts != [] {
      OrderlyStepKeepsInv(s, acts[0]);
      hide Act1, OrderlyStep;
      OrderlyRunsStayNearMark(Act1(s, acts[0], true), acts[1..]);
    }
  }

  // ----- building runs

  lemma {:induction false} InterleaveAppend(s: Race, a: seq<Act>, b: seq<Act>, recheck: bool)
    ensures Interleave(s, a + b, recheck) == Interleave(Interleave(s, a, recheck), b, recheck)
    ensures recheck && Orderly(s, a) && Orderly(Interleave(s, a, true), b) ==> Orderly(s, a + b)
    decreases |a|
  {
    if a == [] {
      assert a + b == b;
    } else {
      assert (a + b)[1..] == a[1..] + b;
      InterleaveAppend(Act1(s, a[0], recheck), a[1..], b, recheck);
    }
  }

  /** `acts` leads from `s` to `s'`, in order. */
  ghost predicate Leads(s: Race, acts: seq<Act>, s': Race, recheck: bool) {
    Interleave(s, acts, recheck) == s' && (recheck ==> Orderly(s, acts))
  }

  lemma Then(s: Race, acts: seq<Act>, s1: Race, more: seq<Act>, s2: Race, recheck: bool)
    requires Leads(s, acts, s1, recheck) && Leads(s1, more, s2, recheck)
    ensures Leads(s, acts + more, s2, recheck)
  {
    InterleaveAppend(s, acts, more, recheck);
  }

  lemma NoActs(s: Race, recheck: bool)
    ensures Leads(s, [], s, recheck)
  {}

  lemma OneAct(s: Race, a: Act, recheck: bool)
    requires recheck ==> OrderlyStep(s, a)
    ensures Leads(s, [a], Act1(s, a, recheck), recheck)
  {
    hide OrderlyStep, Act1;
    var s1 := Act1(s, a, recheck);
    assert [a][1..] == [] && Interleave(s1, [], recheck) == s1 && Orderly(s1, []);
  }

  lemma ThreeActs(s: Race, a: Act, b: Act, c: Act, recheck: bool) returns (acts: seq<Act>)
    requires var s1 := Act1(s, a, recheck);
      recheck ==> OrderlyStep(s, a) && OrderlyStep(s1, b) && OrderlyStep(Act1(s1, b, recheck), c)
    ensures Leads(s, acts, Act1(Act1(Act1(s, a, recheck), b, recheck), c, recheck), recheck)
  {
    hide OrderlyStep, Act1, Leads;
    var s1 := Act1(s, a, recheck);
    var s2 := Act1(s1, b, recheck);
    OneAct(s, a, recheck);
    OneAct(s1, b, recheck);
    OneAct(s2, c, recheck);
    Then(s, [a], s1, [b], s2, recheck);
    Then(s, [a] + [b], s2, [c], Act1(s2, c, recheck), recheck);
    acts := [a] + [b] + [c];
  }

  /** An undisturbed enqueue on an unblocked ring, up to the blocking section if it gets there. */
  lemma EnqueueActs(s: Race, recheck: bool) returns (acts: seq<Act>)
    requires Enqueues(s) == 0 && !s.blocked
    ensures Leads(s, acts, s.(len := s.len + 1, enqBlock := if s.len + 1 > HIGH then 1 else 0), recheck)
  {
    hide Leads, Interleave, Orderly;
    acts := ThreeActs(s, Push, EnqReadFlag, EnqReadLen, recheck);
  }

  /** An undisturbed dequeue of a ring that is above LOW or unblocked, before its packet is dealt with. */
  lemma DequeueActs(s: Race, recheck: bool) returns (acts: seq<Act>)
    requires Dequeues(s) == s.held == 0 && s.len > 0
    ensures Leads(s, acts, s.(len := s.len - 1, held := 1,
                              deqRelease := if s.blocked && s.len <= LOW then 1 else 0), recheck)
  {
    hide Leads, Interleave, Orderly;
    acts := ThreeActs(s, Pop, DeqReadFlag, DeqReadLen, recheck);
  }

  /** An unblocked ring on which a dequeue may stand before its release, with its packet. */
  function Resting(len: nat, late: bool): Race {
    IDLE.(len := len, deqRelease := if late then 1 else 0, held := if late then 1 else 0)
  }

  lemma RestingNext(n: nat, late: bool)
    ensures var s := Resting(n, late);
      Enqueues(s) == 0 && !s.blocked && s.len == n && s.enqBlock == 0 && s.(len := n + 1) == Resting(n + 1, late)
  {}

  /** Undisturbed enqueues fill it from `from` packets up to `n`. */
  lemma {:induction false} Fill(from: nat, n: nat, late: bool, recheck: bool) returns (acts: seq<Act>)
    requires from <= n <= HIGH
    ensures Leads(Resting(from, late), acts, Resting(n, late), recheck)
    decreases n
  {
    hide *;
    acts := [];
    NoActs(Resting(from, late), recheck);
    if n > from {
      var s := Resting(n - 1, late);
      RestingNext(n - 1, late);
      acts := Fill(from, n - 1, late, recheck);
      var more := EnqueueActs(s, recheck);
      Then(Resting(from, late), acts, s, more, s.(len := n), recheck);
      acts := acts + more;
    }
  }

  /** One more enqueue stands before the blocking section. */
  lemma Overfill(from: nat, late: bool, recheck: bool) returns (acts: seq<Act>)
    requires from <= HIGH
    ensures Leads(Resting(from, late), acts, Resting(HIGH + 1, late).(enqBlock := 1), recheck)
  {
    hide *;
    var s := Resting(HIGH, late);
    RestingNext(HIGH, late);
    acts := Fill(from, HIGH, late, recheck);
    var more := EnqueueActs(s, recheck);
    Then(Resting(from, late), acts, s, more, s.(len := HIGH + 1, enqBlock := 1), recheck);
    acts := acts + more;
  }

  /** Dequeues drain a ring, down to LOW if it is blocked. */
  lemma {:induction false} Drain(s: Race, n: nat, recheck: bool) returns (acts: seq<Act>)
    requires n <= s.len && Dequeues(s) == s.held == 0 && (s.blocked ==> n >= LOW)
    ensures Leads(s, acts, s.(len := n), recheck)
    decreases s.len
  {
    hide Leads, Interleave, Orderly;
    acts := [];
    NoActs(s, recheck);
    if n < s.len {
      var s1 := s.(len := s.len - 1);
      var first := DequeueActs(s, recheck);
      OneAct(s1.(held := 1), Send, recheck);
      Then(s, first, s1.(held := 1), [Send], s1, recheck);
      acts := Drain(s1, n, recheck);
      Then(s, first + [Send], s1, acts, s1.(len := n), recheck);
      acts := first + [Send] + acts;
    }
  }

  // ----- what can happen

  /** Without the repeated check a wake-up is lost: some run from the idle ring ends with no operation
      under way and the ring blocked and empty, so that no dequeue will find a packet in it. */
  lemma WakeupLostWithoutRecheck() returns (acts: seq<Act>)
    ensures var s := Interleave(IDLE, acts, false); Quiescent(s) && s.blocked && s.len == 0
  {
    hide Interleave, Orderly, OrderlyStep;
    var s1 := IDLE.(len := HIGH + 1, enqBlock := 1);
    acts := Overfill(0, false, false);
    assert Resting(0, false) == IDLE && Resting(HIGH + 1, false).(enqBlock := 1) == s1;
    var more := Drain(s1, 0, false);
    Then(IDLE, acts, s1, more, s1.(len := 0), false);
    OneAct(s1.(len := 0), SetBlock, false);
    Then(IDLE, acts + more, s1.(len := 0), [SetBlock], IDLE.(blocked := true), false);
    acts := acts + more + [SetBlock];
  }

  /** A dequeue has seen a blocked ring below LOW and stands before its release; the enqueue that
      blocked the ring stands before its second check, or is done with it (`checked`). */
  lemma AboutToRelease(checked: bool) returns (acts: seq<Act>)
    ensures Leads(IDLE, acts, Resting(LOW - 1, true).(blocked := true, enqRecheck := if checked then 0 else 1), true)
  {
    hide Leads, Interleave, Orderly;
    var s1 := IDLE.(len := HIGH + 1, enqBlock := 1);
    var s2 := s1.(enqBlock := 0, blocked := true, enqRecheck := 1);
    acts := Overfill(0, false, true);
    OneAct(s1, SetBlock, true);
    Then(IDLE, acts, s1, [SetBlock], s2, true);
    acts := acts + [SetBlock];
    var s3 := s2;
    if checked {
      s3 := s2.(enqRecheck := 0);
      OneAct(s2, Recheck, true);
      Then(IDLE, acts, s2, [Recheck], s3, true);
      acts := acts + [Recheck];
    }
    var more := Drain(s3, LOW, true);
    Then(IDLE, acts, s3, more, s3.(len := LOW), true);
    var last := DequeueActs(s3.(len := LOW), true);
    Then(IDLE, acts + more, s3.(len := LOW), last, s3.(len := LOW - 1, deqRelease := 1, held := 1), true);
    acts := acts + more + last;
  }

  /** Any overshoot: enqueues that find the ring blocked go on appending while a release is late, and
      then the ring is at rest, unblocked, with as many packets as one likes. */
  lemma Overshoot(n: nat) returns (acts: seq<Act>)
    requires n >= LOW - 1
    ensures var s := Interleave(IDLE, acts, true); Quiescent(s) && !s.blocked && s.len == n
  {
    var s1 := Resting(LOW - 1, true).(blocked := true);
    acts := AboutToRelease(true);
    var more := PushOn(LOW - 1, n);
    InterleaveAppend(IDLE, acts, more, true);
    var s2 := s1.(len := n);
    InterleaveAppend(IDLE, acts + more, [DeqRelease, Send], true);
    assert [DeqRelease, Send][1..] == [Send] && [Send][1..] == [];
    var s3 := Act1(s2, DeqRelease, true);
    assert Interleave(s3, [Send], true) == Act1(s3, Send, true);
    acts := acts + more + [DeqRelease, Send];
  }

  lemma {:induction false} PushOn(from: nat, n: nat) returns (acts: seq<Act>)
    requires from <= n
    ensures Interleave(Resting(from, true).(blocked := true), acts, true) == Resting(n, true).(blocked := true)
    decreases n
  {
    acts := [];
    if from < n {
      var s := Resting(n - 1, true).(blocked := true);
      acts := PushOn(from, n - 1);
      InterleaveAppend(s.(len := from), acts, [Push, EnqReadFlag], true);
      assert [Push, EnqReadFlag][1..] == [EnqReadFlag] && [EnqReadFlag][1..] == [];
      var s1 := Act1(s, Push, true);
      assert Interleave(s1, [EnqReadFlag], true) == Act1(s1, EnqReadFlag, true);
      acts := acts + [Push, EnqReadFlag];
    }
  }

  /** The bound of the orderly runs is reached: the enqueue releases first, the ring fills and blocks
      again, only then the late dequeue releases it, and its packet cannot be sent and is put back. */
  lemma OrderlyOvershoot() returns (acts: seq<Act>)
    ensures Orderly(IDLE, acts)
    ensures var s := Interleave(IDLE, acts, true); Quiescent(s) && !s.blocked && s.len == HIGH + 2
  {
    hide Interleave, Orderly;
    var s1 := Resting(LOW - 1, true).(blocked := true, enqRecheck := 1);
    acts := AboutToRelease(false);
    OneAct(s1, Recheck, true);
    Then(IDLE, acts, s1, [Recheck], s1.(enqRecheck := 0, enqRelease := 1), true);
    acts := acts + [Recheck];
    OneAct(s1.(enqRecheck := 0, enqRelease := 1), EnqRelease, true);
    Then(IDLE, acts, s1.(enqRecheck := 0, enqRelease := 1), [EnqRelease], Resting(LOW - 1, true), true);
    acts := acts + [EnqRelease];
    var more := Overfill(LOW - 1, true, true);
    var s2 := Resting(HIGH + 1, true).(enqBlock := 1);
    Then(IDLE, acts, Resting(LOW - 1, true), more, s2, true);
    acts := acts + more;
    var last := ThreeActs(s2, SetBlock, Recheck, DeqRelease, true);
    Then(IDLE, acts, s2, last, IDLE.(len := HIGH + 1, held := 1), true);
    acts := acts + last;
    OneAct(IDLE.(len := HIGH + 1, held := 1), Reinsert, true);
    Then(IDLE, acts, IDLE.(len := HIGH + 1, held := 1), [Reinsert], IDLE.(len := HIGH + 2), true);
    acts := acts + [Reinsert];
  }
}
