/**
 The spin lock (metal/include/metal/lock.h), for any number of harts under any interleaving.

 A hart takes the lock by swapping 1 into the state word until the old value was 0, pausing
 between failed swaps for a number of turns that doubles up to a cap. Each event is one atomic
 step of one hart.
 */
module SpinLock {
  import opened Bits

  const BACKOFF_CYCLES: nat := 32
  const BACKOFF_EXPONENT: nat := 2
  const MAX_CORES: nat := 8
  const MAX_BACKOFF: nat := BACKOFF_CYCLES * MAX_CORES

  /** `failed` counts the unsuccessful swaps of the current attempt to take the lock. */
  datatype Pc =
    | Idle
    | Swapping(backoff: nat, failed: nat)
    | Pausing(backoff: nat, failed: nat, turn: nat)
    | Holding

  datatype State = State(word: nat, pc: seq<Pc>)

  /** `Turn` runs a hart's own code on; `Give` is a call of `metal_lock_give`. */
  datatype Event = Turn(hart: nat) | Give(hart: nat)

  function Start(n: nat): State {
    State(0, seq(n, i => Idle))
  }

  function Step(s: State, e: Event): State
    requires e.hart < |s.pc|
  {
    match e
    case Give(h) => State(0, if s.pc[h] == Holding then s.pc[h := Idle] else s.pc)
    case Turn(h) =>
      match s.pc[h]
      case Idle => s.(pc := s.pc[h := Swapping(1, 0)])
      case Swapping(b, k) => State(1, s.pc[h := if s.word == 0 then Holding else Pausing(b, k + 1, 0)])
      case Pausing(b, k, i) =>
        if i < b then s.(pc := s.pc[h := Pausing(b, k, i + 1)])
        else s.(pc := s.pc[h := Swapping(if b < MAX_BACKOFF then b * BACKOFF_EXPONENT else b, k)])
      case Holding => s
  }

  /** The pause after k failed swaps, in closed form. */
  function BackoffAfter(k: nat): nat {
    if k <= 8 then Pow2(k) else MAX_BACKOFF
  }

  predicate HartOk(p: Pc) {
    match p
    case Swapping(b, k) => b == BackoffAfter(k)
    case Pausing(b, k, i) => k > 0 && b == BackoffAfter(k - 1) && i <= b
    case _ => true
  }

  predicate Inv(s: State) {
    && (forall h :: 0 <= h < |s.pc| ==> HartOk(s.pc[h]))
    && (forall h, j :: 0 <= h < |s.pc| && 0 <= j < |s.pc| && s.pc[h] == Holding && s.pc[j] == Holding ==> h == j)
    && (forall h :: 0 <= h < |s.pc| && s.pc[h] == Holding ==> s.word == 1)
    && (s.word != 0 ==> s.word == 1 && exists h :: 0 <= h < |s.pc| && s.pc[h] == Holding)
  }

  /** A give comes from the hart that holds the lock, or finds it free. */
  predicate Disciplined(s: State, e: Event)
    requires e.hart < |s.pc|
  {
    e.Give? ==> s.pc[e.hart] == Holding || s.word == 0
  }

  lemma BackoffDoubles(k: nat)
    ensures BackoffAfter(k) <= MAX_BACKOFF
    ensures BackoffAfter(k + 1)
         == if BackoffAfter(k) < MAX_BACKOFF then BackoffAfter(k) * BACKOFF_EXPONENT else BackoffAfter(k)
  {
    assert Pow2(8) == 2 * Pow2(7) == 4 * Pow2(6) == 8 * Pow2(5) == 16 * Pow2(4) == 256;
    if k < 8 {
      Pow2Grows(k, 7);
    }
  }

  lemma StepKeepsInv(s: State, e: Event)
    requires Inv(s) && e.hart < |s.pc| && Disciplined(s, e)
    ensures Inv(Step(s, e)) && |Step(s, e).pc| == |s.pc|
  {
    var h, s' := e.hart, Step(s, e);
    assert HartOk(s.pc[h]);
    if s.pc[h].Pausing? {
      BackoffDoubles(s.pc[h].failed - 1);
    }
    assert HartOk(s'.pc[h]);
    if s'.word != 0 {
      if s.word != 0 {
        var j :| 0 <= j < |s.pc| && s.pc[j] == Holding;
        assert s'.pc[j] == Holding;
      } else {
        assert s'.pc[h] == Holding;
      }
    }
  }

  /** Every event of the run is disciplined in the state it happens in. */
  predicate DisciplinedRun(s: State, events: seq<Event>)
    decreases |events|
  {
    events == [] ||
    (events[0].hart < |s.pc| && Disciplined(s, events[0]) && DisciplinedRun(Step(s, events[0]), events[1..]))
  }

  function Run(s: State, events: seq<Event>): (r: State)
    requires Inv(s) && DisciplinedRun(s, events)
    ensures Inv(r) && |r.pc| == |s.pc|
    decreases |events|
  {
    if events == [] then s
    else
      StepKeepsInv(s, events[0]);
      Run(Step(s, events[0]), events[1..])
  }

  /**
   Mutual exclusion: if every give comes from the holder or finds the lock free, then in every
   reachable state at most one hart holds the lock, and the state word is zero exactly when none does.
   */
  lemma MutualExclusion(n: nat, events: seq<Event>, h: nat, j: nat)
    requires DisciplinedRun(Start(n), events) && h < n && j < n
    ensures Inv(Start(n))
    ensures var s := Run(Start(n), events);
            && (s.pc[h] == Holding && s.pc[j] == Holding ==> h == j)
            && (s.word == 0 <==> forall i :: 0 <= i < n ==> s.pc[i] != Holding)
  {
    var s := Run(Start(n), events);
    if s.word != 0 {
      var i :| 0 <= i < n && s.pc[i] == Holding;
    }
  }

  /** In every reachable state a waiter's pause is the power of two its failures call for, capped at 256. */
  lemma BackoffIsCappedPower(n: nat, events: seq<Event>, h: nat)
    requires DisciplinedRun(Start(n), events) && h < n
    ensures Inv(Start(n))
    ensures var p := Run(Start(n), events).pc[h];
            && (p.Swapping? ==> p.backoff == BackoffAfter(p.failed) && p.backoff <= 256)
            && (p.Pausing? ==> p.failed > 0 && p.backoff == BackoffAfter(p.failed - 1) && p.turn <= p.backoff <= 256)
  {
    var p := Run(Start(n), events).pc[h];
    assert HartOk(p);
    if p.Swapping? {
      BackoffDoubles(p.failed);
    } else if p.Pausing? {
      BackoffDoubles(p.failed - 1);
    }
  }

  /** Turns a waiting hart needs to win a free lock when it runs alone. */
  function TurnsToWin(p: Pc): nat {
    match p
    case Idle => 2
    case Swapping(_, _) => 1
    case Pausing(b, _, i) => (if i <= b then b - i else 0) + 2
    case Holding => 0
  }

  function Alone(h: nat, k: nat): seq<Event> {
    seq(k, i => Turn(h))
  }

  /** No waiter is stuck: once the lock is free, a hart running alone holds it within 258 turns. */
  lemma {:induction false} FreeLockIsWon(s: State, h: nat)
    requires Inv(s) && h < |s.pc| && s.word == 0
    ensures var events := Alone(h, TurnsToWin(s.pc[h]));
            && |events| <= MAX_BACKOFF + 2
            && DisciplinedRun(s, events) && Run(s, events).pc[h] == Holding
    decreases TurnsToWin(s.pc[h])
  {
    var k := TurnsToWin(s.pc[h]);
    assert HartOk(s.pc[h]);
    if s.pc[h].Pausing? {
      BackoffDoubles(s.pc[h].failed - 1);
    }
    var events, s' := Alone(h, k), Step(s, Turn(h));
    StepKeepsInv(s, Turn(h));
    assert events[0] == Turn(h) && events[1..] == Alone(h, k - 1);
    if k > 1 {
      FreeLockIsWon(s', h);
    } else {
      assert Alone(h, 0) == [];
    }
  }

  /** How many of the events are turns of hart h. */
  function TurnsOf(events: seq<Event>, h: nat): nat {
    if events == [] then 0 else (if events[0] == Turn(h) then 1 else 0) + TurnsOf(events[1..], h)
  }

  /**
   The backoff is real: whatever the other harts do, a waiting hart stays in its pause for exactly as
   many of its own turns as the pause still has to go, and only the turn after them ends it.
   */
  lemma {:induction false} PauseLasts(s: State, events: seq<Event>, h: nat, b: nat, k: nat, i: nat)
    requires Inv(s) && DisciplinedRun(s, events) && h < |s.pc| && s.pc[h] == Pausing(b, k, i)
    requires i + TurnsOf(events, h) <= b
    ensures Run(s, events).pc[h] == Pausing(b, k, i + TurnsOf(events, h))
    ensures TurnsOf(events, h) == b - i ==>
              var next := Step(Run(s, events), Turn(h)).pc[h];
              next == Swapping(if b < 256 then 2 * b else b, k)
    decreases |events|
  {
    if events != [] {
      StepKeepsInv(s, events[0]);
      PauseLasts(Step(s, events[0]), events[1..], h, b, k, if events[0] == Turn(h) then i + 1 else i);
    }
  }

  /** After a swap that fails with backoff b, the hart does not swap again within its next b turns. */
  lemma SwapsAreApart(s: State, events: seq<Event>, h: nat)
    requires Inv(s) && h < |s.pc| && s.pc[h].Swapping? && s.word != 0
    requires DisciplinedRun(Step(s, Turn(h)), events)
    requires TurnsOf(events, h) <= s.pc[h].backoff
    ensures Inv(Step(s, Turn(h)))
    ensures Run(Step(s, Turn(h)), events).pc[h]
         == Pausing(s.pc[h].backoff, s.pc[h].failed + 1, TurnsOf(events, h))
  {
    StepKeepsInv(s, Turn(h));
    PauseLasts(Step(s, Turn(h)), events, h, s.pc[h].backoff, s.pc[h].failed + 1, 0);
  }

  /**
   The discipline is exact: in a state with the invariant, a give keeps it if and only if the giver
   holds the lock or the lock is free.
   */
  lemma GiveKeepsInvIff(s: State, h: nat)
    requires Inv(s) && h < |s.pc|
    ensures Inv(Step(s, Give(h))) <==> Disciplined(s, Give(h))
  {
    if Disciplined(s, Give(h)) {
      StepKeepsInv(s, Give(h));
    } else {
      var j :| 0 <= j < |s.pc| && s.pc[j] == Holding;
      assert Step(s, Give(h)).pc[j] == Holding;
    }
  }

  /** A state in which any other give does harm: the lock is held, and the next hart to swap wins it as well. */
  lemma RogueGiveBreaksExclusion(s: State, holder: nat, waiter: nat, rogue: nat)
    requires Inv(s) && holder < |s.pc| && waiter < |s.pc| && rogue < |s.pc|
    requires s.pc[holder] == Holding && s.pc[waiter].Swapping? && rogue != holder
    ensures !Disciplined(s, Give(rogue))
    ensures var s' := Step(Step(s, Give(rogue)), Turn(waiter));
            s'.pc[holder] == Holding && s'.pc[waiter] == Holding && holder != waiter
  {
  }
}
