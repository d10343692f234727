/**
 The start-up barrier (metal/src/synchronize_harts.c), for any number of harts under any schedule.

 Hart 0 waits for every other hart's MSIP bit, then clears them all. Every other hart sets its own
 bit and waits until it is clear. One step is one load or store of an MSIP word together with the
 branch on it. Memory is sequentially consistent and every MSIP bit is zero at reset.
 */
module HartBarrier {

  datatype Pc =
    | Checking(next: nat)   // hart 0 polls the bit of hart `next`
    | Clearing(next: nat)   // hart 0 is about to clear the bit of hart `next`
    | Arriving              // another hart is about to set its bit
    | Waiting               // another hart polls its own bit
    | Left

  datatype State = State(msip: seq<nat>, pc: seq<Pc>)

  function Start(n: nat): State
    requires n > 0
  {
    State(seq(n, i => 0), seq(n, i => if i == 0 then Checking(1) else Arriving))
  }

  predicate Shape(s: State, n: nat) {
    n > 0 && |s.msip| == n && |s.pc| == n
  }

  /** One step of hart h. A poll that must be repeated leaves the state as it is. */
  function Step(s: State, n: nat, h: nat): State
    requires Shape(s, n) && h < n
  {
    match s.pc[h]
    case Checking(i) =>
      if i >= n then s.(pc := s.pc[h := Clearing(1)])
      else if s.msip[i] == 0 then s
      else s.(pc := s.pc[h := Checking(i + 1)])
    case Clearing(i) =>
      if i >= n then s.(pc := s.pc[h := Left])
      else State(s.msip[i := 0], s.pc[h := Clearing(i + 1)])
    case Arriving => State(s.msip[h := 1], s.pc[h := Waiting])
    case Waiting => if s.msip[h] == 1 then s else s.(pc := s.pc[h := Left])
    case Left => s
  }

  predicate Spins(s: State, n: nat, h: nat)
    requires Shape(s, n) && h < n
  {
    Step(s, n, h) == s
  }

  /** Hart 0 has seen hart h's bit set. */
  predicate Seen(s: State, n: nat, h: nat)
    requires Shape(s, n)
  {
    match s.pc[0]
    case Checking(i) => h < i
    case _ => true
  }

  /** Hart 0 has cleared hart h's bit. */
  predicate Released(s: State, n: nat, h: nat)
    requires Shape(s, n)
  {
    match s.pc[0]
    case Checking(_) => false
    case Clearing(i) => h < i
    case _ => true
  }

  predicate HartOk(s: State, n: nat, h: nat)
    requires Shape(s, n) && 0 < h < n
  {
    match s.pc[h]
    case Arriving => s.msip[h] == 0 && !Seen(s, n, h)
    case Waiting => s.msip[h] == (if Released(s, n, h) then 0 else 1)
    case Left => s.msip[h] == 0 && Released(s, n, h)
    case _ => false
  }

  predicate Inv(s: State, n: nat) {
    && Shape(s, n) && s.msip[0] == 0
    && (match s.pc[0]
        case Checking(i) => 1 <= i <= n
        case Clearing(i) => 1 <= i <= n
        case Left => true
        case _ => false)
    && forall h :: 0 < h < n ==> HartOk(s, n, h)
  }

  predicate Arrived(s: State, n: nat)
    requires Shape(s, n)
  {
    forall h :: 0 < h < n ==> s.pc[h] != Arriving
  }

  predicate AllLeft(s: State, n: nat)
    requires Shape(s, n)
  {
    forall h :: 0 <= h < n ==> s.pc[h] == Left
  }

  lemma StepKeepsInv(s: State, n: nat, h: nat)
    requires Inv(s, n) && h < n
    ensures Inv(Step(s, n, h), n)
  {
    var s' := Step(s, n, h);
    forall k | 0 < k < n ensures HartOk(s', n, k) {
      assert HartOk(s, n, k);
      if h > 0 {
        assert HartOk(s, n, h);
      }
    }
  }

  // ---- runs ----

  predicate Schedule(n: nat, sched: seq<nat>) {
    forall i :: 0 <= i < |sched| ==> sched[i] < n
  }

  function Run(s: State, n: nat, sched: seq<nat>): (r: State)
    requires Inv(s, n) && Schedule(n, sched)
    ensures Inv(r, n)
    decreases |sched|
  {
    if sched == [] then s
    else
      StepKeepsInv(s, n, sched[0]);
      Run(Step(s, n, sched[0]), n, sched[1..])
  }

  lemma StartInv(n: nat)
    requires n > 0
    ensures Inv(Start(n), n)
  {
  }

  /** In every reachable state, if any hart has left the barrier then every hart has arrived. */
  lemma LeftImpliesAllArrived(n: nat, sched: seq<nat>, h: nat)
    requires n > 0 && Schedule(n, sched) && h < n
    ensures Inv(Start(n), n)
    ensures Run(Start(n), n, sched).pc[h] == Left ==> Arrived(Run(Start(n), n, sched), n)
  {
    StartInv(n);
    var s := Run(Start(n), n, sched);
    if s.pc[h] == Left {
      if h > 0 {
        assert HartOk(s, n, h);
      }
      forall k | 0 < k < n ensures s.pc[k] != Arriving {
        assert HartOk(s, n, k);
      }
    }
  }

  // ---- progress ----

  /** Steps hart h still has to take, not counting polls that repeat. */
  function ToGo(p: Pc, n: nat): nat {
    match p
    case Checking(i) => (if i <= n then n - i else 0) + 1 + n
    case Clearing(i) => (if i <= n then n - i else 0) + 1
    case Arriving => 2
    case Waiting => 1
    case Left => 0
  }

  function Measure(pcs: seq<Pc>, n: nat): nat {
    if pcs == [] then 0 else ToGo(pcs[0], n) + Measure(pcs[1..], n)
  }

  lemma {:induction false} MeasureUpdate(pcs: seq<Pc>, n: nat, h: nat, p: Pc)
    requires h < |pcs|
    ensures Measure(pcs[h := p], n) + ToGo(pcs[h], n) == Measure(pcs, n) + ToGo(p, n)
  {
    if h > 0 {
      MeasureUpdate(pcs[1..], n, h - 1, p);
      assert pcs[h := p][1..] == pcs[1..][h - 1 := p];
    } else {
      assert pcs[h := p][1..] == pcs[1..];
    }
  }

  /** Every step that is not a repeated poll brings the barrier exactly one step nearer its end. */
  lemma StepDropsMeasure(s: State, n: nat, h: nat)
    requires Inv(s, n) && h < n
    ensures Measure(Step(s, n, h).pc, n) == Measure(s.pc, n) - (if Spins(s, n, h) then 0 else 1)
  {
    var s' := Step(s, n, h);
    if s' != s {
      assert s'.pc == s.pc[h := s'.pc[h]];
      MeasureUpdate(s.pc, n, h, s'.pc[h]);
      if h > 0 {
        assert HartOk(s, n, h);
      }
    }
  }

  lemma {:induction false} AllLeftIffZero(pcs: seq<Pc>, n: nat)
    ensures Measure(pcs, n) == 0 <==> forall h :: 0 <= h < |pcs| ==> pcs[h] == Left
  {
    if pcs != [] {
      AllLeftIffZero(pcs[1..], n);
      if forall h :: 0 <= h < |pcs| ==> pcs[h] == Left {
        assert forall h :: 0 <= h < |pcs[1..]| ==> pcs[1..][h] == pcs[h + 1];
      }
    }
  }

  /** No deadlock: until every hart has left, some hart can take a step that is not a repeated poll. */
  lemma SomeHartCanMove(s: State, n: nat) returns (h: nat)
    requires Inv(s, n) && !AllLeft(s, n)
    ensures h < n && !Spins(s, n, h)
  {
    h := 0;
    match s.pc[0] {
      case Checking(i) =>
        if i < n && s.msip[i] == 0 {
          assert HartOk(s, n, i);
          h := i;
          assert s.pc[i] == Arriving;
        }
      case Clearing(i) =>
      case Left =>
        h :| 0 <= h < n && s.pc[h] != Left;
        assert HartOk(s, n, h);
    }
  }

  /** Any schedule either moves the barrier nearer its end, or every hart in it only repeated its poll. */
  lemma {:induction false} RunMovesOrSpins(s: State, n: nat, sched: seq<nat>)
    requires Inv(s, n) && Schedule(n, sched)
    ensures Measure(Run(s, n, sched).pc, n) <= Measure(s.pc, n)
    ensures Measure(Run(s, n, sched).pc, n) < Measure(s.pc, n)
         || (Run(s, n, sched) == s && forall h :: h in sched ==> h < n && Spins(s, n, h))
    decreases |sched|
  {
    if sched != [] {
      StepKeepsInv(s, n, sched[0]);
      StepDropsMeasure(s, n, sched[0]);
      RunMovesOrSpins(Step(s, n, sched[0]), n, sched[1..]);
    }
  }

  /** A round runs every hart at least once, in any order and with any repetitions. */
  predicate FairRound(n: nat, round: seq<nat>) {
    Schedule(n, round) && forall h :: 0 <= h < n ==> h in round
  }

  function RunRounds(s: State, n: nat, rounds: seq<seq<nat>>): (r: State)
    requires Inv(s, n) && forall i :: 0 <= i < |rounds| ==> FairRound(n, rounds[i])
    ensures Inv(r, n)
    decreases |rounds|
  {
    if rounds == [] then s
    else
      assert FairRound(n, rounds[0]);
      RunRounds(Run(s, n, rounds[0]), n, rounds[1..])
  }

  lemma {:induction false} RoundsFinish(s: State, n: nat, rounds: seq<seq<nat>>)
    requires Inv(s, n) && forall i :: 0 <= i < |rounds| ==> FairRound(n, rounds[i])
    requires |rounds| >= Measure(s.pc, n)
    ensures Shape(RunRounds(s, n, rounds), n) && AllLeft(RunRounds(s, n, rounds), n)
    decreases |rounds|
  {
    AllLeftIffZero(s.pc, n);
    if rounds != [] {
      assert FairRound(n, rounds[0]);
      RunMovesOrSpins(s, n, rounds[0]);
      if !AllLeft(s, n) {
        var h := SomeHartCanMove(s, n);
        assert h in rounds[0];
      }
      RoundsFinish(Run(s, n, rounds[0]), n, rounds[1..]);
    }
  }

  lemma {:induction false} ArrivingMeasure(pcs: seq<Pc>, n: nat)
    requires forall h :: 0 <= h < |pcs| ==> pcs[h] == Arriving
    ensures Measure(pcs, n) == 2 * |pcs|
  {
    if pcs != [] {
      ArrivingMeasure(pcs[1..], n);
    }
  }

  lemma StartMeasure(n: nat)
    requires n > 0
    ensures Measure(Start(n).pc, n) == 4 * n - 2
  {
    ArrivingMeasure(Start(n).pc[1..], n);
  }

  /**
   No release is lost: 4n - 2 fair rounds from reset take every hart through the barrier, and every
   software interrupt bit is zero again.
   */
  lemma BarrierCompletes(n: nat, rounds: seq<seq<nat>>)
    requires n > 0 && forall i :: 0 <= i < |rounds| ==> FairRound(n, rounds[i])
    requires |rounds| >= 4 * n - 2
    ensures Inv(Start(n), n)
    ensures Shape(RunRounds(Start(n), n, rounds), n) && AllLeft(RunRounds(Start(n), n, rounds), n)
    ensures forall h :: 0 <= h < n ==> RunRounds(Start(n), n, rounds).msip[h] == 0
  {
    StartInv(n);
    StartMeasure(n);
    RoundsFinish(Start(n), n, rounds);
    var s := RunRounds(Start(n), n, rounds);
    forall h | 0 <= h < n ensures s.msip[h] == 0 {
      assert h > 0 ==> HartOk(s, n, h);
    }
  }

  /** The steps of a run that were not repeated polls. */
  function Moves(s: State, n: nat, sched: seq<nat>): nat
    requires Inv(s, n) && Schedule(n, sched)
    decreases |sched|
  {
    if sched == [] then 0
    else
      StepKeepsInv(s, n, sched[0]);
      (if Spins(s, n, sched[0]) then 0 else 1) + Moves(Step(s, n, sched[0]), n, sched[1..])
  }

  lemma {:induction false} MovesSpendMeasure(s: State, n: nat, sched: seq<nat>)
    requires Inv(s, n) && Schedule(n, sched)
    ensures Moves(s, n, sched) + Measure(Run(s, n, sched).pc, n) == Measure(s.pc, n)
    decreases |sched|
  {
    if sched != [] {
      StepKeepsInv(s, n, sched[0]);
      StepDropsMeasure(s, n, sched[0]);
      MovesSpendMeasure(Step(s, n, sched[0]), n, sched[1..]);
    }
  }

  /** Every run makes at most 4n - 2 moves, and has let every hart out exactly when it has made them all. */
  lemma MovesBounded(n: nat, sched: seq<nat>)
    requires n > 0 && Schedule(n, sched)
    ensures Inv(Start(n), n) && Inv(Run(Start(n), n, sched), n)
    ensures Moves(Start(n), n, sched) <= 4 * n - 2
    ensures AllLeft(Run(Start(n), n, sched), n) <==> Moves(Start(n), n, sched) == 4 * n - 2
  {
    StartInv(n);
    StartMeasure(n);
    MovesSpendMeasure(Start(n), n, sched);
    AllLeftIffZero(Run(Start(n), n, sched).pc, n);
  }
}
