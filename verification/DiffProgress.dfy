// Progress of the csv-diff protocol: no reachable state is stuck, no wakeup is
// lost, and a rank bounds the length of every run by its spurious wakeups.

module DiffProgress {
  import opened DiffProtocol
  import opened DiffZip
  import opened DiffSafety

  // ---------------------------------------------------------------- no deadlock

  // With no reader able to step, every reader is blocked on a mutex or a
  // condition variable, or gone.
  lemma BlockedReader(c: Config, s: State, i: nat)
    requires ReadersOk(c, s) && GlobalOk(s) && i < |c.rows|
    requires InRound(s.gpc) ==> s.rounds > 0
    requires s.gpc != GExited && !ReaderEnabled(s, i)
    ensures match s.readers[i].pc
            case RLocking => s.global != Free
            case RRelocking | RWoken => GathererHolds(s.gpc, i)
            case RWaiting | RDone => true
            case _ => false
    ensures s.global != ByReader(i)
    ensures s.readers[i].mtx != ByReader(i)
  {
    assert ReaderOk(c.rows[i], s.readers[i], s.gpc, s.rounds, i);
  }

  // A waiting gatherer has an input that has not counted itself yet, and that
  // reader can run.
  lemma WaitingGathererHasWorker(c: Config, s: State)
    requires ReadersOk(c, s) && GlobalOk(s) && CountersOk(s) && s.gpc == GWaiting && s.ready != |c.rows|
    ensures exists i: nat :: i < |c.rows| && ReaderEnabled(s, i)
  {
    AllCounted(s);
    var i :| 0 <= i < |s.readers| && Counted(s.readers[i]) != s.rounds + 1;
    assert ReaderOk(c.rows[i], s.readers[i], s.gpc, s.rounds, i);
    if !ReaderEnabled(s, i) {
      BlockedReader(c, s, i);
      assert s.readers[i].pc == RLocking;
      // then the global mutex is held by some reader, which can run
      var k := s.global.id;
      assert s.readers[k].pc in {RCounting, RLeaving};
      assert ReaderEnabled(s, k);
    }
  }

  // Before the final state some thread can take a step that is not a spurious
  // wakeup: no deadlock, and no wakeup is lost.
  lemma NoDeadlock(c: Config, s: State)
    requires Inv(c, s) && !Final(s)
    ensures exists a :: Enabled(s, a) && !Spurious(a)
  {
    if i: nat :| i < |c.rows| && ReaderEnabled(s, i) {
      assert Enabled(s, Read(i));
    } else {
      if s.gpc == GReturned {
        // everything is published and at its end, so every reader is done
        AllCounted(s);
        forall i | 0 <= i < |s.readers|
          ensures s.readers[i].pc == RDone
        {
          BlockedReader(c, s, i);
          assert ReaderOk(c.rows[i], s.readers[i], s.gpc, s.rounds, i);
        }
        assert false;
      } else if s.gpc == GWaiting {
        WaitingGathererHasWorker(c, s);
        assert false;
      } else {
        forall i | 0 <= i < |s.readers|
          ensures s.global != ByReader(i) && s.readers[i].mtx != ByReader(i)
        {
          BlockedReader(c, s, i);
        }
        if s.gpc.GAcquiring? {
          var j := s.gpc.j;
          assert ReaderOk(c.rows[j], s.readers[j], s.gpc, s.rounds, j);
        }
        assert Enabled(s, Gather);
      }
    }
  }

  // ----------------------------------------------------------------------- rank

  function PcRank(pc: ReaderPc): nat {
    match pc
    case RStart => 19
    case RReading => 18
    case RUnlocking => 17
    case RLocking => 16
    case RCounting => 15   // 6 above the next, which pays for waking the gatherer
    case RLeaving => 9
    case RRelocking => 8
    case RWoken => 7
    case RChecking => 6
    case RWaiting => 4
    case RFinishing => 2
    case RDone => 1
  }

  function ReaderRank(rows: seq<Row>, r: Reader): nat
    requires r.k <= |rows|
  {
    20 * (|rows| - r.k) + PcRank(r.pc)
  }

  // The position of the gatherer inside a round of n inputs.
  function GatherPcRank(n: nat, gpc: GatherPc): int {
    match gpc
    case GLocking => 16
    case GWoken => 16
    case GTesting => 14
    case GWaiting => 12
    case GDeciding => 10
    case GUnlocking => 23 + 11 * n
    case GAcquiring(j) => 22 + 11 * n - j
    case GComparing => 21 + 10 * n
    case GReleasing(j) => 20 + 10 * (n - j)
    case GSignalling(j) => 19 + 10 * (n - j)
    case GFreeing(j) => 14 + 10 * (n - j)
    case GReturned => 0
    case GExited => 0
  }

  function SumRanks(rows: seq<seq<Row>>, readers: seq<Reader>): nat
    requires |rows| == |readers|
    requires forall i :: 0 <= i < |rows| ==> readers[i].k <= |rows[i]|
  {
    if rows == [] then 0
    else
      var n := |rows| - 1;
      SumRanks(rows[..n], readers[..n]) + ReaderRank(rows[n], readers[n])
  }

  lemma {:induction false} SumRanksUpdate(rows: seq<seq<Row>>, readers: seq<Reader>, i: nat, r: Reader)
    requires |rows| == |readers| && i < |rows| && r.k <= |rows[i]|
    requires forall j :: 0 <= j < |rows| ==> readers[j].k <= |rows[j]|
    ensures SumRanks(rows, readers[i := r]) ==
            SumRanks(rows, readers) - ReaderRank(rows[i], readers[i]) + ReaderRank(rows[i], r)
  {
    var n := |rows| - 1;
    if i == n {
      assert readers[i := r][..n] == readers[..n];
    } else {
      assert readers[i := r][..n] == readers[..n][i := r];
      SumRanksUpdate(rows[..n], readers[..n], i, r);
    }
  }

  ghost predicate Ranked(c: Config, s: State) {
    && 1 <= |s.readers| == |c.rows|
    && (forall i :: 0 <= i < |c.rows| ==> s.readers[i].k <= |c.rows[i]|)
    && s.rounds <= |c.rows[0]|
  }

  lemma InvRanked(c: Config, s: State)
    requires ReadersOk(c, s) && OutputOk(c, s)
    ensures Ranked(c, s)
  {
    forall i | 0 <= i < |c.rows|
      ensures s.readers[i].k <= |c.rows[i]|
    {
      assert ReaderOk(c.rows[i], s.readers[i], s.gpc, s.rounds, i);
    }
  }

  function RoundCost(c: Config): nat { 11 * |c.rows| + 40 }

  function GatherRank(c: Config, gpc: GatherPc, rounds: nat): int
    requires 1 <= |c.rows|
  {
    RoundCost(c) * (|c.rows[0]| - rounds) + GatherPcRank(|c.rows|, gpc)
  }

  function Rank(c: Config, s: State): int
    requires 1 <= |s.readers| == |c.rows|
    requires forall i :: 0 <= i < |c.rows| ==> s.readers[i].k <= |c.rows[i]|
  {
    SumRanks(c.rows, s.readers) + GatherRank(c, s.gpc, s.rounds)
  }

  lemma RankNonNegative(c: Config, s: State)
    requires Ranked(c, s) && GathererOk(c, s)
    ensures Rank(c, s) >= 0
  {
    assert RoundCost(c) * (|c.rows[0]| - s.rounds) >= 0;
  }

  lemma ReaderRankFalls(rows: seq<Row>, r: Reader, gpc: GatherPc, rounds: nat, i: nat)
    requires ReaderOk(rows, r, gpc, rounds, i) && r.pc != RWaiting && r.pc != RDone
    ensures ReaderAfter(rows, r, i).k <= |rows|
    ensures ReaderRank(rows, ReaderAfter(rows, r, i)) < ReaderRank(rows, r)
    ensures r.pc == RCounting ==> ReaderRank(rows, ReaderAfter(rows, r, i)) + 6 == ReaderRank(rows, r)
  {}

  lemma ReaderStepRank(c: Config, s: State, i: nat)
    requires ReadersOk(c, s) && Ranked(c, s) && ReaderEnabled(s, i)
    requires Ranked(c, ReaderStep(c, s, i))
    ensures Rank(c, ReaderStep(c, s, i)) < Rank(c, s)
  {
    var s' := ReaderStep(c, s, i);
    assert ReaderOk(c.rows[i], s.readers[i], s.gpc, s.rounds, i);
    ReaderRankFalls(c.rows[i], s.readers[i], s.gpc, s.rounds, i);
    SumRanksUpdate(c.rows, s.readers, i, s'.readers[i]);
  }

  lemma GatherPcRankFalls(n: nat, gpc: GatherPc, ready: nat, eofs: nat)
    requires 1 <= n && gpc != GWaiting && gpc != GReturned && gpc != GExited
    requires Touched(gpc).Some? ==> Touched(gpc).value < n
    ensures var gpc' := GatherPcAfter(n, gpc, ready, eofs);
            GatherPcRank(n, gpc') + (if gpc.GSignalling? then 4 else 0)
              < GatherPcRank(n, gpc) + if gpc' == GUnlocking then 11 * n + 40 else 0
  {}

  lemma CostOfRound(w: nat, left: int)
    ensures w * (left - 1) == w * left - w
  {}

  lemma TouchedRank(rows: seq<Row>, gpc: GatherPc, r: Reader)
    requires r.k <= |rows|
    ensures TouchedAfter(gpc, r).k == r.k
    ensures ReaderRank(rows, TouchedAfter(gpc, r)) <= ReaderRank(rows, r) + if gpc.GSignalling? then 4 else 0
  {}

  // A gatherer step raises the ranks of the readers by at most 4, and only by signalling.
  lemma GatherStepSums(c: Config, s: State)
    requires GathererOk(c, s) && Ranked(c, s) && GatherEnabled(s)
    requires Ranked(c, GatherStep(c, s))
    ensures SumRanks(c.rows, GatherStep(c, s).readers) <=
            SumRanks(c.rows, s.readers) + if s.gpc.GSignalling? then 4 else 0
  {
    hide Diffs, AnyDiff, LineFor, PublishedRows, EndedInputs, GatherPcAfter, TouchedAfter, ReaderRank, SumRanks;
    match Touched(s.gpc)
    case Some(j) =>
      TouchedRank(c.rows[j], s.gpc, s.readers[j]);
      SumRanksUpdate(c.rows, s.readers, j, TouchedAfter(s.gpc, s.readers[j]));
    case None =>
  }

  lemma GatherRankFalls(c: Config, s: State)
    requires GathererOk(c, s) && Ranked(c, s) && GatherEnabled(s)
    ensures var s' := GatherStep(c, s);
            GatherRank(c, s'.gpc, s'.rounds) + (if s.gpc.GSignalling? then 4 else 0) < GatherRank(c, s.gpc, s.rounds)
  {
    hide Diffs, AnyDiff, LineFor, PublishedRows, EndedInputs, GatherPcAfter, TouchedAfter, GatherPcRank;
    GatherPcRankFalls(|c.rows|, s.gpc, s.ready, s.eofs);
    CostOfRound(RoundCost(c), |c.rows[0]| - s.rounds);
  }

  lemma GatherStepRank(c: Config, s: State)
    requires GathererOk(c, s) && Ranked(c, s) && GatherEnabled(s)
    requires Ranked(c, GatherStep(c, s))
    ensures Rank(c, GatherStep(c, s)) < Rank(c, s)
  {
    hide GatherStep, GatherRank, SumRanks, GathererOk;
    GatherStepSums(c, s);
    GatherRankFalls(c, s);
  }

  lemma SpuriousRank(c: Config, s: State, a: Action)
    requires Ranked(c, s) && Enabled(s, a) && Spurious(a)
    requires Ranked(c, Do(c, s, a))
    ensures Rank(c, Do(c, s, a)) <= Rank(c, s) + 4
  {
    if a.WakeReader? {
      SumRanksUpdate(c.rows, s.readers, a.i, s.readers[a.i].(pc := RWoken));
    }
  }

  // Every step that is not a spurious wakeup lowers the rank; a spurious wakeup
  // raises it by at most 4.
  lemma NextRank(c: Config, s: State, a: Action, s': State)
    requires Inv(c, s) && Next(c, s, a, s')
    ensures Inv(c, s') && Ranked(c, s) && Ranked(c, s')
    ensures !Spurious(a) ==> Rank(c, s') < Rank(c, s)
    ensures Spurious(a) ==> Rank(c, s') <= Rank(c, s) + 4
  {
    NextInv(c, s, a, s');
    InvRanked(c, s);
    InvRanked(c, s');
    match a
    case Read(i) => ReaderStepRank(c, s, i);
    case Gather => GatherStepRank(c, s);
    case _ => SpuriousRank(c, s, a);
  }

  // --------------------------------------------------------------- main results

  function SpuriousCount(acts: seq<Action>): nat {
    if acts == [] then 0
    else SpuriousCount(acts[..|acts| - 1]) + if Spurious(acts[|acts| - 1]) then 1 else 0
  }

  lemma {:induction false} RunRank(c: Config, states: seq<State>, acts: seq<Action>, t: nat)
    requires ValidConfig(c) && IsRun(c, states, acts) && t <= |acts|
    ensures Inv(c, states[t]) && Ranked(c, states[t]) && Ranked(c, states[0])
    ensures t + Rank(c, states[t]) <= Rank(c, states[0]) + 5 * SpuriousCount(acts[..t])
  {
    hide Inv, Rank, Ranked, Next, Spurious;
    RunInv(c, states, acts, t);
    RunInv(c, states, acts, 0);
    InvRanked(c, states[t]);
    InvRanked(c, states[0]);
    if t > 0 {
      var u := t - 1;
      RunRank(c, states, acts, u);
      assert Next(c, states[u], acts[u], states[u + 1]);
      NextRank(c, states[u], acts[u], states[u + 1]);
      assert acts[..t][..u] == acts[..u];
    }
  }

  // A bound on every run: it depends on the inputs and on the number of spurious
  // wakeups only.
  lemma EveryRunEnds(c: Config, states: seq<State>, acts: seq<Action>)
    requires ValidConfig(c) && IsRun(c, states, acts)
    ensures Ranked(c, Init(c))
    ensures |acts| <= Rank(c, Init(c)) + 5 * SpuriousCount(acts)
  {
    RunRank(c, states, acts, |acts|);
    RankNonNegative(c, states[|acts|]);
    assert acts[..|acts|] == acts;
  }

  // A run that cannot be continued without a spurious wakeup has reached the
  // final state, and so has the result of the sequential zip.
  lemma MaximalRunIsZip(c: Config, states: seq<State>, acts: seq<Action>, n: nat)
    requires ValidConfig(c) && IsRun(c, states, acts) && IsShortest(c, n)
    requires forall a :: Enabled(states[|acts|], a) ==> Spurious(a)
    ensures Final(states[|acts|])
    ensures states[|acts|].out == ZipOut(c, n)
    ensures Prints(c, n, states[|acts|].out)
    ensures ExitStatus(states[|acts|]) == if !SameLength(c) then 2 else if ZipDiffers(c, n) then 1 else 0
  {
    RunInv(c, states, acts, |acts|);
    if !Final(states[|acts|]) {
      NoDeadlock(c, states[|acts|]);
      assert false;
    }
    EveryRunIsZip(c, states, acts, |acts|, n);
  }
}
