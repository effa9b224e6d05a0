// The reader/gatherer protocol of csv-diff (src/diff.c) as a transition system.
//
// One reader thread per input runs the CSV parser; its row callback publishes
// the row and blocks until the gatherer has consumed it.  The gatherer waits
// until every reader has published, takes all per-input mutexes, compares the
// rows column by column, prints, and releases the readers one by one.
// Threads, mutexes and condition variables are those of section 7.26 of
// ISO/IEC 9899:2011: a wait releases its mutex and blocks in one step, must
// take the mutex again before it returns, and may return spuriously.

module DiffProtocol {
  import opened Wrappers

  type Row = seq<string>

  // What the command line and the input files fix before the threads start.
  datatype Config = Config(
    rows: seq<seq<Row>>,       // rows[i] is what the parser delivers for input i
    idx: seq<seq<nat>>,        // idx[i][h] is the position of column h in input i
    nheaders: nat,
    printDiff: bool,
    printColors: bool,
    brief: bool,
    allRows: bool)

  ghost predicate ValidConfig(c: Config) {
    && 2 <= |c.rows|
    && |c.idx| == |c.rows|
    && 1 <= c.nheaders
    && (forall i :: 0 <= i < |c.rows| ==> |c.idx[i]| == c.nheaders)
    && (forall i, r, h :: 0 <= i < |c.rows| && 0 <= r < |c.rows[i]| && 0 <= h < c.nheaders
          ==> c.idx[i][h] < |c.rows[i][r]|)
  }

  // ---------------------------------------------------------------- comparing

  // The cell of column h in the row `pub[i]` published by input i.
  function Cell(pub: seq<Row>, idx: seq<seq<nat>>, i: nat, h: nat): string {
    if i < |pub| && i < |idx| && h < |idx[i]| && idx[i][h] < |pub[i]| then pub[i][idx[i][h]] else ""
  }

  predicate ColumnDiffers(pub: seq<Row>, idx: seq<seq<nat>>, h: nat) {
    exists j: nat :: 1 <= j < |pub| && Cell(pub, idx, j, h) != Cell(pub, idx, 0, h)
  }

  function Diffs(pub: seq<Row>, idx: seq<seq<nat>>, nheaders: nat): (d: seq<bool>)
    ensures |d| == nheaders
  {
    seq(nheaders, (h: nat) => ColumnDiffers(pub, idx, h))
  }

  predicate AnyDiff(pub: seq<Row>, idx: seq<seq<nat>>, nheaders: nat) {
    exists h: nat :: h < nheaders && ColumnDiffers(pub, idx, h)
  }

  // Comparing against input 0 alone detects every pair of unequal cells.
  lemma ColumnDiffersAnyPair(pub: seq<Row>, idx: seq<seq<nat>>, h: nat)
    ensures ColumnDiffers(pub, idx, h) <==>
            exists i: nat, j: nat :: i < |pub| && j < |pub| && Cell(pub, idx, i, h) != Cell(pub, idx, j, h)
  {
    if i: nat, j: nat :| i < |pub| && j < |pub| && Cell(pub, idx, i, h) != Cell(pub, idx, j, h) {
      var k := if Cell(pub, idx, i, h) != Cell(pub, idx, 0, h) then i else j;
      assert Cell(pub, idx, k, h) != Cell(pub, idx, 0, h);
    }
  }

  // The two nested loops of gather_and_compare, which leave the inner loop at
  // the first input whose cell differs from input 0.
  method CompareRows(pub: seq<Row>, idx: seq<seq<nat>>, nheaders: nat, diff: array<bool>)
    returns (anyDiff: bool)
    requires 1 <= |pub| == |idx| && diff.Length == nheaders
    modifies diff
    ensures diff[..] == Diffs(pub, idx, nheaders)
    ensures anyDiff <==> AnyDiff(pub, idx, nheaders)
  {
    anyDiff := false;
    for h := 0 to nheaders
      invariant forall g :: 0 <= g < h ==> diff[g] == ColumnDiffers(pub, idx, g)
      invariant anyDiff <==> exists g: nat :: g < h && ColumnDiffers(pub, idx, g)
    {
      diff[h] := false;
      var j := 1;
      while j < |pub|
        invariant 1 <= j <= |pub|
        invariant forall k: nat :: 1 <= k < j ==> Cell(pub, idx, k, h) == Cell(pub, idx, 0, h)
        invariant !diff[h]
        invariant forall g :: 0 <= g < h ==> diff[g] == ColumnDiffers(pub, idx, g)
        invariant anyDiff <==> exists g: nat :: g < h && ColumnDiffers(pub, idx, g)
      {
        if Cell(pub, idx, 0, h) != Cell(pub, idx, j, h) {
          diff[h] := true;
          anyDiff := true;
          break;
        }
        j := j + 1;
      }
    }
  }

  // ------------------------------------------------------------------ printing

  datatype Line = Line(input: nat, fields: seq<string>, diffs: seq<bool>, colors: seq<string>)

  const COLORS := ["red", "green", "blue", "magenta", "cyan", "yellow", "black"]

  // One printed line: the 1-based input number, the reordered columns, then the
  // optional difference flags and colour columns.
  function LineFor(c: Config, pub: seq<Row>, diff: seq<bool>, i: nat): Line {
    Line(i + 1,
         seq(c.nheaders, (h: nat) => Cell(pub, c.idx, i, h)),
         if c.printDiff then diff else [],
         if c.printColors
         then seq(|diff|, k requires 0 <= k < |diff| => if diff[k] then "bg=" + COLORS[i % 7] else "")
         else [])
  }

  // --------------------------------------------------------------------- state

  datatype Owner = Free | ByReader(id: nat) | ByGatherer

  datatype ReaderPc =
    | RStart       // 188-193: about to take its own mutex
    | RReading     // 195: inside the parser, or between two rows
    | RUnlocking   // 155: row or end-of-file is published, own mutex still held
    | RLocking     // 156: about to take the global mutex
    | RCounting    // 157-160: counts itself, signals when it is the last one
    | RLeaving     // 161: about to drop the global mutex
    | RRelocking   // 162: about to take its own mutex again
    | RChecking    // 177: tests the consumed flag
    | RWaiting     // 178: blocked on its condition variable
    | RWoken       // 178: woken, needs its own mutex
    | RFinishing   // 200: about to drop its own mutex for good
    | RDone

  datatype GatherPc =
    | GLocking           // 227
    | GTesting           // 229
    | GWaiting           // 230: blocked on AllThreadsReady
    | GWoken             // 230: woken, needs the global mutex
    | GDeciding          // 232-249
    | GUnlocking         // 250
    | GAcquiring(j: nat) // 252-253
    | GComparing         // 255-273
    | GReleasing(j: nat) // 275-306
    | GSignalling(j: nat)// 307
    | GFreeing(j: nat)   // 308
    | GReturned          // 235
    | GExited            // 246

  datatype Reader = Reader(
    pc: ReaderPc,
    k: nat,              // rows completely handed over so far
    buf: Option<Row>,    // the row in the parser's buffer, while it is published
    consumed: bool,
    eof: bool,
    mtx: Owner,
    releases: nat)       // history: how often the gatherer released this reader

  datatype State = State(
    readers: seq<Reader>,
    global: Owner,
    ready: nat,          // ThreadsReady
    eofs: nat,           // Eofs
    gpc: GatherPc,
    diff: seq<bool>,
    anyDiff: bool,
    ret: nat,
    out: seq<Line>,
    ended: seq<nat>,     // inputs reported as ended before others (1-based)
    rounds: nat)         // history: how often the gatherer reset ThreadsReady

  function Init(c: Config): State {
    State(seq(|c.rows|, (_: nat) => Reader(RStart, 0, None, false, false, Free, 0)),
          Free, 0, 0, GLocking, [], false, 0, [], [], 0)
  }

  function PublishedRow(r: Reader): Row {
    if r.buf.Some? then r.buf.value else []
  }

  function PublishedRows(s: State): seq<Row> {
    seq(|s.readers|, i requires 0 <= i < |s.readers| => PublishedRow(s.readers[i]))
  }

  // -------------------------------------------------------------- reader steps

  predicate ReaderEnabled(s: State, i: nat) {
    && i < |s.readers|
    && s.gpc != GExited
    && match s.readers[i].pc
       case RStart | RRelocking | RWoken => s.readers[i].mtx == Free
       case RLocking => s.global == Free
       case RWaiting | RDone => false
       case _ => true
  }

  // What one step of reader i does to its own record.
  function ReaderAfter(rows: seq<Row>, r: Reader, i: nat): Reader {
    match r.pc
    case RStart => r.(mtx := ByReader(i), eof := false, consumed := false, pc := RReading)
    case RReading =>
      if r.k < |rows| then r.(buf := Some(rows[r.k]), consumed := false, pc := RUnlocking)
      else r.(eof := true, pc := RUnlocking)
    case RUnlocking => r.(mtx := Free, pc := RLocking)
    case RLocking => r.(pc := RCounting)
    case RCounting => r.(pc := RLeaving)
    case RLeaving => r.(pc := RRelocking)
    case RRelocking => r.(mtx := ByReader(i), pc := if r.eof then RFinishing else RChecking)
    case RChecking =>
      if r.consumed then r.(k := r.k + 1, buf := None, pc := RReading) // the parser reuses its buffer
      else r.(mtx := Free, pc := RWaiting)
    case RWoken => r.(mtx := ByReader(i), pc := RChecking)
    case RFinishing => r.(mtx := Free, pc := RDone)
    case RWaiting | RDone => r
  }

  // ... and to the shared counters, the global mutex and the gatherer.
  function ReaderStep(c: Config, s: State, i: nat): State
    requires |s.readers| == |c.rows| && ReaderEnabled(s, i)
  {
    var r := s.readers[i];
    s.(readers := s.readers[i := ReaderAfter(c.rows[i], r, i)],
       global := if r.pc == RLocking then ByReader(i) else if r.pc == RLeaving then Free else s.global,
       eofs := if r.pc == RCounting && r.eof then s.eofs + 1 else s.eofs,
       ready := if r.pc == RCounting then s.ready + 1 else s.ready,
       gpc := if r.pc == RCounting && s.ready + 1 == |c.rows| && s.gpc == GWaiting then GWoken else s.gpc)
  }

  // ------------------------------------------------------------ gatherer steps

  predicate GatherEnabled(s: State) {
    match s.gpc
    case GLocking | GWoken => s.global == Free
    case GAcquiring(j) => j < |s.readers| && s.readers[j].mtx == Free
    case GReleasing(j) => j < |s.readers|
    case GSignalling(j) => j < |s.readers|
    case GFreeing(j) => j < |s.readers|
    case GWaiting | GReturned | GExited => false
    case _ => true
  }

  // The inputs reported on standard error, in input order.
  function EndedInputs(readers: seq<Reader>): seq<nat> {
    if readers == [] then []
    else EndedInputs(readers[..|readers| - 1]) + if readers[|readers| - 1].eof then [|readers|] else []
  }

  // The reader whose record the step touches, and what it does to it.
  function Touched(gpc: GatherPc): Option<nat> {
    match gpc
    case GAcquiring(j) => Some(j)
    case GReleasing(j) => Some(j)
    case GSignalling(j) => Some(j)
    case GFreeing(j) => Some(j)
    case _ => None
  }

  function TouchedAfter(gpc: GatherPc, r: Reader): Reader {
    match gpc
    case GAcquiring(_) => r.(mtx := ByGatherer)
    case GReleasing(_) => r.(consumed := true, releases := r.releases + 1)
    case GSignalling(_) => if r.pc == RWaiting then r.(pc := RWoken) else r
    case GFreeing(_) => r.(mtx := Free)
    case _ => r
  }

  // Where the gatherer goes next, for n inputs.
  function GatherPcAfter(n: nat, gpc: GatherPc, ready: nat, eofs: nat): GatherPc {
    match gpc
    case GLocking => GTesting
    case GTesting => if ready != n then GWaiting else GDeciding
    case GWoken => GTesting
    case GDeciding => if eofs == n then GReturned else if eofs > 0 then GExited else GUnlocking
    case GUnlocking => GAcquiring(0)
    case GAcquiring(j) => if j + 1 < n then GAcquiring(j + 1) else GComparing
    case GComparing => GReleasing(0)
    case GReleasing(j) => GSignalling(j)
    case GSignalling(j) => GFreeing(j)
    case GFreeing(j) => if j + 1 < n then GReleasing(j + 1) else GLocking
    case GWaiting | GReturned | GExited => gpc
  }

  function GatherStep(c: Config, s: State): State
    requires |s.readers| == |c.rows| && GatherEnabled(s)
  {
    var pc' := GatherPcAfter(|c.rows|, s.gpc, s.ready, s.eofs);
    var comparing := s.gpc == GComparing;
    var any := comparing && AnyDiff(PublishedRows(s), c.idx, c.nheaders);
    var prints := s.gpc.GReleasing? && (s.anyDiff || c.allRows) && !c.brief;
    s.(gpc := pc',
       readers := match Touched(s.gpc)
                  case Some(j) => s.readers[j := TouchedAfter(s.gpc, s.readers[j])]
                  case None => s.readers,
       global := if s.gpc in {GLocking, GWoken} then ByGatherer
                 else if pc' in {GWaiting, GReturned} || s.gpc == GUnlocking then Free
                 else s.global,
       ready := if pc' == GUnlocking then 0 else s.ready,
       rounds := if pc' == GUnlocking then s.rounds + 1 else s.rounds,
       diff := if comparing then Diffs(PublishedRows(s), c.idx, c.nheaders) else s.diff,
       anyDiff := if comparing then any else s.anyDiff,
       ret := if any then 1 else s.ret,
       out := if prints then s.out + [LineFor(c, PublishedRows(s), s.diff, s.gpc.j)] else s.out,
       ended := if pc' == GExited then EndedInputs(s.readers) else s.ended)
  }

  // ---------------------------------------------------------------------- runs

  datatype Action = Read(i: nat) | Gather | WakeReader(i: nat) | WakeGatherer

  predicate Spurious(a: Action) { a.WakeReader? || a.WakeGatherer? }

  predicate Enabled(s: State, a: Action) {
    match a
    case Read(i) => ReaderEnabled(s, i)
    case Gather => GatherEnabled(s)
    case WakeReader(i) => i < |s.readers| && s.gpc != GExited && s.readers[i].pc == RWaiting
    case WakeGatherer => s.gpc == GWaiting
  }

  function Do(c: Config, s: State, a: Action): State
    requires |s.readers| == |c.rows| && Enabled(s, a)
  {
    match a
    case Read(i) => ReaderStep(c, s, i)
    case Gather => GatherStep(c, s)
    case WakeReader(i) => s.(readers := s.readers[i := s.readers[i].(pc := RWoken)])
    case WakeGatherer => s.(gpc := GWoken)
  }

  ghost predicate Next(c: Config, s: State, a: Action, s': State) {
    |s.readers| == |c.rows| && Enabled(s, a) && s' == Do(c, s, a)
  }

  // states[0] is initial and acts[t] leads from states[t] to states[t + 1].
  ghost predicate IsRun(c: Config, states: seq<State>, acts: seq<Action>) {
    && |states| == |acts| + 1
    && states[0] == Init(c)
    && forall t :: 0 <= t < |acts| ==> Next(c, states[t], acts[t], states[t + 1])
  }

  // The process is over: it exited, or the gatherer returned and every reader
  // thread can be joined.
  ghost predicate Final(s: State) {
    s.gpc == GExited || (s.gpc == GReturned && forall i :: 0 <= i < |s.readers| ==> s.readers[i].pc == RDone)
  }
}
