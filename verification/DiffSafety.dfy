// Safety of the csv-diff protocol: in every reachable state the gatherer only
// compares rows of one and the same index, and every terminal state carries the
// output and the status of a sequential row-by-row zip of the inputs.

module DiffZip {
  import opened DiffProtocol

  // Reference definition: compare row 0 of all inputs, then row 1, and so on.

  ghost predicate InAll(c: Config, r: nat) {
    forall i :: 0 <= i < |c.rows| ==> r < |c.rows[i]|
  }

  ghost predicate AtMostAll(c: Config, n: nat) {
    forall i :: 0 <= i < |c.rows| ==> n <= |c.rows[i]|
  }

  ghost function RoundRows(c: Config, r: nat): seq<Row>
    requires InAll(c, r)
  {
    seq(|c.rows|, i requires 0 <= i < |c.rows| => c.rows[i][r])
  }

  ghost predicate RoundDiffers(c: Config, r: nat)
    requires InAll(c, r)
  {
    AnyDiff(RoundRows(c, r), c.idx, c.nheaders)
  }

  // The first j lines printed for round r.
  ghost function RoundLines(c: Config, r: nat, j: nat): seq<Line>
    requires InAll(c, r) && j <= |c.rows|
  {
    if (RoundDiffers(c, r) || c.allRows) && !c.brief then
      seq(j, (i: nat) => LineFor(c, RoundRows(c, r), Diffs(RoundRows(c, r), c.idx, c.nheaders), i))
    else []
  }

  ghost function ZipOut(c: Config, n: nat): seq<Line>
    requires AtMostAll(c, n)
  {
    if n == 0 then [] else ZipOut(c, n - 1) + RoundLines(c, n - 1, |c.rows|)
  }

  ghost predicate ZipDiffers(c: Config, n: nat)
    requires AtMostAll(c, n)
  {
    exists r: nat :: r < n && InAll(c, r) && RoundDiffers(c, r)
  }

  // ---------------------------------------------------------------- what is printed

  // Some cell of column h in row r is not that of input 0.
  ghost predicate Varies(c: Config, r: nat, h: nat)
    requires ValidConfig(c) && InAll(c, r) && h < c.nheaders
  {
    exists j :: 0 <= j < |c.rows| && c.rows[j][r][c.idx[j][h]] != c.rows[0][r][c.idx[0][h]]
  }

  // Which rows are printed.
  ghost predicate Shown(c: Config, r: nat)
    requires ValidConfig(c) && InAll(c, r)
  {
    !c.brief && (c.allRows || exists h: nat :: h < c.nheaders && Varies(c, r, h))
  }

  // The line printed for row r of input i: its number counted from 1, its cells
  // in the order of the headers, and on demand a flag and a colour for each.
  ghost predicate Shows(c: Config, r: nat, i: nat, line: Line)
    requires ValidConfig(c) && InAll(c, r) && i < |c.rows|
  {
    && line.input == i + 1
    && |line.fields| == c.nheaders
    && |line.diffs| == (if c.printDiff then c.nheaders else 0)
    && |line.colors| == (if c.printColors then c.nheaders else 0)
    && forall h :: 0 <= h < c.nheaders ==>
         && line.fields[h] == c.rows[i][r][c.idx[i][h]]
         && (c.printDiff ==> (line.diffs[h] <==> Varies(c, r, h)))
         && (c.printColors ==> line.colors[h] == if Varies(c, r, h) then "bg=" + Color(i) else "")
  }

  // The seven colours in turn.
  function Color(i: nat): string {
    match i % 7
    case 0 => "red"
    case 1 => "green"
    case 2 => "blue"
    case 3 => "magenta"
    case 4 => "cyan"
    case 5 => "yellow"
    case _ => "black"
  }

  function Joined(pages: seq<seq<Line>>): seq<Line> {
    if pages == [] then [] else Joined(pages[..|pages| - 1]) + pages[|pages| - 1]
  }

  ghost predicate Page(c: Config, r: nat, page: seq<Line>)
    requires ValidConfig(c) && InAll(c, r)
  {
    |page| == |c.rows| && forall i :: 0 <= i < |c.rows| ==> Shows(c, r, i, page[i])
  }

  // One page of lines for each of the first n rows: empty if it is not shown,
  // else with one line for each input, in input order.
  ghost predicate Printout(c: Config, n: nat, pages: seq<seq<Line>>)
    requires ValidConfig(c) && AtMostAll(c, n)
  {
    |pages| == n &&
    forall r :: 0 <= r < n ==> if Shown(c, r) then Page(c, r, pages[r]) else pages[r] == []
  }

  // What csv-diff prints of the first n rows, in terms of its inputs alone.
  ghost predicate Prints(c: Config, n: nat, out: seq<Line>)
    requires ValidConfig(c) && AtMostAll(c, n)
  {
    exists pages :: Printout(c, n, pages) && out == Joined(pages)
  }

  lemma LineShows(c: Config, r: nat, i: nat)
    requires ValidConfig(c) && InAll(c, r) && i < |c.rows|
    ensures Shows(c, r, i, LineFor(c, RoundRows(c, r), Diffs(RoundRows(c, r), c.idx, c.nheaders), i))
  {
    forall h: nat | h < c.nheaders
      ensures ColumnDiffers(RoundRows(c, r), c.idx, h) <==> Varies(c, r, h)
    {
      ColumnVaries(c, r, h);
    }
    assert COLORS[i % 7] == Color(i);
  }

  lemma ColumnVaries(c: Config, r: nat, h: nat)
    requires ValidConfig(c) && InAll(c, r) && h < c.nheaders
    ensures ColumnDiffers(RoundRows(c, r), c.idx, h) <==> Varies(c, r, h)
  {
    var pub := RoundRows(c, r);
    assert forall j :: 0 <= j < |c.rows| ==> Cell(pub, c.idx, j, h) == c.rows[j][r][c.idx[j][h]];
  }

  lemma RoundShown(c: Config, r: nat)
    requires ValidConfig(c) && InAll(c, r)
    ensures Shown(c, r) <==> (RoundDiffers(c, r) || c.allRows) && !c.brief
  {
    hide ColumnDiffers, Varies;
    forall h: nat | h < c.nheaders
      ensures ColumnDiffers(RoundRows(c, r), c.idx, h) <==> Varies(c, r, h)
    {
      ColumnVaries(c, r, h);
    }
  }

  lemma RoundPage(c: Config, r: nat)
    requires ValidConfig(c) && InAll(c, r)
    ensures if Shown(c, r) then Page(c, r, RoundLines(c, r, |c.rows|)) else RoundLines(c, r, |c.rows|) == []
  {
    hide Shown, Shows, Varies, LineFor, Diffs, RoundDiffers;
    RoundShown(c, r);
    forall i | 0 <= i < |c.rows|
      ensures Shows(c, r, i, LineFor(c, RoundRows(c, r), Diffs(RoundRows(c, r), c.idx, c.nheaders), i))
    {
      LineShows(c, r, i);
    }
  }

  // The output of the zip, read off the inputs: which rows are printed, in which
  // order, and every field, flag and colour of every line.
  lemma {:induction false} ZipPrints(c: Config, n: nat) returns (pages: seq<seq<Line>>)
    requires ValidConfig(c) && AtMostAll(c, n)
    ensures Printout(c, n, pages) && ZipOut(c, n) == Joined(pages)
    decreases n
  {
    hide Shown, Page, RoundLines;
    if n == 0 {
      pages := [];
    } else {
      var before := ZipPrints(c, n - 1);
      RoundPage(c, n - 1);
      pages := before + [RoundLines(c, n - 1, |c.rows|)];
      assert pages[..n - 1] == before;
    }
  }

  ghost predicate SameLength(c: Config) {
    forall i, j :: 0 <= i < |c.rows| && 0 <= j < |c.rows| ==> |c.rows[i]| == |c.rows[j]|
  }

  // n is the length of the shortest input.
  ghost predicate IsShortest(c: Config, n: nat) {
    AtMostAll(c, n) && exists i :: 0 <= i < |c.rows| && |c.rows[i]| == n
  }

  // The 1-based numbers of the first m inputs that have exactly n rows.
  ghost function ShortInputs(c: Config, n: nat, m: nat): (inputs: seq<nat>)
    requires m <= |c.rows|
    ensures forall k :: 0 <= k < |inputs| ==> 1 <= inputs[k] <= m && |c.rows[inputs[k] - 1]| == n
    ensures forall x :: 1 <= x <= m && |c.rows[x - 1]| == n ==> x in inputs
    ensures forall k, l :: 0 <= k < l < |inputs| ==> inputs[k] < inputs[l]
  {
    if m == 0 then [] else ShortInputs(c, n, m - 1) + if |c.rows[m - 1]| == n then [m] else []
  }
}

module DiffSafety {
  import opened DiffProtocol
  import opened DiffZip
  import opened Wrappers

  // ------------------------------------------------------------------ counting

  function Count(flags: seq<bool>): (n: nat)
    ensures n <= |flags|
  {
    if flags == [] then 0
    else Count(flags[..|flags| - 1]) + if flags[|flags| - 1] then 1 else 0
  }

  lemma {:induction false} CountUpdate(flags: seq<bool>, i: nat, b: bool)
    requires i < |flags|
    ensures Count(flags[i := b]) == Count(flags) - (if flags[i] then 1 else 0) + (if b then 1 else 0)
  {
    var n := |flags| - 1;
    if i == n {
      assert flags[i := b][..n] == flags[..n];
    } else {
      assert flags[i := b][..n] == flags[..n][i := b];
      CountUpdate(flags[..n], i, b);
    }
  }

  lemma {:induction false} CountAll(flags: seq<bool>)
    ensures Count(flags) == |flags| <==> forall i :: 0 <= i < |flags| ==> flags[i]
    ensures Count(flags) == 0 <==> forall i :: 0 <= i < |flags| ==> !flags[i]
  {
    if flags != [] {
      var n := |flags| - 1;
      CountAll(flags[..n]);
      assert forall i :: 0 <= i < n ==> flags[..n][i] == flags[i];
    }
  }

  // ----------------------------------------------------------------- invariant

  // Reader i has added itself to ThreadsReady for the row (or end) it published.
  predicate AfterCount(pc: ReaderPc) {
    pc in {RLeaving, RRelocking, RChecking, RWaiting, RWoken, RFinishing, RDone}
  }

  predicate HasPublished(pc: ReaderPc) {
    pc in {RUnlocking, RLocking, RCounting} || AfterCount(pc)
  }

  // How often the reader has counted itself so far.
  function Counted(r: Reader): nat { r.k + if AfterCount(r.pc) then 1 else 0 }

  predicate HoldsOwn(pc: ReaderPc) { pc in {RReading, RUnlocking, RChecking, RFinishing} }

  predicate GathererHolds(gpc: GatherPc, i: nat) {
    match gpc
    case GAcquiring(j) => i < j
    case GComparing => true
    case GReleasing(j) => j <= i
    case GSignalling(j) => j <= i
    case GFreeing(j) => j <= i
    case _ => false
  }

  predicate GathererHoldsGlobal(gpc: GatherPc) { gpc in {GTesting, GDeciding, GUnlocking, GExited} }

  // Between the reset of ThreadsReady and the release of the last reader.
  predicate InRound(gpc: GatherPc) {
    gpc.GUnlocking? || gpc.GAcquiring? || gpc.GComparing? || gpc.GReleasing? || gpc.GSignalling? || gpc.GFreeing?
  }

  predicate Released(gpc: GatherPc, i: nat) {
    match gpc
    case GUnlocking | GAcquiring(_) | GComparing => false
    case GReleasing(j) => i < j
    case GSignalling(j) => i <= j
    case GFreeing(j) => i <= j
    case _ => true
  }

  function OwnerOf(r: Reader, gpc: GatherPc, i: nat): Owner {
    if HoldsOwn(r.pc) then ByReader(i) else if GathererHolds(gpc, i) then ByGatherer else Free
  }

  predicate DataOk(rows: seq<Row>, r: Reader) {
    && r.k <= |rows|
    && (r.pc == RStart ==> r.k == 0)
    && (r.pc in {RStart, RReading} ==> !r.eof)
    && (HasPublished(r.pc) ==> (r.eof <==> r.k == |rows|))
    && (r.pc in {RChecking, RWaiting, RWoken} ==> !r.eof)
    && (r.pc in {RFinishing, RDone} ==> r.eof)
    && (HasPublished(r.pc) && !r.eof ==> r.buf == Some(rows[r.k]))
    && (r.pc in {RUnlocking, RLocking, RCounting} && !r.eof ==> !r.consumed)
  }

  predicate PhaseOk(r: Reader, released: bool, rounds: nat) {
    if released then
      && rounds <= Counted(r) <= rounds + 1
      && (!AfterCount(r.pc) ==> r.k == rounds)
      && (Counted(r) == rounds && AfterCount(r.pc) ==> r.consumed && !r.eof)
      && (Counted(r) == rounds + 1 && !r.eof ==> !r.consumed)
      && r.releases == rounds
    else
      && AfterCount(r.pc) && r.k + 1 == rounds && !r.eof && !r.consumed
      && r.releases + 1 == rounds
  }

  predicate ReaderOk(rows: seq<Row>, r: Reader, gpc: GatherPc, rounds: nat, i: nat) {
    && DataOk(rows, r)
    && PhaseOk(r, Released(gpc, i), rounds)
    && r.mtx == OwnerOf(r, gpc, i)
    && !(HoldsOwn(r.pc) && GathererHolds(gpc, i))
    && (r.pc == RWaiting && r.consumed ==> gpc == GSignalling(i))
  }

  ghost predicate ReadersOk(c: Config, s: State) {
    && 1 <= |s.readers| == |c.rows|
    && forall i :: 0 <= i < |c.rows| ==> ReaderOk(c.rows[i], s.readers[i], s.gpc, s.rounds, i)
  }

  ghost predicate GlobalOk(s: State) {
    && (s.global == ByGatherer <==> GathererHoldsGlobal(s.gpc))
    && (forall i :: 0 <= i < |s.readers| ==>
          (s.global == ByReader(i) <==> s.readers[i].pc in {RCounting, RLeaving}))
    && (s.global.ByReader? ==> s.global.id < |s.readers|)
  }

  function ReadyFlags(readers: seq<Reader>, rounds: nat): seq<bool> {
    seq(|readers|, i requires 0 <= i < |readers| => Counted(readers[i]) == rounds + 1)
  }

  function EofFlags(readers: seq<Reader>): seq<bool> {
    seq(|readers|, i requires 0 <= i < |readers| => readers[i].eof && AfterCount(readers[i].pc))
  }

  ghost predicate CountersOk(s: State) {
    && s.ready == Count(ReadyFlags(s.readers, s.rounds))
    && s.eofs == Count(EofFlags(s.readers))
  }

  // Rounds whose rows have been compared.
  function Compared(gpc: GatherPc, rounds: nat): nat {
    if (gpc.GUnlocking? || gpc.GAcquiring? || gpc.GComparing?) && rounds > 0 then rounds - 1 else rounds
  }

  // Lines of the current round that are already printed.
  function PartlyPrinted(gpc: GatherPc): nat {
    match gpc
    case GReleasing(j) => j
    case GSignalling(j) => j + 1
    case GFreeing(j) => j + 1
    case _ => 0
  }

  ghost predicate RoundsOk(c: Config, gpc: GatherPc, rounds: nat) {
    && AtMostAll(c, rounds)
    && (InRound(gpc) ==> rounds > 0)
    && PartlyPrinted(gpc) <= |c.rows|
  }

  ghost predicate PrintedOk(c: Config, gpc: GatherPc, rounds: nat, out: seq<Line>)
    requires RoundsOk(c, gpc, rounds)
  {
    out == if InRound(gpc) then ZipOut(c, rounds - 1) + RoundLines(c, rounds - 1, PartlyPrinted(gpc))
           else ZipOut(c, rounds)
  }

  ghost predicate StatusOk(c: Config, gpc: GatherPc, rounds: nat, ret: nat)
    requires RoundsOk(c, gpc, rounds)
  {
    ret == if ZipDiffers(c, Compared(gpc, rounds)) then 1 else 0
  }

  ghost predicate DiffOk(c: Config, gpc: GatherPc, rounds: nat, diff: seq<bool>, anyDiff: bool)
    requires RoundsOk(c, gpc, rounds)
  {
    gpc.GReleasing? || gpc.GSignalling? || gpc.GFreeing? ==>
      && anyDiff == RoundDiffers(c, rounds - 1)
      && diff == Diffs(RoundRows(c, rounds - 1), c.idx, c.nheaders)
  }

  ghost predicate OutputOk(c: Config, s: State) {
    && RoundsOk(c, s.gpc, s.rounds)
    && PrintedOk(c, s.gpc, s.rounds, s.out)
    && StatusOk(c, s.gpc, s.rounds, s.ret)
    && DiffOk(c, s.gpc, s.rounds, s.diff, s.anyDiff)
  }

  ghost predicate GathererOk(c: Config, s: State) {
    && (s.gpc == GWaiting ==> s.ready != |c.rows|)
    && (s.gpc in {GDeciding, GReturned, GExited} ==> s.ready == |c.rows|)
    && (s.gpc.GAcquiring? ==> s.gpc.j < |c.rows|)
    && (s.gpc.GReleasing? ==> s.gpc.j < |c.rows|)
    && (s.gpc.GSignalling? ==> s.gpc.j < |c.rows|)
    && (s.gpc.GFreeing? ==> s.gpc.j < |c.rows|)
    && (s.gpc == GReturned ==> s.eofs == |c.rows|)
    && (s.gpc != GExited ==> s.ended == [])
    && (s.gpc == GExited ==> 0 < s.eofs < |c.rows| && s.ended == ShortInputs(c, s.rounds, |c.rows|))
  }

  ghost predicate Inv(c: Config, s: State) {
    && ReadersOk(c, s)
    && GlobalOk(s)
    && CountersOk(s)
    && GathererOk(c, s)
    && OutputOk(c, s)
  }

  // -------------------------------------------------------------- initial state

  lemma InitInv(c: Config)
    requires ValidConfig(c)
    ensures Inv(c, Init(c))
  {
    var s := Init(c);
    CountAll(ReadyFlags(s.readers, 0));
    CountAll(EofFlags(s.readers));
  }

  // --------------------------------------------------------------- reader steps

  lemma FlagsUpdate(readers: seq<Reader>, rounds: nat, i: nat, r: Reader)
    requires i < |readers|
    ensures ReadyFlags(readers[i := r], rounds) == ReadyFlags(readers, rounds)[i := Counted(r) == rounds + 1]
    ensures EofFlags(readers[i := r]) == EofFlags(readers)[i := r.eof && AfterCount(r.pc)]
    ensures Count(ReadyFlags(readers[i := r], rounds)) == Count(ReadyFlags(readers, rounds))
              - (if Counted(readers[i]) == rounds + 1 then 1 else 0) + (if Counted(r) == rounds + 1 then 1 else 0)
    ensures Count(EofFlags(readers[i := r])) == Count(EofFlags(readers))
              - (if readers[i].eof && AfterCount(readers[i].pc) then 1 else 0)
              + (if r.eof && AfterCount(r.pc) then 1 else 0)
  {
    assert ReadyFlags(readers[i := r], rounds) == ReadyFlags(readers, rounds)[i := Counted(r) == rounds + 1];
    assert EofFlags(readers[i := r]) == EofFlags(readers)[i := r.eof && AfterCount(r.pc)];
    CountUpdate(ReadyFlags(readers, rounds), i, Counted(r) == rounds + 1);
    CountUpdate(EofFlags(readers), i, r.eof && AfterCount(r.pc));
  }

  lemma AllCounted(s: State)
    requires CountersOk(s)
    ensures s.ready == |s.readers| <==> forall i :: 0 <= i < |s.readers| ==> Counted(s.readers[i]) == s.rounds + 1
    ensures s.eofs == |s.readers| <==>
              forall i :: 0 <= i < |s.readers| ==> s.readers[i].eof && AfterCount(s.readers[i].pc)
    ensures s.eofs == 0 <==> forall i :: 0 <= i < |s.readers| ==> !(s.readers[i].eof && AfterCount(s.readers[i].pc))
  {
    CountAll(ReadyFlags(s.readers, s.rounds));
    CountAll(EofFlags(s.readers));
    var f, e := ReadyFlags(s.readers, s.rounds), EofFlags(s.readers);
    assert forall i :: 0 <= i < |s.readers| ==> f[i] == (Counted(s.readers[i]) == s.rounds + 1);
    assert forall i :: 0 <= i < |s.readers| ==> e[i] == (s.readers[i].eof && AfterCount(s.readers[i].pc));
  }

  // The step keeps the reader's own record in order.
  lemma OwnStep(rows: seq<Row>, r: Reader, gpc: GatherPc, gpc': GatherPc, rounds: nat, i: nat)
    requires ReaderOk(rows, r, gpc, rounds, i)
    requires gpc' == gpc || (gpc == GWaiting && gpc' == GWoken)
    requires r.pc in {RStart, RRelocking, RWoken} ==> r.mtx == Free
    ensures ReaderOk(rows, ReaderAfter(rows, r, i), gpc', rounds, i)
  {
    var r' := ReaderAfter(rows, r, i);
    assert DataOk(rows, r');
    assert r'.mtx == OwnerOf(r', gpc', i) && !(HoldsOwn(r'.pc) && GathererHolds(gpc', i));
    assert PhaseOk(r', Released(gpc', i), rounds);
  }

  // The other readers do not notice a gatherer that is woken up.
  lemma OtherReader(rows: seq<Row>, r: Reader, gpc: GatherPc, gpc': GatherPc, rounds: nat, i: nat)
    requires ReaderOk(rows, r, gpc, rounds, i)
    requires gpc' == gpc || (gpc == GWaiting && gpc' == GWoken)
    ensures ReaderOk(rows, r, gpc', rounds, i)
  {}

  lemma ReaderStepReaders(c: Config, s: State, i: nat)
    requires ReadersOk(c, s) && ReaderEnabled(s, i)
    ensures ReadersOk(c, ReaderStep(c, s, i))
  {
    var s' := ReaderStep(c, s, i);
    forall j | 0 <= j < |c.rows|
      ensures ReaderOk(c.rows[j], s'.readers[j], s'.gpc, s'.rounds, j)
    {
      if j == i {
        OwnStep(c.rows[i], s.readers[i], s.gpc, s'.gpc, s.rounds, i);
      } else {
        OtherReader(c.rows[j], s.readers[j], s.gpc, s'.gpc, s.rounds, j);
      }
    }
  }

  lemma ReaderStepGlobal(c: Config, s: State, i: nat)
    requires ReadersOk(c, s) && GlobalOk(s) && ReaderEnabled(s, i)
    ensures GlobalOk(ReaderStep(c, s, i))
  {
  }

  lemma ReaderStepCounters(c: Config, s: State, i: nat)
    requires ReadersOk(c, s) && CountersOk(s) && ReaderEnabled(s, i)
    ensures CountersOk(ReaderStep(c, s, i))
  {
    var s' := ReaderStep(c, s, i);
    FlagsUpdate(s.readers, s.rounds, i, s'.readers[i]);
    assert ReaderOk(c.rows[i], s.readers[i], s.gpc, s.rounds, i);
  }

  // A counting reader can only make ThreadsReady reach the number of inputs,
  // and then it wakes the gatherer.
  lemma ReaderStepGatherer(c: Config, s: State, i: nat)
    requires ReadersOk(c, s) && GlobalOk(s) && CountersOk(s) && GathererOk(c, s) && ReaderEnabled(s, i)
    ensures GathererOk(c, ReaderStep(c, s, i))
  {
    AllCounted(s);
    assert ReaderOk(c.rows[i], s.readers[i], s.gpc, s.rounds, i);
  }

  lemma ReaderStepOutput(c: Config, s: State, i: nat)
    requires OutputOk(c, s) && |s.readers| == |c.rows| && ReaderEnabled(s, i)
    ensures OutputOk(c, ReaderStep(c, s, i))
  {}

  lemma ReaderStepInv(c: Config, s: State, i: nat)
    requires Inv(c, s) && ReaderEnabled(s, i)
    ensures Inv(c, ReaderStep(c, s, i))
  {
    ReaderStepReaders(c, s, i);
    ReaderStepGlobal(c, s, i);
    ReaderStepCounters(c, s, i);
    ReaderStepGatherer(c, s, i);
    ReaderStepOutput(c, s, i);
  }

  // ------------------------------------------------------------ gatherer steps

  // What the record of reader i becomes when the gatherer moves on.
  lemma TouchedStep(rows: seq<Row>, r: Reader, gpc: GatherPc, n: nat, ready: nat, eofs: nat, rounds: nat, i: nat)
    requires ReaderOk(rows, r, gpc, rounds, i) && i < n
    requires gpc == GAcquiring(i) ==> r.mtx == Free
    requires Touched(gpc).Some? ==> Touched(gpc).value < n
    requires gpc == GDeciding && eofs == 0 ==> Counted(r) == rounds + 1 && !r.eof
    ensures var gpc' := GatherPcAfter(n, gpc, ready, eofs);
            ReaderOk(rows, if Touched(gpc) == Some(i) then TouchedAfter(gpc, r) else r, gpc',
                     if gpc' == GUnlocking then rounds + 1 else rounds, i)
  {}

  lemma GatherStepReader(c: Config, s: State, i: nat)
    requires ReadersOk(c, s) && CountersOk(s) && GathererOk(c, s) && GatherEnabled(s) && i < |c.rows|
    ensures var s' := GatherStep(c, s);
            ReaderOk(c.rows[i], s'.readers[i], s'.gpc, s'.rounds, i)
  {
    AllCounted(s);
    TouchedStep(c.rows[i], s.readers[i], s.gpc, |c.rows|, s.ready, s.eofs, s.rounds, i);
  }

  lemma GatherStepReaders(c: Config, s: State)
    requires ReadersOk(c, s) && CountersOk(s) && GathererOk(c, s) && GatherEnabled(s)
    ensures ReadersOk(c, GatherStep(c, s))
  {
    var s' := GatherStep(c, s);
    forall i | 0 <= i < |c.rows|
      ensures ReaderOk(c.rows[i], s'.readers[i], s'.gpc, s'.rounds, i)
    {
      GatherStepReader(c, s, i);
    }
  }

  lemma GatherStepGlobal(c: Config, s: State)
    requires GlobalOk(s) && |s.readers| == |c.rows| && GatherEnabled(s)
    ensures GlobalOk(GatherStep(c, s))
  {}

  // No gatherer step changes what the counters count; the reset moves on to the
  // next round, for which nobody has counted itself yet.
  lemma SameFlags(before: seq<Reader>, after: seq<Reader>, rounds: nat)
    requires |before| == |after|
    requires forall i :: 0 <= i < |before| ==> Counted(after[i]) == Counted(before[i])
    requires forall i :: 0 <= i < |before| ==>
               after[i].eof == before[i].eof && AfterCount(after[i].pc) == AfterCount(before[i].pc)
    ensures ReadyFlags(after, rounds) == ReadyFlags(before, rounds) && EofFlags(after) == EofFlags(before)
  {}

  lemma ResetFlags(readers: seq<Reader>, rounds: nat)
    requires Count(ReadyFlags(readers, rounds)) == |readers|
    ensures Count(ReadyFlags(readers, rounds + 1)) == 0
  {
    var f, f' := ReadyFlags(readers, rounds), ReadyFlags(readers, rounds + 1);
    CountAll(f);
    CountAll(f');
    assert forall i :: 0 <= i < |readers| ==> f[i] ==> !f'[i];
  }

  lemma GatherStepCounters(c: Config, s: State)
    requires |s.readers| == |c.rows| && CountersOk(s) && GathererOk(c, s) && GatherEnabled(s)
    ensures CountersOk(GatherStep(c, s))
  {
    var s' := GatherStep(c, s);
    SameFlags(s.readers, s'.readers, s.rounds);
    if s'.gpc == GUnlocking {
      ResetFlags(s.readers, s.rounds);
    }
  }

  lemma {:induction false} EndedAreShort(c: Config, readers: seq<Reader>, n: nat)
    requires |readers| <= |c.rows|
    requires forall i :: 0 <= i < |readers| ==> (readers[i].eof <==> |c.rows[i]| == n)
    ensures EndedInputs(readers) == ShortInputs(c, n, |readers|)
  {
    if readers != [] {
      EndedAreShort(c, readers[..|readers| - 1], n);
    }
  }

  lemma ExitReportsShortInputs(c: Config, s: State)
    requires ReadersOk(c, s) && CountersOk(s) && s.gpc == GDeciding && s.ready == |c.rows|
    ensures EndedInputs(s.readers) == ShortInputs(c, s.rounds, |c.rows|)
  {
    AllCounted(s);
    forall i | 0 <= i < |s.readers|
      ensures s.readers[i].eof <==> |c.rows[i]| == s.rounds
    {
      assert ReaderOk(c.rows[i], s.readers[i], s.gpc, s.rounds, i);
    }
    EndedAreShort(c, s.readers, s.rounds);
  }

  lemma GatherStepGatherer(c: Config, s: State)
    requires ReadersOk(c, s) && CountersOk(s) && GathererOk(c, s) && GatherEnabled(s)
    ensures GathererOk(c, GatherStep(c, s))
  {
    if s.gpc == GDeciding {
      ExitReportsShortInputs(c, s);
    }
  }

  // When the gatherer compares, what it reads is the round's rows.
  lemma ComparingReadsRound(c: Config, s: State)
    requires ReadersOk(c, s) && OutputOk(c, s) && s.gpc == GComparing
    ensures PublishedRows(s) == RoundRows(c, s.rounds - 1)
  {
    forall i | 0 <= i < |c.rows|
      ensures PublishedRows(s)[i] == RoundRows(c, s.rounds - 1)[i]
    {
      assert ReaderOk(c.rows[i], s.readers[i], s.gpc, s.rounds, i);
    }
  }

  // When the gatherer prints input j, that input's row is still the round's.
  lemma ReleasingPrintsRound(c: Config, s: State)
    requires ReadersOk(c, s) && OutputOk(c, s) && GathererOk(c, s) && s.gpc.GReleasing?
    ensures LineFor(c, PublishedRows(s), s.diff, s.gpc.j) == LineFor(c, RoundRows(c, s.rounds - 1), s.diff, s.gpc.j)
  {
    var j, pub, rows := s.gpc.j, PublishedRows(s), RoundRows(c, s.rounds - 1);
    assert ReaderOk(c.rows[j], s.readers[j], s.gpc, s.rounds, j);
    assert pub[j] == rows[j];
    assert seq(c.nheaders, (h: nat) => Cell(pub, c.idx, j, h)) == seq(c.nheaders, (h: nat) => Cell(rows, c.idx, j, h));
  }

  lemma ZipDiffersNext(c: Config, n: nat)
    requires AtMostAll(c, n + 1)
    ensures ZipDiffers(c, n + 1) <==> ZipDiffers(c, n) || RoundDiffers(c, n)
  {
    assert InAll(c, n);
  }

  // The reset opens a round that every input still has a row for.
  lemma NextRoundExists(c: Config, s: State)
    requires ReadersOk(c, s) && CountersOk(s) && s.gpc == GDeciding && s.ready == |c.rows| && s.eofs == 0
    ensures AtMostAll(c, s.rounds + 1)
  {
    AllCounted(s);
    forall i | 0 <= i < |c.rows|
      ensures s.rounds + 1 <= |c.rows[i]|
    {
      assert ReaderOk(c.rows[i], s.readers[i], s.gpc, s.rounds, i);
    }
  }

  lemma DecidingOutput(c: Config, s: State)
    requires |s.readers| == |c.rows| && OutputOk(c, s) && s.gpc == GDeciding
    requires s.eofs == 0 ==> AtMostAll(c, s.rounds + 1)
    ensures OutputOk(c, GatherStep(c, s))
  {}

  lemma ComparedPrinted(c: Config, rounds: nat, out: seq<Line>)
    requires RoundsOk(c, GComparing, rounds) && PrintedOk(c, GComparing, rounds, out)
    ensures RoundsOk(c, GReleasing(0), rounds) && PrintedOk(c, GReleasing(0), rounds, out)
  {}

  lemma ComparedStatus(c: Config, rounds: nat, ret: nat)
    requires RoundsOk(c, GComparing, rounds) && StatusOk(c, GComparing, rounds, ret)
    ensures RoundsOk(c, GReleasing(0), rounds) && InAll(c, rounds - 1)
    ensures StatusOk(c, GReleasing(0), rounds, if RoundDiffers(c, rounds - 1) then 1 else ret)
  {
    hide RoundDiffers, ZipDiffers;
    assert InAll(c, rounds - 1);
    ZipDiffersNext(c, rounds - 1);
  }

  lemma ComparingOutput(c: Config, s: State)
    requires ReadersOk(c, s) && OutputOk(c, s) && s.gpc == GComparing
    ensures OutputOk(c, GatherStep(c, s))
  {
    ComparingReadsRound(c, s);
    ComparedPrinted(c, s.rounds, s.out);
    ComparedStatus(c, s.rounds, s.ret);
    hide ZipOut, RoundLines, ZipDiffers, Diffs, AnyDiff, RoundRows, PublishedRows, PrintedOk, StatusOk, ReadersOk;
  }

  lemma RoundLinesNext(c: Config, r: nat, j: nat)
    requires InAll(c, r) && j < |c.rows|
    ensures RoundLines(c, r, j + 1) == RoundLines(c, r, j) +
              if (RoundDiffers(c, r) || c.allRows) && !c.brief
              then [LineFor(c, RoundRows(c, r), Diffs(RoundRows(c, r), c.idx, c.nheaders), j)] else []
  {}

  // Printing line j extends the output of the round by exactly that line.
  lemma LinePrinted(c: Config, j: nat, rounds: nat, out: seq<Line>, line: Line)
    requires RoundsOk(c, GReleasing(j), rounds) && j < |c.rows|
    requires PrintedOk(c, GReleasing(j), rounds, out)
    requires line == LineFor(c, RoundRows(c, rounds - 1), Diffs(RoundRows(c, rounds - 1), c.idx, c.nheaders), j)
    ensures PrintedOk(c, GSignalling(j), rounds,
              if (RoundDiffers(c, rounds - 1) || c.allRows) && !c.brief then out + [line] else out)
  {
    RoundLinesNext(c, rounds - 1, j);
    AppendAssociates(ZipOut(c, rounds - 1), RoundLines(c, rounds - 1, j), [line]);
  }

  lemma AppendAssociates(a: seq<Line>, b: seq<Line>, d: seq<Line>)
    ensures (a + b) + d == a + (b + d)
  {}

  lemma ReleasingOutput(c: Config, s: State, line: Line)
    requires |s.readers| == |c.rows| && OutputOk(c, s) && s.gpc.GReleasing? && s.gpc.j < |c.rows|
    requires line == LineFor(c, RoundRows(c, s.rounds - 1), s.diff, s.gpc.j)
    requires line == LineFor(c, PublishedRows(s), s.diff, s.gpc.j)
    ensures OutputOk(c, GatherStep(c, s))
  {
    LinePrinted(c, s.gpc.j, s.rounds, s.out, line);
  }

  lemma QuietOutput(c: Config, s: State)
    requires |s.readers| == |c.rows| && OutputOk(c, s) && GatherEnabled(s)
    requires s.gpc != GDeciding && s.gpc != GComparing && !s.gpc.GReleasing?
    requires Touched(s.gpc).Some? ==> Touched(s.gpc).value < |c.rows|
    ensures OutputOk(c, GatherStep(c, s))
  {
    hide Diffs, AnyDiff, RoundDiffers, ZipDiffers, RoundLines, RoundRows, PublishedRows, EndedInputs, TouchedAfter;
  }

  lemma GatherStepOutput(c: Config, s: State)
    requires ReadersOk(c, s) && CountersOk(s) && GathererOk(c, s) && OutputOk(c, s) && GatherEnabled(s)
    ensures OutputOk(c, GatherStep(c, s))
  {
    match s.gpc
    case GDeciding =>
      if s.eofs == 0 {
        NextRoundExists(c, s);
      }
      DecidingOutput(c, s);
    case GComparing =>
      ComparingOutput(c, s);
    case GReleasing(j) =>
      ReleasingPrintsRound(c, s);
      ReleasingOutput(c, s, LineFor(c, PublishedRows(s), s.diff, j));
    case _ =>
      QuietOutput(c, s);
  }

  lemma GatherStepInv(c: Config, s: State)
    requires Inv(c, s) && GatherEnabled(s)
    ensures Inv(c, GatherStep(c, s))
  {
    GatherStepReaders(c, s);
    GatherStepGlobal(c, s);
    GatherStepCounters(c, s);
    GatherStepGatherer(c, s);
    GatherStepOutput(c, s);
  }

  // ------------------------------------------------------------- spurious wakes

  lemma SpuriousWakeReaders(c: Config, s: State, a: Action)
    requires ReadersOk(c, s) && Enabled(s, a) && Spurious(a)
    ensures ReadersOk(c, Do(c, s, a))
  {
    var s' := Do(c, s, a);
    forall i | 0 <= i < |c.rows|
      ensures ReaderOk(c.rows[i], s'.readers[i], s'.gpc, s'.rounds, i)
    {
      assert ReaderOk(c.rows[i], s.readers[i], s.gpc, s.rounds, i);
    }
  }

  lemma SpuriousWakeCounters(c: Config, s: State, a: Action)
    requires ReadersOk(c, s) && CountersOk(s) && Enabled(s, a) && Spurious(a)
    ensures CountersOk(Do(c, s, a))
  {
    SameFlags(s.readers, Do(c, s, a).readers, s.rounds);
  }

  lemma SpuriousWakeInv(c: Config, s: State, a: Action)
    requires Inv(c, s) && Enabled(s, a) && Spurious(a)
    ensures Inv(c, Do(c, s, a))
  {
    SpuriousWakeReaders(c, s, a);
    SpuriousWakeCounters(c, s, a);
  }

  lemma NextInv(c: Config, s: State, a: Action, s': State)
    requires Inv(c, s) && Next(c, s, a, s')
    ensures Inv(c, s')
  {
    match a
    case Read(i) => ReaderStepInv(c, s, i);
    case Gather => GatherStepInv(c, s);
    case _ => SpuriousWakeInv(c, s, a);
  }

  // -------------------------------------------------------------- main results

  // Every state of every run satisfies the invariant.
  lemma {:induction false} RunInv(c: Config, states: seq<State>, acts: seq<Action>, t: nat)
    requires ValidConfig(c) && IsRun(c, states, acts) && t < |states|
    ensures Inv(c, states[t])
  {
    if t == 0 {
      InitInv(c);
    } else {
      var u := t - 1;
      RunInv(c, states, acts, u);
      assert Next(c, states[u], acts[u], states[u + 1]);
      NextInv(c, states[u], acts[u], states[u + 1]);
    }
  }

  lemma ComparingReader(c: Config, s: State, i: nat)
    requires ReadersOk(c, s) && OutputOk(c, s) && s.gpc == GComparing && i < |c.rows|
    ensures |s.readers| == |c.rows| && 0 < s.rounds <= |c.rows[i]|
    ensures s.readers[i].buf == Some(c.rows[i][s.rounds - 1])
    ensures s.readers[i].mtx == ByGatherer && !s.readers[i].eof
  {
    hide ZipOut, RoundLines, ZipDiffers, Diffs, AnyDiff;
    assert ReaderOk(c.rows[i], s.readers[i], s.gpc, s.rounds, i);
  }

  // In every reachable state where the gatherer compares, all inputs have
  // published the row with the index of the current round, and every cell it
  // reads lies inside its row.
  lemma ComparesOneRound(c: Config, states: seq<State>, acts: seq<Action>, t: nat)
    requires ValidConfig(c) && IsRun(c, states, acts) && t < |states|
    requires states[t].gpc == GComparing
    ensures var s := states[t];
            && |s.readers| == |c.rows| && s.rounds > 0
            && (forall i :: 0 <= i < |c.rows| ==>
                  && s.rounds <= |c.rows[i]|
                  && s.readers[i].buf == Some(c.rows[i][s.rounds - 1])
                  && s.readers[i].mtx == ByGatherer
                  && !s.readers[i].eof)
            && (forall i, h :: 0 <= i < |c.rows| && 0 <= h < c.nheaders ==>
                  Cell(PublishedRows(s), c.idx, i, h) == c.rows[i][s.rounds - 1][c.idx[i][h]])
  {
    RunInv(c, states, acts, t);
    forall i | 0 <= i < |c.rows|
      ensures states[t].rounds <= |c.rows[i]|
      ensures states[t].readers[i].buf == Some(c.rows[i][states[t].rounds - 1])
      ensures states[t].readers[i].mtx == ByGatherer && !states[t].readers[i].eof
    {
      ComparingReader(c, states[t], i);
    }
    hide IsRun, Inv, Diffs, ZipOut;
  }

  // Between publication and consumption no step of any thread changes a row.
  lemma PublishedRowStable(c: Config, s: State, a: Action, s': State, i: nat)
    requires ReadersOk(c, s) && Next(c, s, a, s') && i < |c.rows|
    requires HasPublished(s.readers[i].pc) && !s.readers[i].eof && !s.readers[i].consumed
    ensures |s'.readers| == |c.rows|
    ensures s'.readers[i].buf == s.readers[i].buf == Some(c.rows[i][s.readers[i].k])
    ensures s'.readers[i].k == s.readers[i].k && HasPublished(s'.readers[i].pc)
  {
    assert ReaderOk(c.rows[i], s.readers[i], s.gpc, s.rounds, i);
    assert s'.readers[i] in {s.readers[i], ReaderAfter(c.rows[i], s.readers[i], i),
                             TouchedAfter(s.gpc, s.readers[i]), s.readers[i].(pc := RWoken)};
  }

  // What "some column differs" means for whole inputs.
  lemma ZipDiffersMeaning(c: Config, n: nat)
    requires ValidConfig(c) && AtMostAll(c, n)
    ensures ZipDiffers(c, n) <==>
            exists r: nat, h: nat, i: nat, j: nat ::
              r < n && h < c.nheaders && i < |c.rows| && j < |c.rows| &&
              c.rows[i][r][c.idx[i][h]] != c.rows[j][r][c.idx[j][h]]
  {
    if ZipDiffers(c, n) {
      var r: nat :| r < n && InAll(c, r) && RoundDiffers(c, r);
      DifferingCells(c, r);
    }
    if r: nat, h: nat, i: nat, j: nat :|
      r < n && h < c.nheaders && i < |c.rows| && j < |c.rows| &&
      c.rows[i][r][c.idx[i][h]] != c.rows[j][r][c.idx[j][h]]
    {
      CellsDiffer(c, r, h, i, j);
    }
  }

  lemma DifferingCells(c: Config, r: nat)
    requires ValidConfig(c) && InAll(c, r) && RoundDiffers(c, r)
    ensures exists h: nat, i: nat, j: nat ::
              h < c.nheaders && i < |c.rows| && j < |c.rows| &&
              c.rows[i][r][c.idx[i][h]] != c.rows[j][r][c.idx[j][h]]
  {
    var pub := RoundRows(c, r);
    var h: nat :| h < c.nheaders && ColumnDiffers(pub, c.idx, h);
    var j: nat :| 1 <= j < |pub| && Cell(pub, c.idx, j, h) != Cell(pub, c.idx, 0, h);
    assert c.rows[j][r][c.idx[j][h]] != c.rows[0][r][c.idx[0][h]];
  }

  lemma CellsDiffer(c: Config, r: nat, h: nat, i: nat, j: nat)
    requires ValidConfig(c) && InAll(c, r)
    requires h < c.nheaders && i < |c.rows| && j < |c.rows|
    requires c.rows[i][r][c.idx[i][h]] != c.rows[j][r][c.idx[j][h]]
    ensures RoundDiffers(c, r)
  {
    var pub := RoundRows(c, r);
    assert Cell(pub, c.idx, i, h) != Cell(pub, c.idx, j, h);
    ColumnDiffersAnyPair(pub, c.idx, h);
    assert ColumnDiffers(pub, c.idx, h);
  }

  function ExitStatus(s: State): nat { if s.gpc == GExited then 2 else s.ret }

  // What an invariant state with a finished gatherer looks like.
  lemma FinishedState(c: Config, s: State, n: nat)
    requires Inv(c, s) && (s.gpc == GReturned || s.gpc == GExited) && IsShortest(c, n)
    ensures s.rounds == n
    ensures s.gpc == GReturned <==> SameLength(c)
    ensures forall i :: 0 <= i < |c.rows| ==> s.readers[i].releases == n
  {
    AllCounted(s);
    forall i | 0 <= i < |c.rows|
      ensures s.readers[i].releases == s.rounds <= |c.rows[i]|
      ensures s.readers[i].eof && AfterCount(s.readers[i].pc) <==> |c.rows[i]| == s.rounds
    {
      assert ReaderOk(c.rows[i], s.readers[i], s.gpc, s.rounds, i);
    }
    var m :| 0 <= m < |c.rows| && |c.rows[m]| == n;
    var e: nat :| e < |s.readers| && s.readers[e].eof && AfterCount(s.readers[e].pc);
    assert |c.rows[e]| == s.rounds;
  }

  // Every interleaving gives the output, the status and the error report of the
  // sequential zip, whose length is that of the shortest input, and hands every
  // row of the first n to the gatherer exactly once.
  lemma EveryRunIsZip(c: Config, states: seq<State>, acts: seq<Action>, t: nat, n: nat)
    requires ValidConfig(c) && IsRun(c, states, acts) && t < |states| && IsShortest(c, n)
    requires states[t].gpc == GReturned || states[t].gpc == GExited
    ensures states[t].out == ZipOut(c, n)
    ensures Prints(c, n, states[t].out)
    ensures ExitStatus(states[t]) == if !SameLength(c) then 2 else if ZipDiffers(c, n) then 1 else 0
    ensures states[t].ended == if SameLength(c) then [] else ShortInputs(c, n, |c.rows|)
    ensures |states[t].readers| == |c.rows|
    ensures forall i :: 0 <= i < |c.rows| ==> states[t].readers[i].releases == n
  {
    RunInv(c, states, acts, t);
    FinishedState(c, states[t], n);
    var _ := ZipPrints(c, n);
  }
}
