// The records of csv-tree live in the memoising hash table: rows and parents
// meet in the record the table answers for a key (src/tree.c, src/ht.c). What
// is printed is the forest of the rows with every key replaced by its record.

module TreeTransfer {
  import opened TreeModel
  import opened Wrappers

  // Two lists of rows with the same parent rows and the same values.
  ghost predicate SameLinks(ls: seq<Line>, ms: seq<Line>) {
    && UniqueKeys(ls) && UniqueKeys(ms) && |ls| == |ms|
    && (forall i :: 0 <= i < |ls| ==> ParentRow(ls, i) == ParentRow(ms, i))
    && (forall i :: 0 <= i < |ls| ==> ls[i].val == ms[i].val)
  }

  lemma ParentIs(ls: seq<Line>, i: nat, j: nat)
    requires UniqueKeys(ls) && i < |ls| && j < |ls|
    ensures ParentRow(ls, i) == Some(j) <==> ls[i].parent == ls[j].key
  {
    FindKeyUnique(ls, |ls|, j);
  }

  lemma {:induction false} SameKids(ls: seq<Line>, ms: seq<Line>, i: nat, n: nat)
    requires SameLinks(ls, ms) && i < |ls| && n <= |ls|
    ensures Kids(ls, n, ls[i].key) == Kids(ms, n, ms[i].key)
    decreases n
  {
    hide ParentRow, UniqueKeys;
    if n > 0 {
      SameKids(ls, ms, i, n - 1);
      ParentIs(ls, n - 1, i);
      ParentIs(ms, n - 1, i);
    }
  }

  lemma SameKidsOf(ls: seq<Line>, ms: seq<Line>, i: nat)
    requires SameLinks(ls, ms) && i < |ls|
    ensures KidsOf(ls, i) == KidsOf(ms, i)
  {
    SameKids(ls, ms, i, |ls|);
  }

  lemma {:induction false} SameRoots(ls: seq<Line>, ms: seq<Line>, n: nat)
    requires SameLinks(ls, ms) && n <= |ls|
    ensures Roots(ls, n) == Roots(ms, n)
    decreases n
  {
    hide ParentRow, UniqueKeys;
    if n > 0 {
      SameRoots(ls, ms, n - 1);
    }
  }

  lemma {:induction false} SameLeavesIn(ls: seq<Line>, ms: seq<Line>, i: nat, d: nat)
    requires SameLinks(ls, ms) && i < |ls|
    ensures LeavesIn(ls, i, d) == LeavesIn(ms, i, d)
    decreases d
  {
    if ParentRow(ls, i).Some? && d > 1 {
      SameLeavesIn(ls, ms, ParentRow(ls, i).value, d - 1);
    }
  }

  lemma SameDepth(ls: seq<Line>, ms: seq<Line>, i: nat)
    requires SameLinks(ls, ms) && i < |ls|
    ensures Leaves(ls, i) <==> Leaves(ms, i)
    ensures Leaves(ls, i) ==> Depth(ls, i) == Depth(ms, i)
  {
    if d: nat :| LeavesIn(ls, i, d) {
      SameLeavesIn(ls, ms, i, d);
      DepthIs(ls, i, d);
      DepthIs(ms, i, d);
    }
    if d: nat :| LeavesIn(ms, i, d) {
      SameLeavesIn(ls, ms, i, d);
      assert LeavesIn(ls, i, d);
    }
  }

  lemma SameAllLeave(ls: seq<Line>, ms: seq<Line>, rows: seq<nat>, d: nat)
    requires SameLinks(ls, ms) && AllLeave(ls, rows, d)
    ensures AllLeave(ms, rows, d)
  {
    forall t | 0 <= t < |rows|
      ensures rows[t] < |ms| && Leaves(ms, rows[t]) && Depth(ms, rows[t]) == d
    {
      SameDepth(ls, ms, rows[t]);
    }
  }

  lemma {:induction false} SameWalk(ls: seq<Line>, ms: seq<Line>, i: nat, lvl: nat, on: bool, f: Option<nat>)
    requires SameLinks(ls, ms) && i < |ls| && Leaves(ls, i)
    ensures Leaves(ms, i) && Walk(ls, i, lvl, on, f) == Walk(ms, i, lvl, on, f)
    decreases |ls| - Depth(ls, i), 0
  {
    hide Walk, WalkAll, KidsOf, Leaves, LeavesIn, UniqueKeys, ParentRow;
    SameDepth(ls, ms, i);
    DepthBound(ls, i);
    KidsLeave(ls, i);
    SameKidsOf(ls, ms, i);
    WalkUnfold(ls, i, lvl, on, f);
    WalkUnfold(ms, i, lvl, on, f);
    var p := on || f == Some(i);
    SameWalkAll(ls, ms, KidsOf(ls, i), Depth(ls, i) + 1, if p then lvl + 1 else lvl, p, f);
  }

  lemma {:induction false} SameWalkAll(
      ls: seq<Line>, ms: seq<Line>, rows: seq<nat>, d: nat, lvl: nat, on: bool, f: Option<nat>)
    requires SameLinks(ls, ms) && AllLeave(ls, rows, d)
    ensures AllLeave(ms, rows, d) && WalkAll(ls, rows, d, lvl, on, f) == WalkAll(ms, rows, d, lvl, on, f)
    decreases |ls| - d, |rows|
  {
    hide Walk, Leaves;
    SameAllLeave(ls, ms, rows, d);
    if rows != [] {
      var last := |rows| - 1;
      SameWalkAll(ls, ms, rows[..last], d, lvl, on, f);
      SameWalk(ls, ms, rows[last], lvl, on, f);
    }
  }

  lemma SameForest(ls: seq<Line>, ms: seq<Line>, filtered: bool, f: Option<nat>)
    requires SameLinks(ls, ms)
    ensures Forest(ls, filtered, f) == Forest(ms, filtered, f)
  {
    RootsLeave(ls, |ls|);
    SameRoots(ls, ms, |ls|);
    SameWalkAll(ls, ms, Roots(ls, |ls|), 1, 0, !filtered, f);
  }

  lemma {:induction false} SameSum(ls: seq<Line>, ms: seq<Line>, i: nat)
    requires SameLinks(ls, ms) && i < |ls| && Leaves(ls, i)
    ensures Leaves(ms, i) && Sum(ls, i) == Sum(ms, i)
    decreases |ls| - Depth(ls, i), 0
  {
    hide Walk, WalkAll, Sum, SumAll, KidsOf, Leaves, LeavesIn, UniqueKeys, ParentRow;
    SameDepth(ls, ms, i);
    DepthBound(ls, i);
    KidsLeave(ls, i);
    SameKidsOf(ls, ms, i);
    SumSplit(ls, i, 0);
    SumSplit(ms, i, 0);
    SameSumAll(ls, ms, KidsOf(ls, i), Depth(ls, i) + 1);
  }

  lemma {:induction false} SameSumAll(ls: seq<Line>, ms: seq<Line>, rows: seq<nat>, d: nat)
    requires SameLinks(ls, ms) && AllLeave(ls, rows, d)
    ensures AllLeave(ms, rows, d) && SumAll(ls, rows, d) == SumAll(ms, rows, d)
    decreases |ls| - d, |rows|
  {
    hide Sum, Leaves;
    SameAllLeave(ls, ms, rows, d);
    if rows != [] {
      var last := |rows| - 1;
      SameSumAll(ls, ms, rows[..last], d);
      SameSum(ls, ms, rows[last]);
    }
  }

  lemma {:induction false} SameAncestor(ls: seq<Line>, ms: seq<Line>, x: nat, d: nat)
    requires SameLinks(ls, ms) && x < |ls| && Leaves(ls, x) && 1 <= d <= Depth(ls, x)
    ensures Leaves(ms, x) && Depth(ms, x) == Depth(ls, x) && AncestorAt(ls, x, d) == AncestorAt(ms, x, d)
    decreases Depth(ls, x)
  {
    SameDepth(ls, ms, x);
    if d < Depth(ls, x) {
      var j := ParentRow(ls, x).value;
      DepthIs(ls, j, Depth(ls, x) - 1);
      SameAncestor(ls, ms, j, d);
    }
  }

  lemma SameBelow(ls: seq<Line>, ms: seq<Line>, x: nat, i: nat)
    requires SameLinks(ls, ms) && x < |ls| && i < |ls| && Leaves(ls, i)
    ensures Leaves(ms, i) && (Below(ls, x, i) <==> Below(ms, x, i))
  {
    SameDepth(ls, ms, x);
    SameDepth(ls, ms, i);
    if Leaves(ls, x) && Depth(ls, i) <= Depth(ls, x) {
      SameAncestor(ls, ms, x, Depth(ls, i));
    }
  }

  lemma SameClean(ls: seq<Line>, ms: seq<Line>, i: nat)
    requires SameLinks(ls, ms) && i < |ls| && Leaves(ls, i)
    ensures Leaves(ms, i) && (Clean(ls, i) <==> Clean(ms, i))
  {
    hide SumAll, Kids;
    SameDepth(ls, ms, i);
    SameKids(ls, ms, i, |ls|);
    KidsLeave(ls, i);
    forall m: nat | m <= |KidsOf(ls, i)|
      ensures PartialSum(ls, i, m) == PartialSum(ms, i, m)
    {
      SameSumAll(ls, ms, KidsOf(ls, i)[..m], Depth(ls, i) + 1);
    }
  }

  lemma SameAllClean(ls: seq<Line>, ms: seq<Line>, i: nat)
    requires SameLinks(ls, ms) && i < |ls| && Leaves(ls, i)
    ensures Leaves(ms, i) && (AllClean(ls, i) <==> AllClean(ms, i))
  {
    hide Clean, Below, Leaves;
    SameDepth(ls, ms, i);
    forall x: nat | x < |ls|
      ensures Leaves(ls, x) <==> Leaves(ms, x)
      ensures Leaves(ls, x) ==> (Below(ls, x, i) <==> Below(ms, x, i)) && (Clean(ls, x) <==> Clean(ms, x))
    {
      SameDepth(ls, ms, x);
      if Leaves(ls, x) {
        SameBelow(ls, ms, x, i);
        SameClean(ls, ms, x);
      }
    }
  }
}

module TreeTable {
  import opened HashRuns
  import opened HashString
  import opened HashTable
  import opened IntText
  import opened TreeModel
  import opened TreeTransfer
  import opened Wrappers

  // The lookups of the first pass, a row's key and then its parent; the n-th
  // one would allocate its record at address n + 1.
  function Lookups(ls: seq<Line>): (calls: seq<Call>)
    ensures |calls| == 2 * |ls|
  {
    seq(2 * |ls|, n requires 0 <= n < 2 * |ls| =>
      Call(if n % 2 == 0 then ls[n / 2].key else ls[n / 2].parent, n + 1))
  }

  lemma LookupsOfRow(ls: seq<Line>, i: nat)
    requires i < |ls|
    ensures Lookups(ls)[2 * i].key == ls[i].key && Lookups(ls)[2 * i + 1].key == ls[i].parent
  {
    assert (2 * i) / 2 == i && (2 * i + 1) / 2 == i;
  }

  // The record that the table answers for lookup n.
  function Record(hash: string -> nat, ls: seq<Line>, n: nat): Pointer
    requires n < 2 * |ls|
  {
    AnswerAfter(hash, |ls|, Lookups(ls)[..n], Lookups(ls)[n])
  }

  // A name for the record at an address: the address written out.
  function RecordName(p: Pointer): string {
    if p < 0 then "" else Digits(p, 10)
  }

  // The rows with their keys and parents replaced by the records they got.
  function Relabelled(hash: string -> nat, ls: seq<Line>): (rs: seq<Line>)
    ensures |rs| == |ls|
  {
    seq(|ls|, i requires 0 <= i < |ls| =>
      Line(RecordName(Record(hash, ls, 2 * i)), RecordName(Record(hash, ls, 2 * i + 1)), ls[i].val))
  }

  // The names of a row's two records.
  ghost predicate Named(rs: seq<Line>, hash: string -> nat, ls: seq<Line>, i: nat)
    requires i < |ls|
  {
    && |rs| == |ls|
    && rs[i].key == RecordName(Record(hash, ls, 2 * i))
    && rs[i].parent == RecordName(Record(hash, ls, 2 * i + 1))
  }

  lemma RelabelledNamed(hash: string -> nat, ls: seq<Line>, i: nat)
    requires i < |ls|
    ensures Named(Relabelled(hash, ls), hash, ls, i)
  {
    hide Record, RecordName, Lookups;
  }

  lemma NamesDiffer(p: Pointer, q: Pointer)
    requires p >= 0 && q >= 0
    ensures RecordName(p) == RecordName(q) <==> p == q
  {
    DigitsValue(p, 10);
    DigitsValue(q, 10);
  }

  lemma RecordOwner(hash: string -> nat, ls: seq<Line>, n: nat)
    requires n < 2 * |ls|
    ensures var at := Record(hash, ls, n);
            1 <= at <= n + 1 && Lookups(ls)[at - 1].key == Lookups(ls)[n].key
  {
    hide AnswerAfter;
    var calls := Lookups(ls);
    AnswersAreCalls(hash, |ls|, calls[..n], calls[n]);
    var owner := Call(calls[n].key, Record(hash, ls, n));
    assert calls[..n] + [calls[n]] == calls[..n + 1];
    var m :| 0 <= m <= n && calls[m] == owner;
  }

  // Rows with different keys have different records, whatever the table did.
  lemma RelabelledUnique(hash: string -> nat, ls: seq<Line>)
    requires UniqueKeys(ls)
    ensures UniqueKeys(Relabelled(hash, ls))
  {
    hide Record, RecordName, Lookups, Relabelled;
    forall i, j | 0 <= i < j < |ls|
      ensures Relabelled(hash, ls)[i].key != Relabelled(hash, ls)[j].key
    {
      RelabelledNamed(hash, ls, i);
      RelabelledNamed(hash, ls, j);
      LookupsOfRow(ls, i);
      LookupsOfRow(ls, j);
      RecordOwner(hash, ls, 2 * i);
      RecordOwner(hash, ls, 2 * j);
      NamesDiffer(Record(hash, ls, 2 * i), Record(hash, ls, 2 * j));
    }
  }

  // Row i hangs below row j exactly if the lookup of its parent answered j's
  // record; that is only possible if j's key is its parent.
  lemma LinkIsRecord(hash: string -> nat, ls: seq<Line>, i: nat, j: nat)
    requires UniqueKeys(ls) && i < |ls| && j < |ls|
    ensures ParentRow(Relabelled(hash, ls), i) == Some(j) <==> Record(hash, ls, 2 * i + 1) == Record(hash, ls, 2 * j)
    ensures Record(hash, ls, 2 * i + 1) == Record(hash, ls, 2 * j) ==> ParentRow(ls, i) == Some(j)
  {
    hide Record, RecordName, Relabelled, UniqueKeys, ParentRow, Lookups;
    RelabelledUnique(hash, ls);
    RelabelledNamed(hash, ls, i);
    RelabelledNamed(hash, ls, j);
    LookupsOfRow(ls, i);
    LookupsOfRow(ls, j);
    ParentIs(Relabelled(hash, ls), i, j);
    ParentIs(ls, i, j);
    RecordOwner(hash, ls, 2 * i + 1);
    RecordOwner(hash, ls, 2 * j);
    NamesDiffer(Record(hash, ls, 2 * i + 1), Record(hash, ls, 2 * j));
  }

  // ---------------------------------------------------------------- when the links are right

  // No key that is both a row's key and some row's parent is asked for while it
  // is lost.
  ghost predicate NoParentLost(hash: string -> nat, ls: seq<Line>) {
    forall i, j :: 0 <= i < |ls| && 0 <= j < |ls| && ls[i].parent == ls[j].key ==>
      NeverAskedLost(hash, |ls|, Lookups(ls), ls[j].key)
  }

  lemma {:induction false} FirstValueStable(calls: seq<Call>, n: nat, key: string)
    requires n <= |calls| && FirstValue(calls[..n], key).Some?
    ensures FirstValue(calls, key) == FirstValue(calls[..n], key)
    decreases |calls|
  {
    if n == |calls| {
      assert calls[..n] == calls;
    } else {
      var earlier := calls[..|calls| - 1];
      assert earlier[..n] == calls[..n];
      FirstValueStable(earlier, n, key);
    }
  }

  lemma FirstValueCalled(calls: seq<Call>, n: nat)
    requires n < |calls|
    ensures FirstValue(calls[..n + 1], calls[n].key).Some?
    ensures FirstValue(calls, calls[n].key) == FirstValue(calls[..n + 1], calls[n].key)
  {
    assert calls[..n + 1][..n] == calls[..n] && calls[..n + 1][n] == calls[n];
    FirstValueStable(calls, n + 1, calls[n].key);
  }

  // All calls with a key were answered with its first value.
  lemma {:induction false} RightMeans(hash: string -> nat, initial: nat, calls: seq<Call>, key: string)
    ensures AnsweredRight(hash, initial, calls, key) <==>
            forall n :: 0 <= n < |calls| && calls[n].key == key ==>
              Some(AnswerAfter(hash, initial, calls[..n], calls[n])) == FirstValue(calls, key)
    decreases |calls|
  {
    hide AnswerAfter, FirstValue;
    if calls != [] {
      var last := |calls| - 1;
      RightMeans(hash, initial, calls[..last], key);
      forall n | 0 <= n < last && calls[n].key == key
        ensures calls[..last][..n] == calls[..n] && FirstValue(calls[..last], key) == FirstValue(calls, key)
      {
        FirstValueCalled(calls[..last], n);
        FirstValueStable(calls, last, key);
      }
    }
  }

  lemma LookupsFresh(ls: seq<Line>, key: string)
    ensures FreshValues(Lookups(ls), key)
  {
  }

  // All parent lookups of row j's key answered j's record.
  ghost predicate KidsFound(hash: string -> nat, ls: seq<Line>, j: nat)
    requires j < |ls|
  {
    forall i :: 0 <= i < |ls| && ls[i].parent == ls[j].key ==>
      Record(hash, ls, 2 * i + 1) == Record(hash, ls, 2 * j)
  }

  ghost predicate AllRight(hash: string -> nat, ls: seq<Line>, key: string) {
    forall n {:trigger Lookups(ls)[n]} :: 0 <= n < 2 * |ls| && Lookups(ls)[n].key == key ==>
      Some(Record(hash, ls, n)) == FirstValue(Lookups(ls), key)
  }

  lemma NeverLostIsRight(hash: string -> nat, ls: seq<Line>, key: string)
    ensures NeverAskedLost(hash, |ls|, Lookups(ls), key) <==> AllRight(hash, ls, key)
  {
    hide AnswerAfter, FirstValue, NeverAskedLost, AnsweredRight;
    LookupsFresh(ls, key);
    RightIffNeverAskedLost(hash, |ls|, Lookups(ls), key);
    RightMeans(hash, |ls|, Lookups(ls), key);
  }

  // The parent lookups of a key agree with its row's record exactly if the key
  // is never asked for while it is lost.
  lemma KeyLinks(hash: string -> nat, ls: seq<Line>, j: nat)
    requires UniqueKeys(ls) && j < |ls|
    ensures NeverAskedLost(hash, |ls|, Lookups(ls), ls[j].key) <==> KidsFound(hash, ls, j)
  {
    hide Record, FirstValue, NeverAskedLost, KidsFound;
    NeverLostIsRight(hash, ls, ls[j].key);
    if AllRight(hash, ls, ls[j].key) {
      RightKids(hash, ls, j);
    }
    if KidsFound(hash, ls, j) {
      KidsRight(hash, ls, j);
    }
  }

  lemma RightKids(hash: string -> nat, ls: seq<Line>, j: nat)
    requires j < |ls| && AllRight(hash, ls, ls[j].key)
    ensures KidsFound(hash, ls, j)
  {
    hide Record, FirstValue;
    assert Lookups(ls)[2 * j].key == ls[j].key;
    forall i | 0 <= i < |ls| && ls[i].parent == ls[j].key
      ensures Record(hash, ls, 2 * i + 1) == Record(hash, ls, 2 * j)
    {
      assert Lookups(ls)[2 * i + 1].key == ls[j].key;
    }
  }

  lemma KidsRight(hash: string -> nat, ls: seq<Line>, j: nat)
    requires UniqueKeys(ls) && j < |ls| && KidsFound(hash, ls, j)
    ensures AllRight(hash, ls, ls[j].key)
  {
    hide FirstValue, KidsFound, AnswerAfter;
    var k := ls[j].key;
    assert Lookups(ls)[2 * j].key == k;
    FirstAnswer(hash, |ls|, Lookups(ls), k, 2 * j);
    var m :| 0 <= m < 2 * |ls| && Lookups(ls)[m].key == k &&
      Some(AnswerAfter(hash, |ls|, Lookups(ls)[..m], Lookups(ls)[m])) == FirstValue(Lookups(ls), k);
    assert Some(Record(hash, ls, m)) == FirstValue(Lookups(ls), k);
    OneRecord(hash, ls, j, m);
    forall n {:trigger Lookups(ls)[n]} | 0 <= n < 2 * |ls| && Lookups(ls)[n].key == k
      ensures Some(Record(hash, ls, n)) == FirstValue(Lookups(ls), k)
    {
      OneRecord(hash, ls, j, n);
    }
  }

  lemma OneRecord(hash: string -> nat, ls: seq<Line>, j: nat, n: nat)
    requires UniqueKeys(ls) && j < |ls| && n < 2 * |ls| && Lookups(ls)[n].key == ls[j].key
    requires KidsFound(hash, ls, j)
    ensures Record(hash, ls, n) == Record(hash, ls, 2 * j)
  {
    hide Record;
    var i := n / 2;
    if n % 2 == 0 {
      assert ls[i].key == ls[j].key;
      assert i == j;
    } else {
      assert ls[i].parent == ls[j].key;
      assert n == 2 * i + 1;
    }
  }

  // Some call with the key, its first one, is answered with its first value.
  lemma {:induction false} FirstAnswer(hash: string -> nat, initial: nat, calls: seq<Call>, key: string, n: nat)
    requires n < |calls| && calls[n].key == key
    ensures exists m :: 0 <= m < |calls| && calls[m].key == key &&
              Some(AnswerAfter(hash, initial, calls[..m], calls[m])) == FirstValue(calls, key)
    decreases n
  {
    hide AnswerAfter, FirstValue, Lost, NeverAskedLost;
    FirstValueCalled(calls, n);
    if m :| 0 <= m < n && calls[m].key == key {
      FirstAnswer(hash, initial, calls, key, m);
    } else {
      var before := calls[..n];
      NotCalled(hash, initial, before, key);
      AnswerExact(hash, initial, before, calls[n]);
      LostWasCalled(hash, initial, before);
      assert before + [calls[n]] == calls[..n + 1];
    }
  }

  lemma {:induction false} NotCalled(hash: string -> nat, initial: nat, calls: seq<Call>, key: string)
    requires forall m :: 0 <= m < |calls| ==> calls[m].key != key
    ensures NeverAskedLost(hash, initial, calls, key) && FirstValue(calls, key) == None
    decreases |calls|
  {
    if calls != [] {
      NotCalled(hash, initial, calls[..|calls| - 1], key);
    }
  }

  // The rows and their records are linked alike exactly if no parent is lost
  // when asked for.
  lemma LinksExact(hash: string -> nat, ls: seq<Line>)
    requires UniqueKeys(ls)
    ensures SameLinks(ls, Relabelled(hash, ls)) <==> NoParentLost(hash, ls)
  {
    hide Record, NeverAskedLost, ParentRow;
    var rs := Relabelled(hash, ls);
    RelabelledUnique(hash, ls);
    forall j | 0 <= j < |ls|
      ensures NeverAskedLost(hash, |ls|, Lookups(ls), ls[j].key) <==> KidsFound(hash, ls, j)
    {
      KeyLinks(hash, ls, j);
    }
    forall i, j | 0 <= i < |ls| && 0 <= j < |ls|
      ensures ParentRow(rs, i) == Some(j) <==> Record(hash, ls, 2 * i + 1) == Record(hash, ls, 2 * j)
      ensures ParentRow(rs, i) == Some(j) ==> ParentRow(ls, i) == Some(j)
      ensures ParentRow(ls, i) == Some(j) <==> ls[i].parent == ls[j].key
    {
      LinkIsRecord(hash, ls, i, j);
      ParentIs(ls, i, j);
    }
  }

  // ---------------------------------------------------------------- what is printed

  lemma {:induction false} Counted(vs: seq<Visit>, x: nat)
    requires Count(vs, x) > 0
    ensures exists p :: 0 <= p < |vs| && vs[p].row == x
    decreases |vs|
  {
    var last := |vs| - 1;
    if vs[last].row != x {
      Counted(vs[..last], x);
      var p :| 0 <= p < last && vs[..last][p].row == x;
      assert vs[p].row == x;
    }
  }

  // A row whose parent is not found is printed as a root.
  lemma RootIsPrinted(ls: seq<Line>, i: nat) returns (p: nat)
    requires UniqueKeys(ls) && i < |ls| && ParentRow(ls, i).None?
    ensures p < |Forest(ls, false, None)| && Forest(ls, false, None)[p] == Visit(i, 0)
  {
    hide Forest;
    RootDepth(ls, i);
    ForestOnce(ls, i);
    Counted(Forest(ls, false, None), i);
    p :| 0 <= p < |Forest(ls, false, None)| && Forest(ls, false, None)[p].row == i;
    ForestLevels(ls, p);
  }

  // csv-tree prints the forest of its rows if and only if no key that is a
  // row's and a row's parent is asked for while the table has lost it.
  lemma ForestExact(hash: string -> nat, ls: seq<Line>)
    requires UniqueKeys(ls)
    ensures UniqueKeys(Relabelled(hash, ls))
    ensures Forest(Relabelled(hash, ls), false, None) == Forest(ls, false, None) <==> NoParentLost(hash, ls)
  {
    hide Forest, Relabelled, NoParentLost;
    var rs := Relabelled(hash, ls);
    RelabelledUnique(hash, ls);
    LinksExact(hash, ls);
    if SameLinks(ls, rs) {
      SameForest(ls, rs, false, None);
    } else {
      var i := BrokenLink(hash, ls);
      var p := RootIsPrinted(rs, i);
      if Forest(rs, false, None) == Forest(ls, false, None) {
        ForestLevels(ls, p);
      }
    }
  }

  // A link that differs is one that was cut.
  lemma BrokenLink(hash: string -> nat, ls: seq<Line>) returns (i: nat)
    requires UniqueKeys(ls) && !SameLinks(ls, Relabelled(hash, ls))
    ensures i < |ls| && ParentRow(Relabelled(hash, ls), i).None? && ParentRow(ls, i).Some?
  {
    hide Record, ParentRow, RecordName;
    var rs := Relabelled(hash, ls);
    RelabelledUnique(hash, ls);
    i :| 0 <= i < |ls| && ParentRow(ls, i) != ParentRow(rs, i);
    if ParentRow(rs, i).Some? {
      LinkIsRecord(hash, ls, i, ParentRow(rs, i).value);
    }
  }

  // In a sound run no parent is lost.
  lemma SoundKeepsParents(hash: string -> nat, ls: seq<Line>)
    requires Sound(hash, Empty(|ls|), Lookups(ls))
    ensures NoParentLost(hash, ls)
  {
    forall j | 0 <= j < |ls|
      ensures NeverAskedLost(hash, |ls|, Lookups(ls), ls[j].key)
    {
      SoundLosesNothing(hash, |ls|, Lookups(ls), ls[j].key);
    }
  }

  // ---------------------------------------------------------------- three rows

  // A chain of three rows below a key that is no row.
  const ROWS := [Line("197", "1189", Some(1)), Line("149", "197", Some(1)), Line("75", "149", Some(1))]

  lemma HashOf197()
    ensures HashStr("197") % 4 == 2 && HashStr("197") % 8 == 2
  {
    var k := "197";
    assert AddBytes(k, 0) == Sums(1, 0);
    assert AddBytes(k, 1) == Sums(50, 50);
    assert AddBytes(k, 2) == Sums(107, 157);
    assert AddBytes(k, 3) == Sums(162, 319);
    LowWord(319, 162, 4);
    LowWord(319, 162, 8);
  }

  lemma HashOf149()
    ensures HashStr("149") % 4 == 3 && HashStr("149") % 8 == 7
  {
    var k := "149";
    assert AddBytes(k, 0) == Sums(1, 0);
    assert AddBytes(k, 1) == Sums(50, 50);
    assert AddBytes(k, 2) == Sums(102, 152);
    assert AddBytes(k, 3) == Sums(159, 311);
    LowWord(311, 159, 4);
    LowWord(311, 159, 8);
  }

  lemma HashOf1189()
    ensures HashStr("1189") % 4 == 2 && HashStr("1189") % 8 == 2
  {
    var k := "1189";
    assert Word(k, 0) == 959983921;
    assert AddWords(k, 1) == Sums(959983922, 959983922);
    assert AddBytes(k, 4) == AddWords(k, 1);
    LowWord(959983922, 959983922, 4);
    LowWord(959983922, 959983922, 8);
  }

  const T1 := Table(4, 1, 0, [[], [], [Kv("197", 1)], []])
  const T2 := Table(4, 2, 1, [[], [], [Kv("197", 1), Kv("1189", 2)], []])

  lemma FirstTable()
    ensures Lookup(HashStr, Empty(3), "197") == None && After(HashStr, Empty(3), "197", 1) == T1
  {
    HashOf197();
    assert Empty(3).kvs == [[], [], [], []];
    hide HashStr;
    assert Slot(HashStr, 4, "197") == 2;
    assert Linkin(Empty(3), 2, Kv("197", 1)).kvs == T1.kvs;
  }

  lemma SecondTable()
    ensures Lookup(HashStr, T1, "1189") == None && After(HashStr, T1, "1189", 2) == T2
  {
    HashOf1189();
    hide HashStr;
    assert Slot(HashStr, 4, "1189") == 2;
    NoneFound(T1.kvs[2], "1189");
    assert Link(T1.kvs[2], Kv("1189", 2)) == T2.kvs[2];
    assert Linkin(T1, 2, Kv("1189", 2)).kvs == T2.kvs;
  }

  // The third lookup resizes the table: one chained entry again, none in bucket 3.
  lemma ThirdTable()
    ensures Lookup(HashStr, T2, "149") == None && Overloaded(T2)
    ensures Slot(HashStr, 4, "149") == 3 && Slot(HashStr, 8, "149") == 7
    ensures !Overloaded(After(HashStr, T2, "149", 3))
  {
    HashOf149();
    HashOf197();
    HashOf1189();
    hide HashStr;
    var room := Resize(HashStr, T2);
    ResizedT2();
    assert Lookup(HashStr, T2, "149") == None;
    assert After(HashStr, T2, "149", 3) == Linkin(room, 3, Kv("149", 3));
  }

  lemma ResizedT2()
    ensures var room := Resize(HashStr, T2);
            room.size == 8 && room.collisions == 1 && room.kvs[3] == []
  {
    HashOf197();
    HashOf1189();
    hide HashStr;
    var empty, a, b := Emptied(T2), Kv("197", 1), Kv("1189", 2);
    EntriesOfT2();
    assert [a, b][..1] == [a] && [a][..0] == [];
    var one := Linkin(empty, 2, a);
    assert InsertAll(HashStr, empty, [a]) == one by {
      assert InsertAll(HashStr, empty, []) == empty;
      assert Insert(HashStr, empty, a) == one;
    }
    assert InsertAll(HashStr, empty, [a, b]) == Linkin(one, 2, b);
  }

  lemma EntriesOfT2()
    ensures Entries(T2.kvs) == [Kv("197", 1), Kv("1189", 2)]
  {
    var c := T2.kvs[2];
    var e: seq<seq<Kv>> := [[], []];
    EmptyEntries(e);
    assert T2.kvs[..3] == [[], [], c] && [[], [], c][..2] == e;
    assert Entries([[], [], c]) == Entries(e) + c;
    assert Entries(T2.kvs) == Entries(T2.kvs[..3]) + [];
  }

  lemma LostNext(hash: string -> nat, initial: nat, calls: seq<Call>, n: nat, key: string)
    requires n < |calls|
    ensures var t, k, l := Run(hash, Empty(initial), calls[..n]), calls[n].key, Lost(hash, initial, calls[..n]);
            && Run(hash, Empty(initial), calls[..n + 1]) == After(hash, t, k, calls[n].value)
            && (Lookup(hash, t, k).Some? || (!Overloaded(t) && l != Some(k)) ==>
                  Lost(hash, initial, calls[..n + 1]) == l)
            && (Lookup(hash, t, k).None? && Overloaded(t) ==>
                  Lost(hash, initial, calls[..n + 1]) ==
                  if Slot(hash, t.size, k) == Slot(hash, 2 * t.size, k) then None else Some(k))
            && (NeverAskedLost(hash, initial, calls[..n + 1], key) <==>
                NeverAskedLost(hash, initial, calls[..n], key) && (k == key ==> l != Some(key)))
  {
    hide After, Slot, Overloaded, Empty;
    assert calls[..n + 1][..n] == calls[..n];
    assert calls[..n + 1][n] == calls[n];
  }

  // What the lookups do to the table: the third one loses its key, and the two
  // after it do not bring it back.
  lemma LostAmongRows()
    ensures Lost(HashStr, 3, Lookups(ROWS)[..5]) == Some("149")
    ensures NeverAskedLost(HashStr, 3, Lookups(ROWS)[..5], "149")
  {
    var c := Lookups(ROWS);
    FirstTable();
    SecondTable();
    ThirdTable();
    hide HashStr, After, Lookup, Slot, Lost, NeverAskedLost;
    assert Lost(HashStr, 3, c[..0]) == None && NeverAskedLost(HashStr, 3, c[..0], "149") by {
      NotCalled(HashStr, 3, c[..0], "149");
      LostWasCalled(HashStr, 3, c[..0]);
    }
    LostNext(HashStr, 3, c, 0, "149");
    LostNext(HashStr, 3, c, 1, "149");
    LostNext(HashStr, 3, c, 2, "149");
    assert Run(HashStr, Empty(3), c[..2]) == T2;
    assert Lost(HashStr, 3, c[..3]) == Some("149");
    FoundAgain();
    LostNext(HashStr, 3, c, 3, "149");
    LostNext(HashStr, 3, c, 4, "149");
  }

  // The fourth lookup finds the first row's record and changes nothing.
  lemma FoundAgain()
    ensures var t := Run(HashStr, Empty(3), Lookups(ROWS)[..3]);
            Lookup(HashStr, t, "197").Some? && After(HashStr, t, "197", 4) == t
  {
    var c := Lookups(ROWS);
    FirstTable();
    SecondTable();
    ThirdTable();
    hide HashStr, Lookup, Slot, Lost, NeverAskedLost, After, Astray, Absent;
    assert Lost(HashStr, 3, c[..0]) == None && NeverAskedLost(HashStr, 3, c[..0], "197") by {
      NotCalled(HashStr, 3, c[..0], "197");
      LostWasCalled(HashStr, 3, c[..0]);
    }
    LostNext(HashStr, 3, c, 0, "197");
    LostNext(HashStr, 3, c, 1, "197");
    LostNext(HashStr, 3, c, 2, "197");
    KeyStands(HashStr, 3, c[..3], "197");
    FirstValueCalled(c[..3], 0);
    HitKeeps(HashStr, Run(HashStr, Empty(3), c[..3]), "197", 4);
  }

  // The third row is printed as a root, on level 0, although it is on level 2:
  // its parent's record is lost when the table resizes.
  lemma ThirdRowIsCutOff() returns (p: nat)
    ensures UniqueKeys(ROWS) && UniqueKeys(Relabelled(HashStr, ROWS)) && !NoParentLost(HashStr, ROWS)
    ensures p < |Forest(Relabelled(HashStr, ROWS), false, None)|
    ensures Forest(Relabelled(HashStr, ROWS), false, None)[p] == Visit(2, 0)
    ensures Leaves(ROWS, 2) && Depth(ROWS, 2) - 1 == 2
  {
    ChainOfThree();
    RelabelledUnique(HashStr, ROWS);
    LostAmongRows();
    LastRecord();
    hide Record, Forest;
    var rs := Relabelled(HashStr, ROWS);
    forall j | 0 <= j < 3
      ensures ParentRow(rs, 2) != Some(j)
    {
      LinkIsRecord(HashStr, ROWS, 2, j);
      RecordOwner(HashStr, ROWS, 2 * j);
    }
    assert ParentRow(rs, 2).None?;
    p := RootIsPrinted(rs, 2);
    LinksExact(HashStr, ROWS);
  }

  lemma ChainOfThree()
    ensures UniqueKeys(ROWS) && Leaves(ROWS, 2) && Depth(ROWS, 2) == 3
    ensures ParentRow(ROWS, 2) == Some(1)
  {
    assert ParentRow(ROWS, 0) == None;
    ParentIs(ROWS, 1, 0);
    ParentIs(ROWS, 2, 1);
    assert LeavesIn(ROWS, 0, 1);
    assert LeavesIn(ROWS, 1, 2);
    DepthIs(ROWS, 2, 3);
  }

  lemma LastRecord()
    ensures Record(HashStr, ROWS, 5) == 6
  {
    LostAmongRows();
    hide Lost, AnswerAfter, NeverAskedLost, HashStr;
    AnswerExact(HashStr, 3, Lookups(ROWS)[..5], Lookups(ROWS)[5]);
  }
}
