// The forest that csv-tree (src/tree.c) makes of its rows, as a function of the
// rows alone: every row names one parent key; the roots are the rows whose
// parent key is no row's key.  Parent links may form cycles.

module TreeModel {
  import opened IntText
  import opened Wrappers

  // The columns of a row that csv-tree looks at; `val` is its number, unless the
  // text of the column is not a 64-bit integer.
  datatype Line = Line(key: string, parent: string, val: Option<int>)

  ghost predicate UniqueKeys(ls: seq<Line>) {
    forall i, j :: 0 <= i < j < |ls| ==> ls[i].key != ls[j].key
  }

  ghost predicate ValuesInRange(ls: seq<Line>) {
    forall i :: 0 <= i < |ls| && ls[i].val.Some? ==> IsLong(ls[i].val.value)
  }

  // The row with key k among the first n.
  function FindKey(ls: seq<Line>, n: nat, k: string): (r: Option<nat>)
    requires n <= |ls|
    ensures r.None? <==> forall i :: 0 <= i < n ==> ls[i].key != k
    ensures r.Some? ==> r.value < n && ls[r.value].key == k
  {
    if n == 0 then None
    else if ls[n - 1].key == k then Some(n - 1)
    else FindKey(ls, n - 1, k)
  }

  lemma FindKeyUnique(ls: seq<Line>, n: nat, i: nat)
    requires UniqueKeys(ls) && i < n <= |ls|
    ensures FindKey(ls, n, ls[i].key) == Some(i)
  {}

  function ParentRow(ls: seq<Line>, i: nat): (r: Option<nat>)
    requires i < |ls|
    ensures r.Some? ==> r.value < |ls|
  {
    FindKey(ls, |ls|, ls[i].parent)
  }

  // A row's parent is the row whose key it names, and a root names no row's key.
  lemma ParentRowMeans(ls: seq<Line>, i: nat)
    requires UniqueKeys(ls) && i < |ls|
    ensures forall j: nat :: j < |ls| ==> (ParentRow(ls, i) == Some(j) <==> ls[j].key == ls[i].parent)
    ensures ParentRow(ls, i).None? <==> forall j :: 0 <= j < |ls| ==> ls[j].key != ls[i].parent
  {
    forall j | 0 <= j < |ls|
      ensures ParentRow(ls, i) == Some(j) <==> ls[j].key == ls[i].parent
    {
      FindKeyUnique(ls, |ls|, j);
    }
  }

  // The rows among the first n that name k as their parent, in input order.
  function Kids(ls: seq<Line>, n: nat, k: string): (r: seq<nat>)
    requires n <= |ls|
    ensures forall t :: 0 <= t < |r| ==> r[t] < n && ls[r[t]].parent == k
    ensures forall i :: 0 <= i < n && ls[i].parent == k ==> i in r
    ensures forall t, u :: 0 <= t < u < |r| ==> r[t] < r[u]
  {
    if n == 0 then []
    else Kids(ls, n - 1, k) + if ls[n - 1].parent == k then [n - 1] else []
  }

  lemma {:induction false} KidsGrow(ls: seq<Line>, m: nat, n: nat, k: string)
    requires m <= n <= |ls|
    ensures Kids(ls, m, k) <= Kids(ls, n, k)
    decreases n
  {
    if m < n {
      KidsGrow(ls, m, n - 1, k);
    }
  }

  function KidsOf(ls: seq<Line>, i: nat): (r: seq<nat>)
    requires i < |ls|
    ensures forall t :: 0 <= t < |r| ==> r[t] < |ls|
    ensures forall t, u :: 0 <= t < u < |r| ==> r[t] < r[u]
  {
    Kids(ls, |ls|, ls[i].key)
  }

  // The rows whose parent key is not a key, among the first n.
  function Roots(ls: seq<Line>, n: nat): (r: seq<nat>)
    requires n <= |ls|
    ensures forall t :: 0 <= t < |r| ==> r[t] < n && ParentRow(ls, r[t]).None?
    ensures forall i :: 0 <= i < n && ParentRow(ls, i).None? ==> i in r
    ensures forall t, u :: 0 <= t < u < |r| ==> r[t] < r[u]
  {
    if n == 0 then []
    else Roots(ls, n - 1) + if ParentRow(ls, n - 1).None? then [n - 1] else []
  }

  // ------------------------------------------------------------- parent chains

  // Following parents from row i leaves the rows after exactly d rows.
  predicate LeavesIn(ls: seq<Line>, i: nat, d: nat)
    requires i < |ls|
    decreases d
  {
    match ParentRow(ls, i)
    case None => d == 1
    case Some(j) => d > 1 && LeavesIn(ls, j, d - 1)
  }

  ghost predicate Leaves(ls: seq<Line>, i: nat)
    requires i < |ls|
  {
    exists d: nat :: LeavesIn(ls, i, d)
  }

  lemma {:induction false} DepthUnique(ls: seq<Line>, i: nat, d: nat, e: nat)
    requires i < |ls| && LeavesIn(ls, i, d) && LeavesIn(ls, i, e)
    ensures d == e
    decreases d
  {
    match ParentRow(ls, i)
    case None =>
    case Some(j) => DepthUnique(ls, j, d - 1, e - 1);
  }

  ghost function Depth(ls: seq<Line>, i: nat): (d: nat)
    requires i < |ls| && Leaves(ls, i)
    ensures LeavesIn(ls, i, d) && d >= 1
  {
    var d: nat :| LeavesIn(ls, i, d);
    d
  }

  // The rows on the chain from i: one for every depth up to d.
  ghost function Chain(ls: seq<Line>, i: nat, d: nat): set<nat>
    requires i < |ls| && LeavesIn(ls, i, d)
    decreases d
  {
    match ParentRow(ls, i)
    case None => {i}
    case Some(j) => {i} + Chain(ls, j, d - 1)
  }

  ghost predicate LeavesWithin(ls: seq<Line>, x: nat, d: nat)
    requires x < |ls|
  {
    exists e: nat :: e <= d && LeavesIn(ls, x, e)
  }

  lemma {:induction false} ChainSize(ls: seq<Line>, i: nat, d: nat)
    requires i < |ls| && LeavesIn(ls, i, d)
    ensures |Chain(ls, i, d)| == d
    ensures forall x :: x in Chain(ls, i, d) ==> x < |ls| && LeavesWithin(ls, x, d)
    decreases d
  {
    match ParentRow(ls, i) {
      case None =>
      case Some(j) =>
        ChainSize(ls, j, d - 1);
        if i in Chain(ls, j, d - 1) {
          var e: nat :| e <= d - 1 && LeavesIn(ls, i, e);
          DepthUnique(ls, i, d, e);
        }
    }
    forall x | x in Chain(ls, i, d)
      ensures x < |ls| && LeavesWithin(ls, x, d)
    {
      if x == i {
        assert d <= d && LeavesIn(ls, x, d);
      } else {
        var e: nat :| e <= d - 1 && LeavesIn(ls, x, e);
        assert e <= d && LeavesIn(ls, x, e);
      }
    }
  }

  lemma {:induction false} SetBound(s: set<nat>, n: nat)
    requires forall x :: x in s ==> x < n
    ensures |s| <= n
    decreases n
  {
    if n == 0 {
      assert s == {};
    } else {
      SetBound(s - {n - 1}, n - 1);
    }
  }

  // A chain that leaves the rows visits no row twice, so it is no longer than
  // the input.
  lemma DepthBound(ls: seq<Line>, i: nat)
    requires i < |ls| && Leaves(ls, i)
    ensures Depth(ls, i) <= |ls|
  {
    ChainSize(ls, i, Depth(ls, i));
    SetBound(Chain(ls, i, Depth(ls, i)), |ls|);
  }

  lemma DepthIs(ls: seq<Line>, i: nat, d: nat)
    requires i < |ls| && LeavesIn(ls, i, d)
    ensures Leaves(ls, i) && Depth(ls, i) == d
  {
    DepthUnique(ls, i, d, Depth(ls, i));
  }

  // A child is one level below its parent row.
  lemma KidDepth(ls: seq<Line>, i: nat, t: nat)
    requires UniqueKeys(ls) && i < |ls| && Leaves(ls, i) && t < |KidsOf(ls, i)|
    ensures var c := KidsOf(ls, i)[t];
            && ParentRow(ls, c) == Some(i)
            && Leaves(ls, c) && Depth(ls, c) == Depth(ls, i) + 1 <= |ls|
  {
    var c := KidsOf(ls, i)[t];
    FindKeyUnique(ls, |ls|, i);
    assert LeavesIn(ls, c, Depth(ls, i) + 1);
    DepthIs(ls, c, Depth(ls, i) + 1);
    DepthBound(ls, c);
  }

  lemma RootDepth(ls: seq<Line>, i: nat)
    requires i < |ls| && ParentRow(ls, i).None?
    ensures Leaves(ls, i) && Depth(ls, i) == 1
  {
    DepthIs(ls, i, 1);
  }

  ghost predicate AllLeave(ls: seq<Line>, rows: seq<nat>, d: nat) {
    forall t :: 0 <= t < |rows| ==> rows[t] < |ls| && Leaves(ls, rows[t]) && Depth(ls, rows[t]) == d
  }

  lemma KidsLeave(ls: seq<Line>, i: nat)
    requires UniqueKeys(ls) && i < |ls| && Leaves(ls, i)
    ensures AllLeave(ls, KidsOf(ls, i), Depth(ls, i) + 1)
    ensures KidsOf(ls, i) != [] ==> Depth(ls, i) < |ls|
  {
    forall t | 0 <= t < |KidsOf(ls, i)|
      ensures Leaves(ls, KidsOf(ls, i)[t]) && Depth(ls, KidsOf(ls, i)[t]) == Depth(ls, i) + 1 <= |ls|
    {
      KidDepth(ls, i, t);
    }
    if KidsOf(ls, i) != [] {
      KidDepth(ls, i, 0);
    }
  }

  lemma RootsLeave(ls: seq<Line>, n: nat)
    requires n <= |ls|
    ensures AllLeave(ls, Roots(ls, n), 1)
  {
    forall t | 0 <= t < |Roots(ls, n)|
      ensures Leaves(ls, Roots(ls, n)[t]) && Depth(ls, Roots(ls, n)[t]) == 1
    {
      RootDepth(ls, Roots(ls, n)[t]);
    }
  }

  // ------------------------------------------------------------------ the walk

  datatype Visit = Visit(row: nat, lvl: nat)

  // What `process` prints for row i: a row is printed once printing is on, which
  // without a filter is from the start, and with a filter from row f down.
  ghost function Walk(ls: seq<Line>, i: nat, lvl: nat, on: bool, f: Option<nat>): seq<Visit>
    requires UniqueKeys(ls) && i < |ls| && Leaves(ls, i)
    decreases |ls| - Depth(ls, i), 0
  {
    DepthBound(ls, i);
    KidsLeave(ls, i);
    var p := on || f == Some(i);
    (if p then [Visit(i, lvl)] else [])
    + WalkAll(ls, KidsOf(ls, i), Depth(ls, i) + 1, if p then lvl + 1 else lvl, p, f)
  }

  // The same for a list of rows of depth d.
  ghost function WalkAll(ls: seq<Line>, rows: seq<nat>, d: nat, lvl: nat, on: bool, f: Option<nat>): seq<Visit>
    requires UniqueKeys(ls) && AllLeave(ls, rows, d)
    decreases |ls| - d, |rows|
  {
    if rows == [] then []
    else
      var last := |rows| - 1;
      WalkAll(ls, rows[..last], d, lvl, on, f) + Walk(ls, rows[last], lvl, on, f)
  }

  // Everything csv-tree prints, without a filter or with a filter on row f.
  ghost function Forest(ls: seq<Line>, filtered: bool, f: Option<nat>): seq<Visit>
    requires UniqueKeys(ls)
  {
    RootsLeave(ls, |ls|);
    WalkAll(ls, Roots(ls, |ls|), 1, 0, !filtered, f)
  }

  // ----------------------------------------------------------- exactly once each

  function Count(vs: seq<Visit>, x: nat): nat {
    if vs == [] then 0 else Count(vs[..|vs| - 1], x) + if vs[|vs| - 1].row == x then 1 else 0
  }

  lemma {:induction false} CountConcat(a: seq<Visit>, b: seq<Visit>, x: nat)
    ensures Count(a + b, x) == Count(a, x) + Count(b, x)
    decreases |b|
  {
    if b == [] {
      assert a + b == a;
    } else {
      assert (a + b)[..|a + b| - 1] == a + b[..|b| - 1];
      CountConcat(a, b[..|b| - 1], x);
    }
  }

  // The row at depth d on the chain from x.
  ghost function AncestorAt(ls: seq<Line>, x: nat, d: nat): (r: nat)
    requires x < |ls| && Leaves(ls, x) && 1 <= d <= Depth(ls, x)
    ensures r < |ls| && Leaves(ls, r) && Depth(ls, r) == d
    decreases Depth(ls, x)
  {
    if d == Depth(ls, x) then x
    else
      var j := ParentRow(ls, x).value;
      DepthIs(ls, j, Depth(ls, x) - 1);
      AncestorAt(ls, j, d)
  }

  lemma {:induction false} AncestorParent(ls: seq<Line>, x: nat, d: nat)
    requires x < |ls| && Leaves(ls, x) && 1 <= d < Depth(ls, x)
    ensures ParentRow(ls, AncestorAt(ls, x, d + 1)) == Some(AncestorAt(ls, x, d))
    decreases Depth(ls, x)
  {
    var j := ParentRow(ls, x).value;
    DepthIs(ls, j, Depth(ls, x) - 1);
    if d + 1 < Depth(ls, x) {
      AncestorParent(ls, j, d);
    }
  }

  // Row x lies in the subtree of row i.
  ghost predicate Below(ls: seq<Line>, x: nat, i: nat)
    requires x < |ls| && i < |ls| && Leaves(ls, i)
  {
    Leaves(ls, x) && Depth(ls, i) <= Depth(ls, x) && AncestorAt(ls, x, Depth(ls, i)) == i
  }

  // A proper descendant of i is below exactly one child of i.
  lemma BelowKid(ls: seq<Line>, x: nat, i: nat)
    requires UniqueKeys(ls) && x < |ls| && i < |ls| && Leaves(ls, i) && Leaves(ls, x)
    requires Depth(ls, i) < Depth(ls, x)
    ensures Below(ls, x, i) <==> AncestorAt(ls, x, Depth(ls, i) + 1) in KidsOf(ls, i)
  {
    var d, ks := Depth(ls, i), KidsOf(ls, i);
    AncestorParent(ls, x, d);
    var y := AncestorAt(ls, x, d + 1);
    if y in ks {
      var t :| 0 <= t < |ks| && ks[t] == y;
      KidDepth(ls, i, t);
    }
  }

  function OneIf(b: bool): nat { if b then 1 else 0 }

  // At its own depth a row is below itself only.
  lemma TopBelow(ls: seq<Line>, x: nat, i: nat)
    requires x < |ls| && i < |ls| && Leaves(ls, i)
    ensures Leaves(ls, x) && Depth(ls, x) == Depth(ls, i) ==> (Below(ls, x, i) <==> x == i)
    ensures !Leaves(ls, x) || Depth(ls, x) < Depth(ls, i) ==> !Below(ls, x, i)
  {
    hide LeavesIn;
  }

  // The walk of i visits exactly the rows below i, each of them once.
  lemma {:induction false} WalkOnce(ls: seq<Line>, i: nat, lvl: nat, x: nat)
    requires UniqueKeys(ls) && i < |ls| && Leaves(ls, i) && x < |ls|
    ensures Count(Walk(ls, i, lvl, true, None), x) == OneIf(Below(ls, x, i))
    decreases |ls| - Depth(ls, i), 0
  {
    hide Walk, WalkAll, Leaves, UniqueKeys, Kids, AncestorAt;
    DepthBound(ls, i);
    KidsLeave(ls, i);
    WalkUnfold(ls, i, lvl, true, None);
    TopBelow(ls, x, i);
    var d, ks := Depth(ls, i), KidsOf(ls, i);
    CountConcat([Visit(i, lvl)], WalkAll(ls, ks, d + 1, lvl + 1, true, None), x);
    assert Count([Visit(i, lvl)], x) == OneIf(x == i);
    WalkAllOnce(ls, ks, d + 1, lvl + 1, x);
    if Leaves(ls, x) && Depth(ls, x) > d {
      BelowKid(ls, x, i);
    }
  }

  lemma {:induction false} WalkAllOnce(ls: seq<Line>, rows: seq<nat>, d: nat, lvl: nat, x: nat)
    requires UniqueKeys(ls) && AllLeave(ls, rows, d) && 1 <= d && x < |ls|
    requires forall t, u :: 0 <= t < u < |rows| ==> rows[t] < rows[u]
    ensures Count(WalkAll(ls, rows, d, lvl, true, None), x) ==
            OneIf(Leaves(ls, x) && d <= Depth(ls, x) && AncestorAt(ls, x, d) in rows)
    decreases |ls| - d, |rows|
  {
    hide Walk, Leaves, UniqueKeys, AncestorAt;
    if rows != [] {
      var last := |rows| - 1;
      CountConcat(WalkAll(ls, rows[..last], d, lvl, true, None), Walk(ls, rows[last], lvl, true, None), x);
      WalkAllOnce(ls, rows[..last], d, lvl, x);
      WalkOnce(ls, rows[last], lvl, x);
    }
  }

  // Without a filter csv-tree prints exactly once each the rows whose parent
  // chain leaves the rows, and never a row on or above a cycle.
  lemma ForestOnce(ls: seq<Line>, x: nat)
    requires UniqueKeys(ls) && x < |ls|
    ensures Count(Forest(ls, false, None), x) == OneIf(Leaves(ls, x))
  {
    RootsLeave(ls, |ls|);
    WalkAllOnce(ls, Roots(ls, |ls|), 1, 0, x);
    if Leaves(ls, x) {
      var r := AncestorAt(ls, x, 1);
      assert LeavesIn(ls, r, 1);
      assert ParentRow(ls, r).None?;
      assert r in Roots(ls, |ls|);
    }
  }

  lemma WalkUnfold(ls: seq<Line>, i: nat, lvl: nat, on: bool, f: Option<nat>)
    requires UniqueKeys(ls) && i < |ls| && Leaves(ls, i)
    ensures AllLeave(ls, KidsOf(ls, i), Depth(ls, i) + 1)
    ensures var p := on || f == Some(i);
            Walk(ls, i, lvl, on, f) ==
            (if p then [Visit(i, lvl)] else [])
            + WalkAll(ls, KidsOf(ls, i), Depth(ls, i) + 1, if p then lvl + 1 else lvl, p, f)
  {
    KidsLeave(ls, i);
  }

  lemma BelowSelf(ls: seq<Line>, i: nat)
    requires i < |ls| && Leaves(ls, i)
    ensures Below(ls, i, i)
  {}

  // Whatever the filter, the walk of i only prints rows below i.
  lemma {:induction false} WalkBelow(ls: seq<Line>, i: nat, lvl: nat, on: bool, f: Option<nat>, p: nat)
    requires UniqueKeys(ls) && i < |ls| && Leaves(ls, i)
    requires p < |Walk(ls, i, lvl, on, f)|
    ensures var x := Walk(ls, i, lvl, on, f)[p].row;
            x < |ls| && Leaves(ls, x) && Below(ls, x, i)
    decreases |ls| - Depth(ls, i), 0
  {
    hide Walk, WalkAll, AncestorAt, KidsOf;
    DepthBound(ls, i);
    WalkUnfold(ls, i, lvl, on, f);
    var q := on || f == Some(i);
    if q && p == 0 {
      BelowSelf(ls, i);
    } else {
      var p', lvl' := if q then p - 1 else p, if q then lvl + 1 else lvl;
      WalkAllBelow(ls, KidsOf(ls, i), Depth(ls, i) + 1, lvl', q, f, p');
      var x := WalkAll(ls, KidsOf(ls, i), Depth(ls, i) + 1, lvl', q, f)[p'].row;
      BelowKid(ls, x, i);
    }
  }

  lemma {:induction false} WalkAllBelow(
      ls: seq<Line>, rows: seq<nat>, d: nat, lvl: nat, on: bool, f: Option<nat>, p: nat)
    requires UniqueKeys(ls) && AllLeave(ls, rows, d) && 1 <= d
    requires p < |WalkAll(ls, rows, d, lvl, on, f)|
    ensures var x := WalkAll(ls, rows, d, lvl, on, f)[p].row;
            x < |ls| && Leaves(ls, x) && d <= Depth(ls, x) && AncestorAt(ls, x, d) in rows
    decreases |ls| - d, |rows|
  {
    var last := |rows| - 1;
    var before := WalkAll(ls, rows[..last], d, lvl, on, f);
    if p < |before| {
      WalkAllBelow(ls, rows[..last], d, lvl, on, f, p);
    } else {
      WalkBelow(ls, rows[last], lvl, on, f, p - |before|);
    }
  }

  // ------------------------------------------------------------ levels and order

  ghost predicate LevelsFrom(ls: seq<Line>, vs: seq<Visit>, lvl: int, d: nat) {
    forall p :: 0 <= p < |vs| ==>
      && vs[p].row < |ls| && Leaves(ls, vs[p].row) && Depth(ls, vs[p].row) >= d
      && vs[p].lvl == lvl + Depth(ls, vs[p].row) - d
  }

  lemma {:induction false} WalkLevels(ls: seq<Line>, i: nat, lvl: nat)
    requires UniqueKeys(ls) && i < |ls| && Leaves(ls, i)
    ensures LevelsFrom(ls, Walk(ls, i, lvl, true, None), lvl, Depth(ls, i))
    decreases |ls| - Depth(ls, i), 0
  {
    DepthBound(ls, i);
    KidsLeave(ls, i);
    WalkAllLevels(ls, KidsOf(ls, i), Depth(ls, i) + 1, lvl + 1);
  }

  lemma {:induction false} WalkAllLevels(ls: seq<Line>, rows: seq<nat>, d: nat, lvl: nat)
    requires UniqueKeys(ls) && AllLeave(ls, rows, d)
    ensures LevelsFrom(ls, WalkAll(ls, rows, d, lvl, true, None), lvl, d)
    decreases |ls| - d, |rows|
  {
    if rows != [] {
      var last := |rows| - 1;
      WalkAllLevels(ls, rows[..last], d, lvl);
      WalkLevels(ls, rows[last], lvl);
    }
  }

  // The level of every printed row is its depth.
  lemma ForestLevels(ls: seq<Line>, p: nat)
    requires UniqueKeys(ls) && p < |Forest(ls, false, None)|
    ensures var v := Forest(ls, false, None)[p];
            v.row < |ls| && Leaves(ls, v.row) && v.lvl == Depth(ls, v.row) - 1
  {
    RootsLeave(ls, |ls|);
    WalkAllLevels(ls, Roots(ls, |ls|), 1, 0);
  }

  // The row at position p comes after its parent row, with nothing but deeper
  // rows between the two.
  ghost predicate UnderParent(ls: seq<Line>, vs: seq<Visit>, p: nat)
    requires p < |vs|
  {
    exists q: nat :: q < p && UnderAt(ls, vs, q, p)
  }

  ghost predicate UnderAt(ls: seq<Line>, vs: seq<Visit>, q: nat, p: nat)
    requires q < p < |vs|
  {
    && vs[p].row < |ls| && ParentRow(ls, vs[p].row) == Some(vs[q].row)
    && vs[p].lvl == vs[q].lvl + 1
    && forall r :: q < r < p ==> vs[r].lvl > vs[q].lvl
  }

  lemma UnderParentPrefix(ls: seq<Line>, vs: seq<Visit>, more: seq<Visit>, p: nat)
    requires p < |vs| && UnderParent(ls, vs, p)
    ensures UnderParent(ls, vs + more, p)
  {
    var q: nat :| q < p && UnderAt(ls, vs, q, p);
    assert UnderAt(ls, vs + more, q, p);
  }

  lemma UnderParentShift(ls: seq<Line>, vs: seq<Visit>, before: seq<Visit>, p: nat)
    requires p < |vs| && UnderParent(ls, vs, p)
    ensures UnderParent(ls, before + vs, |before| + p)
  {
    var q: nat :| q < p && UnderAt(ls, vs, q, p);
    var all := before + vs;
    forall r | |before| + q < r < |before| + p
      ensures all[r].lvl > all[|before| + q].lvl
    {
      assert vs[r - |before|].lvl > vs[q].lvl;
    }
    assert UnderAt(ls, all, |before| + q, |before| + p);
  }

  lemma WalkFirst(ls: seq<Line>, i: nat, lvl: nat)
    requires UniqueKeys(ls) && i < |ls| && Leaves(ls, i)
    ensures Walk(ls, i, lvl, true, None) != [] && Walk(ls, i, lvl, true, None)[0] == Visit(i, lvl)
  {}

  // In the walk of i, every row but the first is under its parent.
  lemma {:induction false} WalkPreorder(ls: seq<Line>, i: nat, lvl: nat, p: nat)
    requires UniqueKeys(ls) && i < |ls| && Leaves(ls, i)
    requires 0 < p < |Walk(ls, i, lvl, true, None)|
    ensures UnderParent(ls, Walk(ls, i, lvl, true, None), p)
    decreases |ls| - Depth(ls, i), 0
  {
    DepthBound(ls, i);
    KidsLeave(ls, i);
    forall t | 0 <= t < |KidsOf(ls, i)|
      ensures ParentRow(ls, KidsOf(ls, i)[t]) == Some(i)
    {
      KidDepth(ls, i, t);
    }
    KidsPreorder(ls, i, KidsOf(ls, i), Depth(ls, i) + 1, lvl, p);
  }

  ghost function WithKids(ls: seq<Line>, i: nat, rows: seq<nat>, d: nat, lvl: nat): seq<Visit>
    requires UniqueKeys(ls) && AllLeave(ls, rows, d)
  {
    [Visit(i, lvl)] + WalkAll(ls, rows, d, lvl + 1, true, None)
  }

  lemma WithKidsSplit(ls: seq<Line>, i: nat, rows: seq<nat>, d: nat, lvl: nat)
    requires UniqueKeys(ls) && AllLeave(ls, rows, d)
    ensures rows == [] ==> |WithKids(ls, i, rows, d, lvl)| == 1
    ensures rows != [] ==>
              WithKids(ls, i, rows, d, lvl) ==
              WithKids(ls, i, rows[..|rows| - 1], d, lvl) + Walk(ls, rows[|rows| - 1], lvl + 1, true, None)
  {}

  // The first row of a later child comes after the parent and rows below it.
  lemma LaterKid(ls: seq<Line>, i: nat, rows: seq<nat>, d: nat, lvl: nat, own: seq<Visit>)
    requires UniqueKeys(ls) && AllLeave(ls, rows, d)
    requires own != [] && own[0].lvl == lvl + 1 && own[0].row < |ls| && ParentRow(ls, own[0].row) == Some(i)
    ensures var before := WithKids(ls, i, rows, d, lvl);
            UnderParent(ls, before + own, |before|)
  {
    hide WalkAll;
    var before := WithKids(ls, i, rows, d, lvl);
    WalkAllLevels(ls, rows, d, lvl + 1);
    assert UnderAt(ls, before + own, 0, |before|);
  }

  lemma {:induction false} KidsPreorder(ls: seq<Line>, i: nat, rows: seq<nat>, d: nat, lvl: nat, p: nat)
    requires UniqueKeys(ls) && i < |ls| && AllLeave(ls, rows, d)
    requires forall t :: 0 <= t < |rows| ==> ParentRow(ls, rows[t]) == Some(i)
    requires 0 < p < |WithKids(ls, i, rows, d, lvl)|
    ensures UnderParent(ls, WithKids(ls, i, rows, d, lvl), p)
    decreases |ls| - d, |rows|
  {
    hide Walk, WithKids, UnderParent;
    WithKidsSplit(ls, i, rows, d, lvl);
    var last := |rows| - 1;
    var before := WithKids(ls, i, rows[..last], d, lvl);
    var own := Walk(ls, rows[last], lvl + 1, true, None);
    if p < |before| {
      KidsPreorder(ls, i, rows[..last], d, lvl, p);
      UnderParentPrefix(ls, before, own, p);
    } else if p == |before| {
      WalkFirst(ls, rows[last], lvl + 1);
      LaterKid(ls, i, rows[..last], d, lvl, own);
    } else {
      WalkPreorder(ls, rows[last], lvl + 1, p - |before|);
      UnderParentShift(ls, own, before, p - |before|);
    }
  }

  lemma WalkAllSplit(ls: seq<Line>, rows: seq<nat>, d: nat, lvl: nat)
    requires UniqueKeys(ls) && AllLeave(ls, rows, d)
    ensures rows == [] ==> WalkAll(ls, rows, d, lvl, true, None) == []
    ensures rows != [] ==>
              WalkAll(ls, rows, d, lvl, true, None) ==
              WalkAll(ls, rows[..|rows| - 1], d, lvl, true, None) + Walk(ls, rows[|rows| - 1], lvl, true, None)
  {}

  lemma {:induction false} RootsPreorder(ls: seq<Line>, rows: seq<nat>, p: nat)
    requires UniqueKeys(ls) && AllLeave(ls, rows, 1)
    requires p < |WalkAll(ls, rows, 1, 0, true, None)|
    ensures var vs := WalkAll(ls, rows, 1, 0, true, None);
            vs[p].lvl == 0 || UnderParent(ls, vs, p)
    decreases |rows|
  {
    hide Walk, WalkAll, UnderParent;
    WalkAllSplit(ls, rows, 1, 0);
    var last := |rows| - 1;
    var before := WalkAll(ls, rows[..last], 1, 0, true, None);
    var own := Walk(ls, rows[last], 0, true, None);
    WalkFirst(ls, rows[last], 0);
    if p < |before| {
      RootsPreorder(ls, rows[..last], p);
      if before[p].lvl != 0 {
        UnderParentPrefix(ls, before, own, p);
      }
    } else if p > |before| {
      WalkPreorder(ls, rows[last], 0, p - |before|);
      UnderParentShift(ls, own, before, p - |before|);
    }
  }

  // The output is a preorder: every row that is not a root follows its parent
  // row with only deeper rows in between.
  lemma ForestPreorder(ls: seq<Line>, p: nat)
    requires UniqueKeys(ls) && p < |Forest(ls, false, None)|
    ensures var vs := Forest(ls, false, None);
            vs[p].lvl == 0 || UnderParent(ls, vs, p)
  {
    RootsLeave(ls, |ls|);
    RootsPreorder(ls, Roots(ls, |ls|), p);
  }

  ghost predicate Siblings(ls: seq<Line>, x: nat, y: nat) {
    x < |ls| && y < |ls| && Leaves(ls, x) && Leaves(ls, y) && ParentRow(ls, x) == ParentRow(ls, y)
  }

  lemma SiblingDepth(ls: seq<Line>, x: nat, y: nat)
    requires Siblings(ls, x, y)
    ensures Depth(ls, x) == Depth(ls, y)
    ensures forall d :: 1 <= d < Depth(ls, x) ==> AncestorAt(ls, x, d) == AncestorAt(ls, y, d)
  {
    match ParentRow(ls, x) {
      case None =>
        RootDepth(ls, x);
        RootDepth(ls, y);
      case Some(j) =>
        DepthIs(ls, j, Depth(ls, x) - 1);
        DepthIs(ls, j, Depth(ls, y) - 1);
    }
  }

  // Of two siblings in the walks of different rows, that of the later row is later.
  lemma ApartInOrder(ls: seq<Line>, rows: seq<nat>, d: nat, x: nat, y: nat)
    requires AllLeave(ls, rows, d) && 1 <= d && rows != [] && Siblings(ls, x, y)
    requires forall t, u :: 0 <= t < u < |rows| ==> rows[t] < rows[u]
    requires d <= Depth(ls, x) && AncestorAt(ls, x, d) in rows[..|rows| - 1] && Below(ls, y, rows[|rows| - 1])
    ensures x < y
  {
    SiblingDepth(ls, x, y);
    var t :| 0 <= t < |rows| - 1 && rows[t] == AncestorAt(ls, x, d);
    assert rows[t] < rows[|rows| - 1];
  }

  lemma {:induction false} WalkSiblings(ls: seq<Line>, i: nat, lvl: nat, p: nat, q: nat)
    requires UniqueKeys(ls) && i < |ls| && Leaves(ls, i)
    requires p < |Walk(ls, i, lvl, true, None)| && q < |Walk(ls, i, lvl, true, None)|
    requires var vs := Walk(ls, i, lvl, true, None); Siblings(ls, vs[p].row, vs[q].row) && vs[p].row < vs[q].row
    ensures p < q
    decreases |ls| - Depth(ls, i), 0
  {
    hide Walk, WalkAll, AncestorAt, KidsOf, Leaves;
    DepthBound(ls, i);
    WalkUnfold(ls, i, lvl, true, None);
    var ks, d := KidsOf(ls, i), Depth(ls, i);
    var x, y := Walk(ls, i, lvl, true, None)[p].row, Walk(ls, i, lvl, true, None)[q].row;
    SiblingDepth(ls, x, y);
    if p > 0 && q > 0 {
      WalkAllSiblings(ls, ks, d + 1, lvl + 1, p - 1, q - 1);
    } else if p > 0 {
      WalkAllBelow(ls, ks, d + 1, lvl + 1, true, None, p - 1);
      assert false;
    }
  }

  lemma {:induction false} WalkAllSiblings(ls: seq<Line>, rows: seq<nat>, d: nat, lvl: nat, p: nat, q: nat)
    requires UniqueKeys(ls) && AllLeave(ls, rows, d) && 1 <= d
    requires forall t, u :: 0 <= t < u < |rows| ==> rows[t] < rows[u]
    requires p < |WalkAll(ls, rows, d, lvl, true, None)| && q < |WalkAll(ls, rows, d, lvl, true, None)|
    requires var vs := WalkAll(ls, rows, d, lvl, true, None);
             Siblings(ls, vs[p].row, vs[q].row) && vs[p].row < vs[q].row
    ensures p < q
    decreases |ls| - d, |rows|
  {
    hide Walk, WalkAll, AncestorAt, Leaves, Siblings;
    WalkAllSplit(ls, rows, d, lvl);
    var last := |rows| - 1;
    var before, own := WalkAll(ls, rows[..last], d, lvl, true, None), Walk(ls, rows[last], lvl, true, None);
    if p < |before| && q < |before| {
      WalkAllSiblings(ls, rows[..last], d, lvl, p, q);
    } else if p >= |before| && q >= |before| {
      WalkSiblings(ls, rows[last], lvl, p - |before|, q - |before|);
    } else if q < |before| {
      WalkAllBelow(ls, rows[..last], d, lvl, true, None, q);
      WalkBelow(ls, rows[last], lvl, true, None, p - |before|);
      SiblingsSwap(ls, own[p - |before|].row, before[q].row);
      ApartInOrder(ls, rows, d, before[q].row, own[p - |before|].row);
      assert false;
    }
  }

  lemma SiblingsSwap(ls: seq<Line>, x: nat, y: nat)
    requires Siblings(ls, x, y)
    ensures Siblings(ls, y, x)
  {
  }

  // Rows with the same parent, and roots, are printed in input order. With
  // ForestOnce and ForestPreorder this leaves only one possible output.
  lemma ForestSiblings(ls: seq<Line>, p: nat, q: nat)
    requires UniqueKeys(ls) && p < |Forest(ls, false, None)| && q < |Forest(ls, false, None)|
    requires var vs := Forest(ls, false, None); Siblings(ls, vs[p].row, vs[q].row) && vs[p].row < vs[q].row
    ensures p < q
  {
    RootsLeave(ls, |ls|);
    WalkAllSiblings(ls, Roots(ls, |ls|), 1, 0, p, q);
  }

  // ------------------------------------------------------------------ the filter

  // Once printing is on, the filter has no effect.
  lemma {:induction false} WalkOn(ls: seq<Line>, i: nat, lvl: nat, f: Option<nat>)
    requires UniqueKeys(ls) && i < |ls| && Leaves(ls, i)
    ensures Walk(ls, i, lvl, true, f) == Walk(ls, i, lvl, true, None)
    decreases |ls| - Depth(ls, i), 0
  {
    DepthBound(ls, i);
    KidsLeave(ls, i);
    WalkAllOn(ls, KidsOf(ls, i), Depth(ls, i) + 1, lvl + 1, f);
  }

  lemma {:induction false} WalkAllOn(ls: seq<Line>, rows: seq<nat>, d: nat, lvl: nat, f: Option<nat>)
    requires UniqueKeys(ls) && AllLeave(ls, rows, d)
    ensures WalkAll(ls, rows, d, lvl, true, f) == WalkAll(ls, rows, d, lvl, true, None)
    decreases |ls| - d, |rows|
  {
    if rows != [] {
      var last := |rows| - 1;
      WalkAllOn(ls, rows[..last], d, lvl, f);
      WalkOn(ls, rows[last], lvl, f);
    }
  }

  lemma {:induction false} WalkFiltered(ls: seq<Line>, i: nat, lvl: nat, f: nat)
    requires UniqueKeys(ls) && i < |ls| && Leaves(ls, i) && f < |ls|
    ensures Walk(ls, i, lvl, false, Some(f)) == if Below(ls, f, i) then Walk(ls, f, lvl, true, None) else []
    decreases |ls| - Depth(ls, i), 0
  {
    hide Walk, WalkAll, Leaves, UniqueKeys, Kids, AncestorAt;
    DepthBound(ls, i);
    KidsLeave(ls, i);
    WalkUnfold(ls, i, lvl, false, Some(f));
    TopBelow(ls, f, i);
    var d, ks := Depth(ls, i), KidsOf(ls, i);
    if f == i {
      WalkOn(ls, i, lvl, Some(f));
      WalkUnfold(ls, i, lvl, true, Some(f));
    } else {
      WalkAllFiltered(ls, ks, d + 1, lvl, f);
      if Leaves(ls, f) && Depth(ls, f) > d {
        BelowKid(ls, f, i);
      }
    }
  }

  lemma {:induction false} WalkAllFiltered(ls: seq<Line>, rows: seq<nat>, d: nat, lvl: nat, f: nat)
    requires UniqueKeys(ls) && AllLeave(ls, rows, d) && 1 <= d && f < |ls|
    requires forall t, u :: 0 <= t < u < |rows| ==> rows[t] < rows[u]
    ensures WalkAll(ls, rows, d, lvl, false, Some(f)) ==
            if Leaves(ls, f) && d <= Depth(ls, f) && AncestorAt(ls, f, d) in rows
            then Walk(ls, f, lvl, true, None) else []
    decreases |ls| - d, |rows|
  {
    hide Walk, Leaves, UniqueKeys, AncestorAt;
    if rows != [] {
      var last := |rows| - 1;
      WalkAllFiltered(ls, rows[..last], d, lvl, f);
      WalkFiltered(ls, rows[last], lvl, f);
    }
  }

  // With a filter csv-tree prints exactly the walk of the matching row, with
  // levels relative to it, provided its parent chain leaves the rows.
  lemma ForestFiltered(ls: seq<Line>, f: nat)
    requires UniqueKeys(ls) && f < |ls|
    ensures Forest(ls, true, Some(f)) == if Leaves(ls, f) then Walk(ls, f, 0, true, None) else []
  {
    RootsLeave(ls, |ls|);
    WalkAllFiltered(ls, Roots(ls, |ls|), 1, 0, f);
    if Leaves(ls, f) {
      var r := AncestorAt(ls, f, 1);
      assert LeavesIn(ls, r, 1);
      assert ParentRow(ls, r).None?;
      assert r in Roots(ls, |ls|);
    }
  }

  lemma {:induction false} WalkNothing(ls: seq<Line>, i: nat, lvl: nat)
    requires UniqueKeys(ls) && i < |ls| && Leaves(ls, i)
    ensures Walk(ls, i, lvl, false, None) == []
    decreases |ls| - Depth(ls, i), 0
  {
    DepthBound(ls, i);
    KidsLeave(ls, i);
    WalkAllNothing(ls, KidsOf(ls, i), Depth(ls, i) + 1, lvl);
  }

  lemma {:induction false} WalkAllNothing(ls: seq<Line>, rows: seq<nat>, d: nat, lvl: nat)
    requires UniqueKeys(ls) && AllLeave(ls, rows, d)
    ensures WalkAll(ls, rows, d, lvl, false, None) == []
    decreases |ls| - d, |rows|
  {
    if rows != [] {
      var last := |rows| - 1;
      WalkAllNothing(ls, rows[..last], d, lvl);
      WalkNothing(ls, rows[last], lvl);
    }
  }

  // A filter that matches no row prints nothing.
  lemma ForestUnmatched(ls: seq<Line>)
    requires UniqueKeys(ls)
    ensures Forest(ls, true, None) == []
  {
    RootsLeave(ls, |ls|);
    WalkAllNothing(ls, Roots(ls, |ls|), 1, 0);
  }

  // ---------------------------------------------------------------------- sums

  function Val(ls: seq<Line>, i: nat): int
    requires i < |ls|
  {
    if ls[i].val.Some? then ls[i].val.value else 0
  }

  // The mathematical sum over the subtree of row i.
  ghost function Sum(ls: seq<Line>, i: nat): int
    requires UniqueKeys(ls) && i < |ls| && Leaves(ls, i)
    decreases |ls| - Depth(ls, i), 0
  {
    DepthBound(ls, i);
    KidsLeave(ls, i);
    Val(ls, i) + SumAll(ls, KidsOf(ls, i), Depth(ls, i) + 1)
  }

  ghost function SumAll(ls: seq<Line>, rows: seq<nat>, d: nat): int
    requires UniqueKeys(ls) && AllLeave(ls, rows, d)
    decreases |ls| - d, |rows|
  {
    if rows == [] then 0
    else
      var last := |rows| - 1;
      SumAll(ls, rows[..last], d) + Sum(ls, rows[last])
  }

  lemma {:induction false} NoKids(ls: seq<Line>, n: nat, k: string)
    requires n <= |ls| && forall j :: 0 <= j < n ==> ls[j].parent != k
    ensures Kids(ls, n, k) == []
    decreases n
  {
    if n > 0 {
      NoKids(ls, n - 1, k);
    }
  }

  // A row that is no parent has its own number as its sum.
  lemma LeafSum(ls: seq<Line>, i: nat)
    requires UniqueKeys(ls) && i < |ls| && Leaves(ls, i)
    requires ls[i].val.Some? && forall j :: 0 <= j < |ls| ==> ls[j].parent != ls[i].key
    ensures Sum(ls, i) == ls[i].val.value
  {
    NoKids(ls, |ls|, ls[i].key);
  }

  ghost predicate RowsExist(ls: seq<Line>, vs: seq<Visit>) {
    forall p :: 0 <= p < |vs| ==> vs[p].row < |ls|
  }

  function SumVisits(ls: seq<Line>, vs: seq<Visit>): int
    requires RowsExist(ls, vs)
  {
    if vs == [] then 0 else SumVisits(ls, vs[..|vs| - 1]) + Val(ls, vs[|vs| - 1].row)
  }

  lemma {:induction false} SumVisitsConcat(ls: seq<Line>, a: seq<Visit>, b: seq<Visit>)
    requires RowsExist(ls, a) && RowsExist(ls, b)
    ensures RowsExist(ls, a + b) && SumVisits(ls, a + b) == SumVisits(ls, a) + SumVisits(ls, b)
    decreases |b|
  {
    if b == [] {
      assert a + b == a;
    } else {
      assert (a + b)[..|a + b| - 1] == a + b[..|b| - 1];
      SumVisitsConcat(ls, a, b[..|b| - 1]);
    }
  }

  lemma SumSplit(ls: seq<Line>, i: nat, lvl: nat)
    requires UniqueKeys(ls) && i < |ls| && Leaves(ls, i)
    ensures AllLeave(ls, KidsOf(ls, i), Depth(ls, i) + 1)
    ensures Sum(ls, i) == Val(ls, i) + SumAll(ls, KidsOf(ls, i), Depth(ls, i) + 1)
    ensures Walk(ls, i, lvl, true, None) ==
            [Visit(i, lvl)] + WalkAll(ls, KidsOf(ls, i), Depth(ls, i) + 1, lvl + 1, true, None)
  {
    KidsLeave(ls, i);
  }

  lemma {:induction false} SumIsWalk(ls: seq<Line>, i: nat, lvl: nat)
    requires UniqueKeys(ls) && i < |ls| && Leaves(ls, i)
    ensures RowsExist(ls, Walk(ls, i, lvl, true, None))
    ensures Sum(ls, i) == SumVisits(ls, Walk(ls, i, lvl, true, None))
    decreases |ls| - Depth(ls, i), 0
  {
    hide Walk, WalkAll, Sum, SumAll;
    DepthBound(ls, i);
    SumSplit(ls, i, lvl);
    var ks := KidsOf(ls, i);
    SumAllIsWalk(ls, ks, Depth(ls, i) + 1, lvl + 1);
    SumOne(ls, Visit(i, lvl));
    SumVisitsConcat(ls, [Visit(i, lvl)], WalkAll(ls, ks, Depth(ls, i) + 1, lvl + 1, true, None));
  }

  lemma SumOne(ls: seq<Line>, v: Visit)
    requires v.row < |ls|
    ensures SumVisits(ls, [v]) == Val(ls, v.row)
  {
    assert [v][..0] == [];
  }

  lemma {:induction false} SumAllIsWalk(ls: seq<Line>, rows: seq<nat>, d: nat, lvl: nat)
    requires UniqueKeys(ls) && AllLeave(ls, rows, d)
    ensures RowsExist(ls, WalkAll(ls, rows, d, lvl, true, None))
    ensures SumAll(ls, rows, d) == SumVisits(ls, WalkAll(ls, rows, d, lvl, true, None))
    decreases |ls| - d, |rows|
  {
    if rows != [] {
      var last := |rows| - 1;
      SumAllIsWalk(ls, rows[..last], d, lvl);
      SumIsWalk(ls, rows[last], lvl);
      SumVisitsConcat(ls, WalkAll(ls, rows[..last], d, lvl, true, None), Walk(ls, rows[last], lvl, true, None));
    }
  }

  function Weighted(ls: seq<Line>, vs: seq<Visit>, n: nat): int
    requires n <= |ls|
  {
    if n == 0 then 0 else Weighted(ls, vs, n - 1) + Count(vs, n - 1) * Val(ls, n - 1)
  }

  lemma {:induction false} WeightedSnoc(ls: seq<Line>, vs: seq<Visit>, v: Visit, n: nat)
    requires n <= |ls|
    ensures Weighted(ls, vs + [v], n) ==
            Weighted(ls, vs, n) + if v.row < n then Val(ls, v.row) else 0
  {
    if n > 0 {
      WeightedSnoc(ls, vs, v, n - 1);
      assert (vs + [v])[..|vs|] == vs;
    }
  }

  lemma {:induction false} SumVisitsWeighted(ls: seq<Line>, vs: seq<Visit>)
    requires RowsExist(ls, vs)
    ensures SumVisits(ls, vs) == Weighted(ls, vs, |ls|)
    decreases |vs|
  {
    if vs == [] {
      WeightedEmpty(ls, |ls|);
    } else {
      var last := |vs| - 1;
      SumVisitsWeighted(ls, vs[..last]);
      WeightedSnoc(ls, vs[..last], vs[last], |ls|);
      assert vs[..last] + [vs[last]] == vs;
    }
  }

  lemma {:induction false} WeightedEmpty(ls: seq<Line>, n: nat)
    requires n <= |ls|
    ensures Weighted(ls, [], n) == 0
  {
    if n > 0 {
      WeightedEmpty(ls, n - 1);
    }
  }

  // The values of all rows that are visited.
  ghost function TotalVisited(ls: seq<Line>, n: nat): int
    requires n <= |ls|
  {
    if n == 0 then 0 else TotalVisited(ls, n - 1) + if Leaves(ls, n - 1) then Val(ls, n - 1) else 0
  }

  lemma {:induction false} WeightedForest(ls: seq<Line>, n: nat)
    requires UniqueKeys(ls) && n <= |ls|
    ensures Weighted(ls, Forest(ls, false, None), n) == TotalVisited(ls, n)
  {
    if n > 0 {
      WeightedForest(ls, n - 1);
      ForestOnce(ls, n - 1);
    }
  }

  // Conservation: the root sums add up to the total over all visited rows.
  lemma RootSumsAreTotal(ls: seq<Line>)
    requires UniqueKeys(ls)
    ensures AllLeave(ls, Roots(ls, |ls|), 1)
    ensures SumAll(ls, Roots(ls, |ls|), 1) == TotalVisited(ls, |ls|)
  {
    RootsLeave(ls, |ls|);
    SumAllIsWalk(ls, Roots(ls, |ls|), 1, 0);
    SumVisitsWeighted(ls, Forest(ls, false, None));
    WeightedForest(ls, |ls|);
  }

  // What `aggregate` holds in row i after adding the first m children.
  ghost function PartialSum(ls: seq<Line>, i: nat, m: nat): int
    requires UniqueKeys(ls) && i < |ls| && Leaves(ls, i) && m <= |KidsOf(ls, i)|
  {
    KidsLeave(ls, i);
    Val(ls, i) + SumAll(ls, KidsOf(ls, i)[..m], Depth(ls, i) + 1)
  }

  // Row i has a number and none of its partial sums leaves the 64-bit range.
  ghost predicate Clean(ls: seq<Line>, i: nat)
    requires UniqueKeys(ls) && i < |ls| && Leaves(ls, i)
  {
    && ls[i].val.Some?
    && forall m: nat :: m <= |KidsOf(ls, i)| ==> IsLong(PartialSum(ls, i, m))
  }

  // All rows below row i are clean.
  ghost predicate AllClean(ls: seq<Line>, i: nat)
    requires UniqueKeys(ls) && i < |ls| && Leaves(ls, i)
  {
    forall x: nat :: x < |ls| && Leaves(ls, x) && Below(ls, x, i) ==> Clean(ls, x)
  }

  // A row is below i iff it is i or below one of its children.
  lemma BelowIff(ls: seq<Line>, x: nat, i: nat)
    requires UniqueKeys(ls) && x < |ls| && i < |ls| && Leaves(ls, i)
    ensures Below(ls, x, i) <==>
            x == i ||
            (exists t ::
               0 <= t < |KidsOf(ls, i)| && Leaves(ls, KidsOf(ls, i)[t]) && Below(ls, x, KidsOf(ls, i)[t]))
  {
    hide LeavesIn, UniqueKeys, Kids, AncestorAt, ParentRow;
    var ks := KidsOf(ls, i);
    KidsLeave(ls, i);
    TopBelow(ls, x, i);
    if Leaves(ls, x) && Depth(ls, x) > Depth(ls, i) {
      BelowKid(ls, x, i);
      if Below(ls, x, i) {
        var t :| 0 <= t < |ks| && ks[t] == AncestorAt(ls, x, Depth(ls, i) + 1);
        assert Below(ls, x, ks[t]);
      }
      if t :| 0 <= t < |ks| && Below(ls, x, ks[t]) {
        assert ks[t] in ks;
      }
    }
  }
}
