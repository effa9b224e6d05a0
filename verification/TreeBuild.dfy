// The two build loops of csv-tree, `aggregate` and `process` (src/tree.c), on
// linked records: the first loop links every row to its parent record and counts
// children, the second fills child arrays of exactly the counted size. Records
// come out of the hash table; `ls` are the rows with their keys replaced by the
// records the table answered (TreeTable.Relabelled), except where raw rows are read.

module TreeBuild {
  import opened HashTable
  import opened HashTableInPlace
  import opened IntText
  import opened TreeModel
  import opened TreeTable
  import opened TreeTransfer
  import opened Wrappers

  class LineInfo {
    ghost const key: string   // its name
    var curIdx: nat
    var parent: LineInfo?
    var children: array?<LineInfo?>
    var nchildren: nat
    var isum: int
    var filtered: bool

    constructor (ghost key: string)
      ensures this.key == key
      ensures curIdx == 0 && parent == null && children == null && nchildren == 0 && isum == 0 && !filtered
    {
      this.key := key;
      curIdx, parent, children, nchildren, isum, filtered := 0, null, null, 0, 0, false;
    }
  }

  // The record with a name, created by the callback of the lookup that first
  // answers it. `ht` is the memory the records are in.
  method GetLineInfo(ht: map<string, LineInfo>, key: string) returns (ht': map<string, LineInfo>, o: LineInfo)
    ensures ht' == ht[key := o]
    ensures key in ht ==> ht' == ht && o == ht[key]
    ensures key !in ht ==>
              fresh(o) && o.key == key && o.parent == null && o.children == null && o.nchildren == 0 && !o.filtered
  {
    if key in ht {
      return ht, ht[key];
    }
    o := new LineInfo(key);
    ht' := ht[key := o];
  }

  // Every record knows its key, so different keys have different records.
  ghost predicate Keyed(ht: map<string, LineInfo>) {
    forall k :: k in ht ==> ht[k].key == k
  }

  // What the fields of a record say about its own row once the first n rows are linked.
  ghost predicate LinkedTo(ls: seq<Line>, n: nat, ht: map<string, LineInfo>, filter: Option<string>, k: string,
                           curIdx: nat, parent: LineInfo?, filtered: bool)
    requires n <= |ls|
  {
    match FindKey(ls, n, k)
    case None => parent == null && !filtered
    case Some(j) =>
      ls[j].parent in ht && curIdx == j && parent == ht[ls[j].parent] && filtered == (filter == Some(k))
  }

  ghost predicate Linked(ls: seq<Line>, n: nat, ht: map<string, LineInfo>, filter: Option<string>, k: string)
    requires n <= |ls| && k in ht
    reads {ht[k]}`curIdx, {ht[k]}`parent, {ht[k]}`filtered
  {
    LinkedTo(ls, n, ht, filter, k, ht[k].curIdx, ht[k].parent, ht[k].filtered)
  }

  ghost predicate Stored(ls: seq<Line>, n: nat, ht: map<string, LineInfo>)
    requires n <= |ls|
  {
    forall j :: 0 <= j < n ==> ls[j].key in ht && ls[j].parent in ht
  }

  ghost predicate Counted(ls: seq<Line>, n: nat, ht: map<string, LineInfo>, filter: Option<string>)
    requires n <= |ls|
    reads ht.Values
  {
    && Stored(ls, n, ht) && Keyed(ht)
    // triggered by Linked alone: a record's parent is again a record
    && (forall k {:trigger Linked(ls, n, ht, filter, k)} :: k in ht ==> Linked(ls, n, ht, filter, k))
    && (forall k :: k in ht ==> ht[k].children == null && ht[k].nchildren == |Kids(ls, n, k)|)
  }

  // What one more row changes for key k.
  lemma NextKids(ls: seq<Line>, n: nat, k: string)
    requires n < |ls|
    ensures |Kids(ls, n + 1, k)| == |Kids(ls, n, k)| + if ls[n].parent == k then 1 else 0
  {}

  lemma NextFind(ls: seq<Line>, n: nat, k: string)
    requires n < |ls|
    ensures FindKey(ls, n + 1, k) == if ls[n].key == k then Some(n) else FindKey(ls, n, k)
  {}

  // A key without a record is no key and no parent so far.
  lemma NewKey(ls: seq<Line>, n: nat, ht: map<string, LineInfo>, k: string)
    requires n <= |ls| && Stored(ls, n, ht) && k !in ht
    ensures Kids(ls, n, k) == [] && FindKey(ls, n, k) == None
  {}

  // Both lookups of a row end with the record that was answered (lines 390-397).
  method GetRecord(ghost ls: seq<Line>, ghost n: nat, ghost filter: Option<string>, ht0: map<string, LineInfo>,
                   key: string)
    returns (ht: map<string, LineInfo>, o: LineInfo)
    requires n <= |ls| && Counted(ls, n, ht0, filter)
    ensures Counted(ls, n, ht, filter)
    ensures forall k :: k in ht0 ==> k in ht && ht[k] == ht0[k]
    ensures forall k :: k in ht && k !in ht0 ==> fresh(ht[k])
    ensures key in ht && o == ht[key]
  {
    hide FindKey, Kids;
    ht, o := GetLineInfo(ht0, key);
    if key !in ht0 {
      NewKey(ls, n, ht0, key);
    }
    forall k {:trigger Linked(ls, n, ht, filter, k)} | k in ht
      ensures Linked(ls, n, ht, filter, k)
    {
      if k in ht0 {
        assert old(Linked(ls, n, ht0, filter, k));
      }
    }
  }

  lemma NotYet(ls: seq<Line>, i: nat)
    requires UniqueKeys(ls) && i < |ls|
    ensures FindKey(ls, i, ls[i].key) == None
  {}

  // One more row linked: its own record says so, the others say what they said.
  lemma LinkedNext(ls: seq<Line>, i: nat, ht: map<string, LineInfo>, filter: Option<string>, k: string,
                   curIdx: nat, parent: LineInfo?, filtered: bool)
    requires i < |ls| && LinkedTo(ls, i, ht, filter, k, curIdx, parent, filtered)
    requires FindKey(ls, i, ls[i].key) == None && ls[i].parent in ht
    ensures k != ls[i].key ==> LinkedTo(ls, i + 1, ht, filter, k, curIdx, parent, filtered)
    ensures k == ls[i].key ==>
              !filtered && LinkedTo(ls, i + 1, ht, filter, k, i, ht[ls[i].parent], filter == Some(k))
  {
    hide FindKey;
    NextFind(ls, i, k);
  }

  // Link the record of row i to its parent's (lines 399-409).
  method LinkRow(ghost ls: seq<Line>, i: nat, ghost filter: Option<string>, matches: bool, filterFound: bool,
                 ghost ht: map<string, LineInfo>, curRow: LineInfo, parent: LineInfo)
    returns (found: bool)
    requires UniqueKeys(ls) && i < |ls| && Counted(ls, i, ht, filter)
    requires matches <==> filter == Some(ls[i].key)
    requires filterFound <==> filter.Some? && FindKey(ls, i, filter.value).Some?
    requires ls[i].key in ht && curRow == ht[ls[i].key]
    requires ls[i].parent in ht && parent == ht[ls[i].parent]
    modifies curRow, parent
    ensures Counted(ls, i + 1, ht, filter)
    ensures found <==> filter.Some? && FindKey(ls, i + 1, filter.value).Some?
  {
    hide FindKey, Kids, UniqueKeys, LinkedTo;
    found := filterFound;
    if filter.Some? {
      NextFind(ls, i, filter.value);
    }
    NotYet(ls, i);
    assert Linked(ls, i, ht, filter, ls[i].key);
    LinkedNext(ls, i, ht, filter, ls[i].key, curRow.curIdx, curRow.parent, curRow.filtered);
    if matches && !found {
      curRow.filtered := true;
      found := true;
    }
    curRow.curIdx := i;
    curRow.parent := parent;
    parent.nchildren := parent.nchildren + 1;
    forall k {:trigger Linked(ls, i + 1, ht, filter, k)} | k in ht
      ensures Linked(ls, i + 1, ht, filter, k)
    {
      assert old(Linked(ls, i, ht, filter, k));
      LinkedNext(ls, i, ht, filter, k, old(ht[k].curIdx), old(ht[k].parent), old(ht[k].filtered));
      assert k != ls[i].key ==> ht[k] != curRow;
    }
    forall k | k in ht
      ensures ht[k].children == null && ht[k].nchildren == |Kids(ls, i + 1, k)|
    {
      NextKids(ls, i, k);
    }
  }

  lemma NothingCounted(ls: seq<Line>, filter: Option<string>)
    ensures Counted(ls, 0, map[], filter)
  {}

  // The row a filter matches.
  function FilterRow(ls: seq<Line>, filter: Option<string>): (r: Option<nat>)
    ensures r.Some? ==> filter.Some? && r.value < |ls| && ls[r.value].key == filter.value
    ensures r.None? ==> filter.None? || forall i :: 0 <= i < |ls| ==> ls[i].key != filter.value
  {
    if filter.Some? then FindKey(ls, |ls|, filter.value) else None
  }

  // Which record the filter is after: that of the row with the filter's key.
  ghost function RecordFilter(hash: string -> nat, raw: seq<Line>, filter: Option<string>): Option<string> {
    match FilterRow(raw, filter)
    case None => None
    case Some(f) => Some(Relabelled(hash, raw)[f].key)
  }

  lemma FilterIsRecord(hash: string -> nat, raw: seq<Line>, filter: Option<string>, i: nat)
    requires UniqueKeys(raw) && i < |raw|
    ensures filter == Some(raw[i].key) <==> RecordFilter(hash, raw, filter) == Some(Relabelled(hash, raw)[i].key)
    ensures FilterRow(Relabelled(hash, raw), RecordFilter(hash, raw, filter)) == FilterRow(raw, filter)
  {
    hide Relabelled;
    RelabelledUnique(hash, raw);
    FindKeyUnique(raw, |raw|, i);
    var f := FilterRow(raw, filter);
    if f.Some? {
      FindKeyUnique(Relabelled(hash, raw), |raw|, f.value);
    }
  }

  // The table after the first n lookups.
  ghost predicate TableAt(table: CsvHt, hash: string -> nat, raw: seq<Line>, n: nat)
    requires n <= 2 * |raw|
    reads table, table.kvs
  {
    table.hash == hash && table.Valid() && table.Value() == Run(hash, Empty(|raw|), Lookups(raw)[..n])
  }

  // One of a row's two lookups: the table answers with the record's address.
  method LookUp(table: CsvHt, ghost hash: string -> nat, ghost raw: seq<Line>, key: string, n: nat)
    returns (name: string)
    requires n < 2 * |raw| && key == Lookups(raw)[n].key && TableAt(table, hash, raw, n)
    modifies table, table.kvs
    ensures TableAt(table, hash, raw, n + 1) && (table.kvs == old(table.kvs) || fresh(table.kvs))
    ensures name == RecordName(Record(hash, raw, n))
  {
    hide After, Answer, Empty;
    ghost var calls := Lookups(raw);
    assert calls[..n + 1][..n] == calls[..n] && calls[..n + 1][n] == calls[n];
    var p := table.GetValue(key, () => n + 1);
    name := RecordName(p);
  }

  // Both lookups of row i.
  method LookUpRow(table: CsvHt, ghost hash: string -> nat, raw: seq<Line>, i: nat, ghost ls: seq<Line>)
    returns (key: string, parent: string)
    requires i < |raw| && Named(ls, hash, raw, i) && TableAt(table, hash, raw, 2 * i)
    modifies table, table.kvs
    ensures TableAt(table, hash, raw, 2 * i + 2) && (table.kvs == old(table.kvs) || fresh(table.kvs))
    ensures key == ls[i].key && parent == ls[i].parent
  {
    hide TableAt, Lookups, Record, RecordName;
    LookupsOfRow(raw, i);
    key := LookUp(table, hash, raw, raw[i].key, 2 * i);
    parent := LookUp(table, hash, raw, raw[i].parent, 2 * i + 1);
  }

  // The records of the first n rows.
  ghost predicate RecordsOf(ls: seq<Line>, n: nat, ht: map<string, LineInfo>, infos: seq<LineInfo>)
    requires n <= |ls|
  {
    |infos| == n && forall j :: 0 <= j < n ==> ls[j].key in ht && infos[j] == ht[ls[j].key]
  }

  lemma OneMoreRecord(ls: seq<Line>, n: nat, ht0: map<string, LineInfo>, infos: seq<LineInfo>,
                      ht: map<string, LineInfo>, o: LineInfo)
    requires n < |ls| && RecordsOf(ls, n, ht0, infos)
    requires forall k :: k in ht0 ==> k in ht && ht[k] == ht0[k]
    requires ls[n].key in ht && o == ht[ls[n].key]
    ensures RecordsOf(ls, n + 1, ht, infos + [o])
  {}

  // The loop body of the first pass.
  method LinkNext(table: CsvHt, ghost hash: string -> nat, raw: seq<Line>, i: nat, ghost ls: seq<Line>,
                  ghost wanted: Option<string>, matches: bool, filterFound: bool, ht0: map<string, LineInfo>)
    returns (ht: map<string, LineInfo>, curRow: LineInfo, found: bool)
    requires UniqueKeys(ls) && i < |raw| == |ls| && Named(ls, hash, raw, i)
    requires TableAt(table, hash, raw, 2 * i)
    requires Counted(ls, i, ht0, wanted)
    requires matches <==> wanted == Some(ls[i].key)
    requires filterFound <==> wanted.Some? && FindKey(ls, i, wanted.value).Some?
    modifies table, table.kvs, ht0.Values
    ensures TableAt(table, hash, raw, 2 * i + 2) && (table.kvs == old(table.kvs) || fresh(table.kvs))
    ensures Counted(ls, i + 1, ht, wanted)
    ensures forall k :: k in ht0 ==> k in ht && ht[k] == ht0[k]
    ensures forall k :: k in ht && k !in ht0 ==> fresh(ht[k])
    ensures ls[i].key in ht && curRow == ht[ls[i].key]
    ensures found <==> wanted.Some? && FindKey(ls, i + 1, wanted.value).Some?
  {
    hide Kids, Linked, Counted, FindKey, UniqueKeys, TableAt, Named;
    var key, parentKey := LookUpRow(table, hash, raw, i, ls);
    ht, curRow := GetRecord(ls, i, wanted, ht0, key);
    var parent;
    ht, parent := GetRecord(ls, i, wanted, ht, parentKey);
    found := LinkRow(ls, i, wanted, matches, filterFound, ht, curRow, parent);
  }

  // First loop: count children, link rows to parents, mark the filtered row.
  method LinkAndCount(hash: string -> nat, raw: seq<Line>, filter: Option<string>)
    returns (ghost ht: map<string, LineInfo>, infos: seq<LineInfo>)
    requires UniqueKeys(raw)
    ensures UniqueKeys(Relabelled(hash, raw))
    ensures Counted(Relabelled(hash, raw), |raw|, ht, RecordFilter(hash, raw, filter))
    ensures RecordsOf(Relabelled(hash, raw), |raw|, ht, infos)
    ensures forall k :: k in ht ==> fresh(ht[k])
  {
    hide Kids, Linked, Counted, RecordFilter, FindKey, UniqueKeys, TableAt, Relabelled, Named, RecordsOf;
    ghost var ls, wanted := Relabelled(hash, raw), RecordFilter(hash, raw, filter);
    RelabelledUnique(hash, raw);
    var memory: map<string, LineInfo> := map[];
    infos := [];
    NothingCounted(ls, wanted);
    var table := new CsvHt(hash, |raw|);
    NothingLookedUp(table, hash, raw);
    var filterFound := false;
    NothingFound(ls, wanted);
    NoRecords(ls, memory);
    for i := 0 to |raw|
      invariant fresh(table) && fresh(table.kvs) && TableAt(table, hash, raw, 2 * i)
      invariant Counted(ls, i, memory, wanted)
      invariant RecordsOf(ls, i, memory, infos)
      invariant forall k :: k in memory ==> fresh(memory[k])
      invariant filterFound <==> wanted.Some? && FindKey(ls, i, wanted.value).Some?
    {
      RelabelledNamed(hash, raw, i);
      FilterIsRecord(hash, raw, filter, i);
      ghost var before := memory;
      var curRow;
      memory, curRow, filterFound :=
        LinkNext(table, hash, raw, i, ls, wanted, filter == Some(raw[i].key), filterFound, memory);
      OneMoreRecord(ls, i, before, infos, memory, curRow);
      infos := infos + [curRow];
    }
    ht := memory;
  }

  lemma NothingLookedUp(table: CsvHt, hash: string -> nat, raw: seq<Line>)
    requires table.Valid() && table.hash == hash && table.Value() == Empty(|raw|)
    ensures TableAt(table, hash, raw, 0)
  {}

  lemma NoRecords(ls: seq<Line>, ht: map<string, LineInfo>)
    ensures RecordsOf(ls, 0, ht, [])
  {}

  lemma NothingFound(ls: seq<Line>, filter: Option<string>)
    ensures filter.Some? ==> FindKey(ls, 0, filter.value) == None
  {}

  // ------------------------------------------------------------------ second loop

  // How far the children of key k are filled in after the first i rows.
  ghost predicate Filled(ls: seq<Line>, i: nat, ht: map<string, LineInfo>, infos: seq<LineInfo>, k: string)
    requires i <= |ls| == |infos| && k in ht
    reads {ht[k]}`children, {ht[k]}`nchildren, ht[k].children
  {
    var o, ks := ht[k], Kids(ls, i, k);
    if ks == [] then o.children == null && o.nchildren == |Kids(ls, |ls|, k)|
    else
      && o.children != null
      && o.children.Length == |Kids(ls, |ls|, k)|
      && o.nchildren == |ks| <= o.children.Length
      && forall t :: 0 <= t < |ks| ==> o.children[t] == infos[ks[t]]
  }

  ghost predicate ArraysDistinct(ht: map<string, LineInfo>)
    reads ht.Values
  {
    forall k, l :: k in ht && l in ht && k != l && ht[k].children != null ==> ht[k].children != ht[l].children
  }

  lemma KidsSnoc(ls: seq<Line>, i: nat, k: string)
    requires i < |ls|
    ensures Kids(ls, i + 1, k) == Kids(ls, i, k) + if ls[i].parent == k then [i] else []
    ensures ls[i].parent == k ==> |Kids(ls, i, k)| < |Kids(ls, |ls|, k)|
  {
    KidsGrow(ls, i + 1, |ls|, k);
  }

  // The loop body of the second pass (lines 413-423).
  method FillRow(ghost ls: seq<Line>, i: nat, ghost ht: map<string, LineInfo>, infos: seq<LineInfo>)
    requires i < |ls| == |infos| && Keyed(ht)
    requires forall k {:trigger Filled(ls, i, ht, infos, k)} :: k in ht ==> Filled(ls, i, ht, infos, k)
    requires ArraysDistinct(ht)
    requires ls[i].parent in ht && infos[i].parent == ht[ls[i].parent]
    modifies infos[i].parent`children, infos[i].parent`nchildren, infos[i].parent.children
    ensures forall k {:trigger Filled(ls, i + 1, ht, infos, k)} :: k in ht ==> Filled(ls, i + 1, ht, infos, k)
    ensures ArraysDistinct(ht)
    ensures infos[i].parent == ht[ls[i].parent]
    ensures ht[ls[i].parent].children != null
            && (ht[ls[i].parent].children == old(ht[ls[i].parent].children) || fresh(ht[ls[i].parent].children))
  {
    hide Kids;
    var curRow := infos[i];
    var parent := curRow.parent;
    ghost var p := ls[i].parent;
    assert Filled(ls, i, ht, infos, p);
    KidsSnoc(ls, i, p);
    if parent.children == null {
      parent.children := new LineInfo?[parent.nchildren](_ => null);
      parent.nchildren := 0;
    }
    parent.children[parent.nchildren] := curRow;
    parent.nchildren := parent.nchildren + 1;
    forall k {:trigger Filled(ls, i + 1, ht, infos, k)} | k in ht
      ensures Filled(ls, i + 1, ht, infos, k)
    {
      KidsSnoc(ls, i, k);
      if k != p {
        assert old(Filled(ls, i, ht, infos, k));
        assert ht[k] != parent;
      }
    }
  }

  // Second loop: every record gets an array of exactly its counted children.
  method FillChildren(ghost ls: seq<Line>, ghost ht: map<string, LineInfo>, infos: seq<LineInfo>,
                      ghost filter: Option<string>)
    requires Counted(ls, |ls|, ht, filter)
    requires |infos| == |ls| && forall j :: 0 <= j < |ls| ==> ls[j].key in ht && infos[j] == ht[ls[j].key]
    requires UniqueKeys(ls)
    modifies ht.Values`children, ht.Values`nchildren
    ensures forall k {:trigger Filled(ls, |ls|, ht, infos, k)} :: k in ht ==> Filled(ls, |ls|, ht, infos, k)
    ensures forall k :: k in ht && ht[k].children != null ==> fresh(ht[k].children)
  {
    hide Kids;
    forall j | 0 <= j < |ls|
      ensures infos[j].parent == ht[ls[j].parent]
    {
      FindKeyUnique(ls, |ls|, j);
      assert Linked(ls, |ls|, ht, filter, ls[j].key);
    }
    forall k {:trigger Filled(ls, 0, ht, infos, k)} | k in ht
      ensures Filled(ls, 0, ht, infos, k)
    {
      NoKidsYet(ls, k);
    }
    for i := 0 to |infos|
      invariant forall k {:trigger Filled(ls, i, ht, infos, k)} :: k in ht ==> Filled(ls, i, ht, infos, k)
      invariant ArraysDistinct(ht)
      invariant forall k :: k in ht && ht[k].children != null ==> fresh(ht[k].children)
    {
      assert infos[i] in ht.Values && ht[ls[i].parent] in ht.Values;
      FillRow(ls, i, ht, infos);
      assert forall k {:trigger Filled(ls, i + 1, ht, infos, k)} :: k in ht ==> Filled(ls, i + 1, ht, infos, k);
    }
  }

  lemma NoKidsYet(ls: seq<Line>, k: string)
    ensures Kids(ls, 0, k) == []
  {}

  // --------------------------------------------------------------- what is built

  ghost predicate NodeBuilt(ls: seq<Line>, infos: seq<LineInfo>, i: nat)
    requires i < |ls| == |infos|
    reads {infos[i]}`curIdx, {infos[i]}`nchildren, {infos[i]}`children, infos[i].children
  {
    var o, ks := infos[i], KidsOf(ls, i);
    && o.curIdx == i
    && o.nchildren == |ks|
    && (ks != [] ==>
          && o.children != null && o.children.Length == |ks|
          && forall t :: 0 <= t < |ks| ==> o.children[t] == infos[ks[t]])
  }

  ghost predicate RootKnown(ls: seq<Line>, infos: seq<LineInfo>, i: nat)
    requires i < |ls| == |infos|
    reads {infos[i]}`parent, {infos[i].parent}`parent
  {
    infos[i].parent != null && (infos[i].parent.parent == null <==> ParentRow(ls, i).None?)
  }

  ghost predicate Built(ls: seq<Line>, infos: seq<LineInfo>, f: Option<nat>)
    reads infos`curIdx, infos`nchildren, infos`children, infos`filtered,
          set i | 0 <= i < |infos| && infos[i].children != null :: infos[i].children
  {
    && |infos| == |ls|
    && (forall i, j :: 0 <= i < j < |infos| ==> infos[i] != infos[j])
    && (forall i :: 0 <= i < |ls| ==> NodeBuilt(ls, infos, i))
    && (forall i :: 0 <= i < |ls| ==> (infos[i].filtered <==> f == Some(i)))
  }

  lemma NodeIsBuilt(ls: seq<Line>, ht: map<string, LineInfo>, infos: seq<LineInfo>, filter: Option<string>, i: nat)
    requires UniqueKeys(ls) && i < |ls| == |infos|
    requires forall j :: 0 <= j < |ls| ==> ls[j].key in ht && ls[j].parent in ht && infos[j] == ht[ls[j].key]
    requires Linked(ls, |ls|, ht, filter, ls[i].key)
    requires Filled(ls, |ls|, ht, infos, ls[i].key)
    requires Linked(ls, |ls|, ht, filter, ls[i].parent)
    ensures NodeBuilt(ls, infos, i) && RootKnown(ls, infos, i)
    ensures infos[i].filtered <==> FilterRow(ls, filter) == Some(i)
  {
    hide Kids;
    FindKeyUnique(ls, |ls|, i);
  }

  // Both passes: the linked records are exactly the forest of the records.
  method Build(hash: string -> nat, raw: seq<Line>, filter: Option<string>) returns (infos: seq<LineInfo>)
    requires UniqueKeys(raw)
    ensures UniqueKeys(Relabelled(hash, raw))
    ensures Built(Relabelled(hash, raw), infos, FilterRow(raw, filter))
    ensures |infos| == |raw| && forall i :: 0 <= i < |raw| ==> RootKnown(Relabelled(hash, raw), infos, i)
    ensures forall i :: 0 <= i < |infos| ==> fresh(infos[i])
  {
    hide Kids, FindKey, Linked, Filled, NodeBuilt, RootKnown, FilterRow, RecordFilter, Relabelled;
    ghost var ht, ls, wanted := map[], Relabelled(hash, raw), RecordFilter(hash, raw, filter);
    ht, infos := LinkAndCount(hash, raw, filter);
    FillChildren(ls, ht, infos, wanted);
    forall i | 0 <= i < |ls|
      ensures NodeBuilt(ls, infos, i) && RootKnown(ls, infos, i)
      ensures infos[i].filtered <==> FilterRow(raw, filter) == Some(i)
    {
      assert Linked(ls, |ls|, ht, wanted, ls[i].key);
      assert Linked(ls, |ls|, ht, wanted, ls[i].parent);
      assert Filled(ls, |ls|, ht, infos, ls[i].key);
      NodeIsBuilt(ls, ht, infos, wanted, i);
      FilterIsRecord(hash, raw, filter, i);
    }
  }

  // ------------------------------------------------------------------- aggregate

  // The isum fields of all rows.
  ghost function Isums(infos: seq<LineInfo>): (s: seq<int>)
    reads infos`isum
    ensures |s| == |infos| && forall x :: 0 <= x < |infos| ==> s[x] == infos[x].isum
  {
    if infos == [] then [] else Isums(infos[..|infos| - 1]) + [infos[|infos| - 1].isum]
  }

  // The sums of all rows below i are in place.
  ghost predicate Summed(ls: seq<Line>, sums: seq<int>, i: nat)
    requires UniqueKeys(ls) && i < |ls| == |sums| && Leaves(ls, i)
  {
    forall x: nat :: x < |ls| && Leaves(ls, x) && Below(ls, x, i) ==> sums[x] == Sum(ls, x)
  }

  ghost predicate BelowKids(ls: seq<Line>, x: nat, i: nat, j: nat)
    requires UniqueKeys(ls) && x < |ls| && i < |ls| && Leaves(ls, i) && j <= |KidsOf(ls, i)|
  {
    exists t :: 0 <= t < j && Leaves(ls, KidsOf(ls, i)[t]) && Below(ls, x, KidsOf(ls, i)[t])
  }

  lemma PartialNext(ls: seq<Line>, i: nat, j: nat)
    requires UniqueKeys(ls) && i < |ls| && Leaves(ls, i) && j < |KidsOf(ls, i)|
    ensures Leaves(ls, KidsOf(ls, i)[j]) && Depth(ls, KidsOf(ls, i)[j]) == Depth(ls, i) + 1 <= |ls|
    ensures PartialSum(ls, i, j + 1) == PartialSum(ls, i, j) + Sum(ls, KidsOf(ls, i)[j])
  {
    hide Sum, Leaves, UniqueKeys, Kids;
    KidDepth(ls, i, j);
    KidsLeave(ls, i);
    assert KidsOf(ls, i)[..j + 1][..j] == KidsOf(ls, i)[..j];
  }

  lemma PartialEnds(ls: seq<Line>, i: nat)
    requires UniqueKeys(ls) && i < |ls| && Leaves(ls, i)
    ensures PartialSum(ls, i, 0) == Val(ls, i)
    ensures PartialSum(ls, i, |KidsOf(ls, i)|) == Sum(ls, i)
  {
    KidsLeave(ls, i);
    assert KidsOf(ls, i)[..|KidsOf(ls, i)|] == KidsOf(ls, i);
  }

  lemma NotBelowKid(ls: seq<Line>, i: nat, j: nat)
    requires UniqueKeys(ls) && i < |ls| && Leaves(ls, i) && j < |KidsOf(ls, i)|
    requires Leaves(ls, KidsOf(ls, i)[j])
    ensures !Below(ls, i, KidsOf(ls, i)[j])
  {
    KidDepth(ls, i, j);
  }

  // All rows below i are clean iff i is clean and so are all below its children.
  lemma AllCleanIff(ls: seq<Line>, i: nat)
    requires UniqueKeys(ls) && i < |ls| && Leaves(ls, i)
    ensures forall t :: 0 <= t < |KidsOf(ls, i)| ==> Leaves(ls, KidsOf(ls, i)[t])
    ensures AllClean(ls, i) <==>
            Clean(ls, i) && forall t :: 0 <= t < |KidsOf(ls, i)| ==> AllClean(ls, KidsOf(ls, i)[t])
  {
    hide Clean, Below;
    KidsLeave(ls, i);
    forall x: nat | x < |ls|
      ensures Below(ls, x, i) <==> x == i || BelowKids(ls, x, i, |KidsOf(ls, i)|)
    {
      BelowIff(ls, x, i);
    }
    if AllClean(ls, i) {
      assert Below(ls, i, i);
      forall t, x: nat | 0 <= t < |KidsOf(ls, i)| && x < |ls| && Leaves(ls, x) && Below(ls, x, KidsOf(ls, i)[t])
        ensures Clean(ls, x)
      {
        assert BelowKids(ls, x, i, |KidsOf(ls, i)|);
      }
    }
  }

  // Rows that are not below i keep their sum.
  ghost predicate OthersKept(ls: seq<Line>, before: seq<int>, after: seq<int>, i: nat)
    requires UniqueKeys(ls) && i < |ls| == |before| == |after| && Leaves(ls, i)
  {
    forall x: nat :: x < |ls| && !(Leaves(ls, x) && Below(ls, x, i)) ==> after[x] == before[x]
  }

  // The loop of `aggregate` after j children.
  ghost predicate KidsSummed(ls: seq<Line>, sums: seq<int>, i: nat, j: nat)
    requires UniqueKeys(ls) && i < |ls| == |sums| && Leaves(ls, i) && j <= |KidsOf(ls, i)|
  {
    && sums[i] == PartialSum(ls, i, j)
    && forall x: nat :: x < |ls| && Leaves(ls, x) && BelowKids(ls, x, i, j) ==> sums[x] == Sum(ls, x)
  }

  ghost predicate PrefixClean(ls: seq<Line>, i: nat, j: nat)
    requires UniqueKeys(ls) && i < |ls| && Leaves(ls, i) && j <= |KidsOf(ls, i)|
  {
    && ls[i].val.Some?
    && (forall m: nat :: m <= j ==> IsLong(PartialSum(ls, i, m)))
    && (forall t :: 0 <= t < j ==> Leaves(ls, KidsOf(ls, i)[t]) && AllClean(ls, KidsOf(ls, i)[t]))
  }

  lemma StartSummed(ls: seq<Line>, sums: seq<int>, i: nat)
    requires UniqueKeys(ls) && ValuesInRange(ls) && i < |ls| == |sums| && Leaves(ls, i)
    requires ls[i].val.Some? && sums[i] == ls[i].val.value
    ensures KidsSummed(ls, sums, i, 0) && PrefixClean(ls, i, 0)
  {
    PartialEnds(ls, i);
  }

  lemma EndSummed(ls: seq<Line>, sums: seq<int>, i: nat)
    requires UniqueKeys(ls) && i < |ls| == |sums| && Leaves(ls, i)
    requires KidsSummed(ls, sums, i, |KidsOf(ls, i)|) && PrefixClean(ls, i, |KidsOf(ls, i)|)
    ensures Summed(ls, sums, i) && AllClean(ls, i)
  {
    hide Below, Sum, AllClean, KidsOf;
    PartialEnds(ls, i);
    AllCleanIff(ls, i);
    forall x: nat | x < |ls| && Leaves(ls, x) && Below(ls, x, i)
      ensures sums[x] == Sum(ls, x)
    {
      BelowIff(ls, x, i);
    }
  }

  // A dirty child or an overflowing partial sum makes the row dirty.
  lemma DirtyChild(ls: seq<Line>, i: nat, j: nat)
    requires UniqueKeys(ls) && i < |ls| && Leaves(ls, i) && j < |KidsOf(ls, i)| && Leaves(ls, KidsOf(ls, i)[j])
    requires !AllClean(ls, KidsOf(ls, i)[j]) || !IsLong(PartialSum(ls, i, j) + Sum(ls, KidsOf(ls, i)[j]))
    ensures !AllClean(ls, i)
  {
    AllCleanIff(ls, i);
    PartialNext(ls, i, j);
  }

  lemma DirtyValue(ls: seq<Line>, i: nat)
    requires UniqueKeys(ls) && i < |ls| && Leaves(ls, i) && ls[i].val.None?
    ensures !AllClean(ls, i)
  {
    AllCleanIff(ls, i);
  }

  // A child is done: its own rows are summed, the others were not touched.
  lemma ChildSummed(ls: seq<Line>, before: seq<int>, after: seq<int>, i: nat, j: nat)
    requires UniqueKeys(ls) && i < |ls| == |before| == |after| && Leaves(ls, i) && j < |KidsOf(ls, i)|
    requires Leaves(ls, KidsOf(ls, i)[j])
    requires KidsSummed(ls, before, i, j) && PrefixClean(ls, i, j)
    requires Summed(ls, after, KidsOf(ls, i)[j]) && OthersKept(ls, before, after, KidsOf(ls, i)[j])
    requires AllClean(ls, KidsOf(ls, i)[j])
    ensures after[i] == before[i] == PartialSum(ls, i, j)
    ensures after[KidsOf(ls, i)[j]] == Sum(ls, KidsOf(ls, i)[j])
    ensures PartialSum(ls, i, j + 1) == after[i] + after[KidsOf(ls, i)[j]]
    ensures IsLong(after[i] + after[KidsOf(ls, i)[j]]) ==>
              && PrefixClean(ls, i, j + 1)
              && KidsSummed(ls, after[i := after[i] + after[KidsOf(ls, i)[j]]], i, j + 1)
  {
    hide Below, Sum, PartialSum, KidsOf, AllClean;
    var k := KidsOf(ls, i)[j];
    PartialNext(ls, i, j);
    BelowSelf(ls, k);
    forall t | 0 <= t < |KidsOf(ls, i)| && Leaves(ls, KidsOf(ls, i)[t])
      ensures !Below(ls, i, KidsOf(ls, i)[t])
    {
      NotBelowKid(ls, i, t);
    }
    forall x: nat | x < |ls| && Leaves(ls, x) && BelowKids(ls, x, i, j + 1)
      ensures x != i && after[x] == Sum(ls, x)
    {
      if !Below(ls, x, k) {
        assert BelowKids(ls, x, i, j);
      }
    }
  }

  // What only touches rows below a child only touches rows below the row.
  lemma KidsBelow(ls: seq<Line>, before: seq<int>, after: seq<int>, i: nat, j: nat)
    requires UniqueKeys(ls) && i < |ls| == |before| == |after| && Leaves(ls, i) && j < |KidsOf(ls, i)|
    requires Leaves(ls, KidsOf(ls, i)[j]) && OthersKept(ls, before, after, KidsOf(ls, i)[j])
    ensures OthersKept(ls, before, after, i)
  {
    hide Below, KidsOf;
    forall x: nat | x < |ls| && !(Leaves(ls, x) && Below(ls, x, i))
      ensures after[x] == before[x]
    {
      BelowIff(ls, x, i);
    }
  }

  lemma KeptTwice(ls: seq<Line>, a: seq<int>, b: seq<int>, c: seq<int>, i: nat)
    requires UniqueKeys(ls) && i < |ls| == |a| == |b| == |c| && Leaves(ls, i)
    requires OthersKept(ls, a, b, i) && OthersKept(ls, b, c, i)
    ensures OthersKept(ls, a, c, i)
  {}

  lemma OwnKept(ls: seq<Line>, sums: seq<int>, i: nat, v: int)
    requires UniqueKeys(ls) && i < |ls| == |sums| && Leaves(ls, i)
    ensures OthersKept(ls, sums, sums, i) && OthersKept(ls, sums, sums[i := v], i)
  {
    BelowSelf(ls, i);
  }

  lemma BuiltNode(ls: seq<Line>, infos: seq<LineInfo>, f: Option<nat>, i: nat)
    requires Built(ls, infos, f) && i < |ls|
    ensures |infos| == |ls| && infos[i].curIdx == i && infos[i].nchildren == |KidsOf(ls, i)|
    ensures infos[i].filtered <==> f == Some(i)
  {
    assert NodeBuilt(ls, infos, i);
  }

  lemma BuiltChild(ls: seq<Line>, infos: seq<LineInfo>, f: Option<nat>, i: nat, j: nat)
    requires Built(ls, infos, f) && i < |ls| && j < |KidsOf(ls, i)|
    ensures |infos| == |ls| && infos[i].children != null && j < infos[i].children.Length
    ensures infos[i].children[j] == infos[KidsOf(ls, i)[j]]
  {
    assert NodeBuilt(ls, infos, i);
  }

  method SetSum(ghost ls: seq<Line>, ghost infos: seq<LineInfo>, ghost f: Option<nat>, o: LineInfo, v: int,
                ghost i: nat)
    requires Built(ls, infos, f) && i < |infos| && o == infos[i]
    modifies o`isum
    ensures Isums(infos) == old(Isums(infos))[i := v]
  {
    o.isum := v;
  }

  // The numbers in the column that is summed.
  function Values(ls: seq<Line>): (vals: seq<Option<int>>)
    ensures |vals| == |ls|
  {
    seq(|ls|, i requires 0 <= i < |ls| => ls[i].val)
  }

  lemma ValueOfRow(ls: seq<Line>, i: nat)
    requires i < |ls|
    ensures Values(ls)[i] == ls[i].val
  {}

  // The integer branch of `aggregate`; false stands for its exit(1).
  method Aggregate(ghost ls: seq<Line>, vals: seq<Option<int>>, infos: seq<LineInfo>, curRow: LineInfo,
                   ghost i: nat, ghost f: Option<nat>)
    returns (ok: bool)
    requires vals == Values(ls)
    requires UniqueKeys(ls) && ValuesInRange(ls) && Built(ls, infos, f)
    requires i < |ls| == |infos| && Leaves(ls, i) && curRow == infos[i]
    modifies infos`isum
    ensures ok <==> AllClean(ls, i)
    ensures ok ==> Summed(ls, Isums(infos), i)
    ensures OthersKept(ls, old(Isums(infos)), Isums(infos), i)
    decreases |ls| - Depth(ls, i)
  {
    hide Below, Sum, AllClean, KidsOf, PartialSum, Depth, KidsSummed, PrefixClean, OthersKept, Summed, Built, Isums,
         Leaves, UniqueKeys, ValuesInRange, Values, LeavesIn, ParentRow, Kids;
    ValueOfRow(ls, i);
    ghost var start := Isums(infos);
    OwnKept(ls, start, i, Val(ls, i));
    BuiltNode(ls, infos, f, i);
    ghost var ks := KidsOf(ls, i);
    var val := vals[curRow.curIdx];
    if val.None? {
      DirtyValue(ls, i);
      return false;
    }
    SetSum(ls, infos, f, curRow, val.value, i);
    StartSummed(ls, Isums(infos), i);
    var j := 0;
    while j < curRow.nchildren
      invariant j <= |ks| && curRow.nchildren == |ks|
      invariant KidsSummed(ls, Isums(infos), i, j) && PrefixClean(ls, i, j)
      invariant OthersKept(ls, start, Isums(infos), i)
    {
      PartialNext(ls, i, j);
      BuiltChild(ls, infos, f, i, j);
      var child := curRow.children[j];
      ghost var before := Isums(infos);
      var childOk := Aggregate(ls, vals, infos, child, ks[j], f);
      ghost var after := Isums(infos);
      KidsBelow(ls, before, after, i, j);
      KeptTwice(ls, start, before, after, i);
      if !childOk {
        DirtyChild(ls, i, j);
        return false;
      }
      ChildSummed(ls, before, after, i, j);
      assert child.isum == after[ks[j]] && curRow.isum == after[i];
      if child.isum > 0 && curRow.isum > LLONG_MAX - child.isum {
        // integer overflow
        DirtyChild(ls, i, j);
        return false;
      }
      if child.isum < 0 && curRow.isum < LLONG_MIN - child.isum {
        // integer underflow
        DirtyChild(ls, i, j);
        return false;
      }
      PrefixInRange(ls, after, i, j);
      OwnKept(ls, after, i, curRow.isum + child.isum);
      KeptTwice(ls, start, after, after[i := curRow.isum + child.isum], i);
      SetSum(ls, infos, f, curRow, curRow.isum + child.isum, i);
      j := j + 1;
    }
    EndSummed(ls, Isums(infos), i);
    return true;
  }

  lemma PrefixInRange(ls: seq<Line>, sums: seq<int>, i: nat, j: nat)
    requires UniqueKeys(ls) && i < |ls| == |sums| && Leaves(ls, i) && j <= |KidsOf(ls, i)|
    requires PrefixClean(ls, i, j) && sums[i] == PartialSum(ls, i, j)
    ensures IsLong(sums[i])
  {}

  // --------------------------------------------------------------------- process

  // A printed row: its number, its level and the sum printed with it.
  datatype Entry = Entry(visit: Visit, isum: int)

  function Visits(out: seq<Entry>): (r: seq<Visit>)
    ensures |r| == |out|
  {
    seq(|out|, p requires 0 <= p < |out| => out[p].visit)
  }

  // Every printed sum is the one in the row's record.
  ghost predicate SumsFrom(sums: seq<int>, out: seq<Entry>) {
    forall p :: 0 <= p < |out| ==> out[p].visit.row < |sums| && out[p].isum == sums[out[p].visit.row]
  }

  lemma VisitsConcat(sums: seq<int>, a: seq<Entry>, b: seq<Entry>)
    ensures Visits(a + b) == Visits(a) + Visits(b)
    ensures SumsFrom(sums, a) && SumsFrom(sums, b) ==> SumsFrom(sums, a + b)
  {}

  // The walk of row i with its first j children only.
  ghost function WalkPart(ls: seq<Line>, i: nat, lvl: nat, on: bool, f: Option<nat>, j: nat): seq<Visit>
    requires UniqueKeys(ls) && i < |ls| && Leaves(ls, i) && j <= |KidsOf(ls, i)|
  {
    KidsLeave(ls, i);
    var p := on || f == Some(i);
    (if p then [Visit(i, lvl)] else [])
    + WalkAll(ls, KidsOf(ls, i)[..j], Depth(ls, i) + 1, if p then lvl + 1 else lvl, p, f)
  }

  lemma WalkPartEnds(ls: seq<Line>, i: nat, lvl: nat, on: bool, f: Option<nat>)
    requires UniqueKeys(ls) && i < |ls| && Leaves(ls, i)
    ensures WalkPart(ls, i, lvl, on, f, 0) == if on || f == Some(i) then [Visit(i, lvl)] else []
    ensures WalkPart(ls, i, lvl, on, f, |KidsOf(ls, i)|) == Walk(ls, i, lvl, on, f)
  {
    var ks := KidsOf(ls, i);
    assert ks[..0] == [] && ks[..|ks|] == ks;
    WalkUnfold(ls, i, lvl, on, f);
  }

  lemma WalkPartNext(ls: seq<Line>, i: nat, lvl: nat, on: bool, f: Option<nat>, j: nat)
    requires UniqueKeys(ls) && i < |ls| && Leaves(ls, i) && j < |KidsOf(ls, i)|
    ensures Leaves(ls, KidsOf(ls, i)[j]) && Depth(ls, KidsOf(ls, i)[j]) == Depth(ls, i) + 1 <= |ls|
    ensures var p := on || f == Some(i);
            WalkPart(ls, i, lvl, on, f, j + 1) ==
            WalkPart(ls, i, lvl, on, f, j) + Walk(ls, KidsOf(ls, i)[j], if p then lvl + 1 else lvl, p, f)
  {
    hide Walk, Leaves, UniqueKeys, Kids;
    KidDepth(ls, i, j);
    var ks := KidsOf(ls, i);
    assert ks[..j + 1][..j] == ks[..j];
  }

  // `process`: print the row if printing is on, then its children in order.
  method Process(ghost ls: seq<Line>, ghost infos: seq<LineInfo>, curRow: LineInfo, lvl: nat, filterSet: bool,
                 print0: bool, ghost i: nat, ghost f: Option<nat>)
    returns (out: seq<Entry>)
    requires UniqueKeys(ls) && Built(ls, infos, f)
    requires i < |ls| == |infos| && Leaves(ls, i) && curRow == infos[i]
    requires !filterSet ==> print0
    ensures Visits(out) == Walk(ls, i, lvl, print0, f)
    ensures SumsFrom(Isums(infos), out)
    decreases |ls| - Depth(ls, i)
  {
    hide Walk, WalkPart, KidsOf, Depth, Built, Isums, Visits, Leaves, UniqueKeys, SumsFrom;
    WalkPartEnds(ls, i, lvl, print0, f);
    BuiltNode(ls, infos, f, i);
    ghost var ks := KidsOf(ls, i);
    var shown := print0;
    if filterSet && !shown {
      shown := curRow.filtered;
    }
    OwnEntry(Isums(infos), shown, i, lvl, curRow.isum);
    out := if shown then [Entry(Visit(curRow.curIdx, lvl), curRow.isum)] else [];
    var j := 0;
    while j < curRow.nchildren
      invariant j <= |ks|
      invariant Visits(out) == WalkPart(ls, i, lvl, print0, f, j)
      invariant SumsFrom(Isums(infos), out)
    {
      WalkPartNext(ls, i, lvl, print0, f, j);
      BuiltChild(ls, infos, f, i, j);
      var sub := Process(ls, infos, curRow.children[j], if shown then lvl + 1 else lvl, filterSet, shown, ks[j], f);
      VisitsConcat(Isums(infos), out, sub);
      out := out + sub;
      j := j + 1;
    }
  }

  lemma OwnEntry(sums: seq<int>, shown: bool, i: nat, lvl: nat, isum: int)
    requires i < |sums| && sums[i] == isum
    ensures var out := if shown then [Entry(Visit(i, lvl), isum)] else [];
            && Visits(out) == (if shown then [Visit(i, lvl)] else [])
            && SumsFrom(sums, out)
  {}

  // ------------------------------------------------------------- the print loop

  ghost predicate RootsClean(ls: seq<Line>, n: nat)
    requires UniqueKeys(ls) && n <= |ls|
  {
    forall r: nat :: r < n && ParentRow(ls, r).None? ==> Leaves(ls, r) && AllClean(ls, r)
  }

  // The entries of a finished root carry the exact sums.
  ghost predicate SumsExact(ls: seq<Line>, out: seq<Entry>)
    requires UniqueKeys(ls)
  {
    forall p :: 0 <= p < |out| ==>
      out[p].visit.row < |ls| && Leaves(ls, out[p].visit.row) && out[p].isum == Sum(ls, out[p].visit.row)
  }

  ghost function ForestPrefix(ls: seq<Line>, n: nat, filtered: bool, f: Option<nat>): seq<Visit>
    requires UniqueKeys(ls) && n <= |ls|
  {
    RootsLeave(ls, n);
    WalkAll(ls, Roots(ls, n), 1, 0, !filtered, f)
  }

  lemma ForestPrefixNext(ls: seq<Line>, n: nat, filtered: bool, f: Option<nat>)
    requires UniqueKeys(ls) && n < |ls|
    ensures ParentRow(ls, n).Some? ==> ForestPrefix(ls, n + 1, filtered, f) == ForestPrefix(ls, n, filtered, f)
    ensures ParentRow(ls, n).None? ==>
              && Leaves(ls, n)
              && ForestPrefix(ls, n + 1, filtered, f) == ForestPrefix(ls, n, filtered, f) + Walk(ls, n, 0, !filtered, f)
  {
    RootsLeave(ls, n);
    RootsLeave(ls, n + 1);
    if ParentRow(ls, n).Some? {
      assert Roots(ls, n + 1) == Roots(ls, n);
    } else {
      RootDepth(ls, n);
      var rs := Roots(ls, n + 1);
      assert rs[..|rs| - 1] == Roots(ls, n);
    }
  }

  // What the walk of a summed root prints is exact.
  lemma RootExact(ls: seq<Line>, sums: seq<int>, out: seq<Entry>, i: nat, on: bool, f: Option<nat>)
    requires UniqueKeys(ls) && i < |ls| == |sums| && Leaves(ls, i) && Summed(ls, sums, i)
    requires SumsFrom(sums, out) && Visits(out) == Walk(ls, i, 0, on, f)
    ensures SumsExact(ls, out)
  {
    hide Walk, Below, Sum;
    forall p | 0 <= p < |out|
      ensures out[p].visit.row < |ls| && Leaves(ls, out[p].visit.row) && out[p].isum == Sum(ls, out[p].visit.row)
    {
      assert Visits(out)[p] == out[p].visit;
      WalkBelow(ls, i, 0, on, f, p);
    }
  }

  lemma ExactConcat(ls: seq<Line>, a: seq<Entry>, b: seq<Entry>)
    requires UniqueKeys(ls) && SumsExact(ls, a) && SumsExact(ls, b)
    ensures SumsExact(ls, a + b)
  {}

  // The last loop of main (lines 456-469): for every root aggregate, then
  // process.  false stands for the exit in `aggregate`; what was printed for the
  // roots before stays printed.
  method PrintForest(ghost ls: seq<Line>, vals: seq<Option<int>>, infos: seq<LineInfo>, sum: bool, filterSet: bool,
                     ghost f: Option<nat>)
    returns (ok: bool, out: seq<Entry>)
    requires vals == Values(ls)
    requires UniqueKeys(ls) && ValuesInRange(ls) && Built(ls, infos, f) && |infos| == |ls|
    requires forall i :: 0 <= i < |ls| ==> RootKnown(ls, infos, i)
    modifies infos`isum
    ensures ok <==> (sum ==> RootsClean(ls, |ls|))
    ensures ok ==> Visits(out) == Forest(ls, filterSet, f)
    ensures !ok ==> exists n: nat :: n <= |ls| && Visits(out) == ForestPrefix(ls, n, filterSet, f)
    ensures sum ==> SumsExact(ls, out)
  {
    hide Walk, WalkAll, Below, Sum, AllClean, Roots, ParentRow, Summed, Built, Isums, Visits, SumsExact,
         ForestPrefix, Forest, OthersKept;
    out := [];
    NoForest(ls, filterSet, f);
    for i := 0 to |infos|
      invariant Visits(out) == ForestPrefix(ls, i, filterSet, f)
      invariant sum ==> RootsClean(ls, i) && SumsExact(ls, out)
    {
      var curRow := infos[i];
      assert RootKnown(ls, infos, i);
      ForestPrefixNext(ls, i, filterSet, f);
      if curRow.parent.parent == null {
        if sum {
          var aggregated := Aggregate(ls, vals, infos, curRow, i, f);
          if !aggregated {
            return false, out;
          }
        }
        var tree := Process(ls, infos, curRow, 0, filterSet, !filterSet, i, f);
        if sum {
          RootExact(ls, Isums(infos), tree, i, !filterSet, f);
          ExactConcat(ls, out, tree);
        }
        VisitsConcat(Isums(infos), out, tree);
        out := out + tree;
      }
    }
    ok := true;
  }

  lemma NoForest(ls: seq<Line>, filtered: bool, f: Option<nat>)
    requires UniqueKeys(ls)
    ensures ForestPrefix(ls, 0, filtered, f) == []
    ensures ForestPrefix(ls, |ls|, filtered, f) == Forest(ls, filtered, f)
    ensures Visits([]) == [] && SumsExact(ls, [])
  {}

  // What a run of csv-tree over the rows must have printed: without a filter
  // every row whose parent chain leaves the rows, with one only the walk of the
  // matching row; with sums, exact ones, unless a partial sum is out of range.
  ghost predicate Prints(ls: seq<Line>, sum: bool, filtered: bool, f: Option<nat>, ok: bool, out: seq<Entry>)
    requires UniqueKeys(ls)
  {
    && (ok <==> (sum ==> RootsClean(ls, |ls|)))
    && (ok ==> Visits(out) == Forest(ls, filtered, f))
    && (sum ==> SumsExact(ls, out))
  }

  lemma SamePrints(ls: seq<Line>, ms: seq<Line>, sum: bool, filtered: bool, f: Option<nat>, ok: bool, out: seq<Entry>)
    requires SameLinks(ls, ms) && Prints(ms, sum, filtered, f, ok, out)
    ensures Prints(ls, sum, filtered, f, ok, out)
  {
    hide Forest, Sum, AllClean, Leaves;
    SameForest(ls, ms, filtered, f);
    forall r: nat | r < |ls|
      ensures Leaves(ls, r) <==> Leaves(ms, r)
      ensures Leaves(ls, r) ==> (AllClean(ls, r) <==> AllClean(ms, r)) && Sum(ls, r) == Sum(ms, r)
    {
      SameDepth(ls, ms, r);
      if Leaves(ls, r) {
        SameAllClean(ls, ms, r);
        SameSum(ls, ms, r);
      }
    }
  }

  // csv-tree from its rows to its output: for every hash it prints what it must
  // for the rows with their records as keys, and so for the rows themselves if
  // no parent is asked for while the table has lost it.
  method CsvTree(hash: string -> nat, raw: seq<Line>, sum: bool, filter: Option<string>)
    returns (ok: bool, out: seq<Entry>)
    requires UniqueKeys(raw) && ValuesInRange(raw)
    ensures UniqueKeys(Relabelled(hash, raw))
    ensures Prints(Relabelled(hash, raw), sum, filter.Some?, FilterRow(raw, filter), ok, out)
    ensures NoParentLost(hash, raw) ==> Prints(raw, sum, filter.Some?, FilterRow(raw, filter), ok, out)
  {
    hide Forest, RootsClean, SumsExact, FilterRow, NoParentLost, Record, RecordName, Built;
    ghost var ls := Relabelled(hash, raw);
    var infos := Build(hash, raw, filter);
    assert Values(ls) == Values(raw);
    ok, out := PrintForest(ls, Values(raw), infos, sum, filter.Some?, FilterRow(raw, filter));
    LinksExact(hash, raw);
    if NoParentLost(hash, raw) {
      SamePrints(raw, ls, sum, filter.Some?, FilterRow(raw, filter), ok, out);
    }
  }
}
