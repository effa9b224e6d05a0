// The chained hash table of src/ht.c: a memo table for an expensive callback.
// A chain's head lives inside the bucket array and every later entry is linked
// right behind that head, so a chain is modelled as one sequence.

module HashTable {
  import opened Wrappers

  type Pointer = int

  datatype Kv = Kv(key: string, value: Pointer)

  datatype Table = Table(size: nat, used: nat, collisions: nat, kvs: seq<seq<Kv>>)

  ghost predicate Shaped(t: Table) {
    t.size > 0 && |t.kvs| == t.size
  }

  // ---------------------------------------------------------------- operations

  function Link(chain: seq<Kv>, kv: Kv): seq<Kv> {
    if chain == [] then [kv] else [chain[0], kv] + chain[1..]
  }

  function Linkin(t: Table, h: nat, kv: Kv): Table
    requires h < |t.kvs|
  {
    Table(t.size, t.used + 1, t.collisions + (if t.kvs[h] == [] then 0 else 1), t.kvs[h := Link(t.kvs[h], kv)])
  }

  function Slot(hash: string -> nat, size: nat, key: string): (h: nat)
    requires size > 0
    ensures h < size
  {
    hash(key) % size
  }

  function Insert(hash: string -> nat, t: Table, kv: Kv): (r: Table)
    requires t.size > 0 && |t.kvs| == t.size
  {
    Linkin(t, Slot(hash, t.size, kv.key), kv)
  }

  function InsertAll(hash: string -> nat, t: Table, entries: seq<Kv>): (r: Table)
    requires t.size > 0 && |t.kvs| == t.size
    ensures r.size == t.size && |r.kvs| == r.size
  {
    if entries == [] then t
    else Insert(hash, InsertAll(hash, t, entries[..|entries| - 1]), entries[|entries| - 1])
  }

  // All entries, bucket after bucket, each chain from its head.
  function Entries(kvs: seq<seq<Kv>>): seq<Kv> {
    if kvs == [] then [] else Entries(kvs[..|kvs| - 1]) + kvs[|kvs| - 1]
  }

  function Emptied(t: Table): Table {
    Table(2 * t.size, t.used, 0, seq(2 * t.size, i => []))
  }

  function Resize(hash: string -> nat, t: Table): (r: Table)
    requires t.size > 0 && |t.kvs| == t.size
  {
    InsertAll(hash, Emptied(t), Entries(t.kvs))
  }

  // More than a fifth of the buckets' worth of chained entries, and more than a hundredth of entries.
  predicate Overloaded(t: Table) {
    5 * t.collisions > t.size && 100 * t.used > t.size
  }

  function Find(chain: seq<Kv>, key: string): Option<Pointer> {
    if chain == [] then None
    else if chain[0].key == key then Some(chain[0].value)
    else Find(chain[1..], key)
  }

  function Lookup(hash: string -> nat, t: Table, key: string): Option<Pointer>
    requires t.size > 0 && |t.kvs| == t.size
  {
    Find(t.kvs[Slot(hash, t.size, key)], key)
  }

  // The table in which a miss leaves its new entry.
  function Room(hash: string -> nat, t: Table): (r: Table)
    requires t.size > 0 && |t.kvs| == t.size
    ensures |r.kvs| == r.size >= t.size
  {
    if Overloaded(t) then Resize(hash, t) else t
  }

  // The table after csv_ht_get_value: on a miss the new entry goes to the
  // bucket computed before the resize.
  function After(hash: string -> nat, t: Table, key: string, v: Pointer): (r: Table)
    requires t.size > 0 && |t.kvs| == t.size
    ensures r.size >= t.size && |r.kvs| == r.size
  {
    if Lookup(hash, t, key).Some? then t
    else Linkin(Room(hash, t), Slot(hash, t.size, key), Kv(key, v))
  }

  function Answer(hash: string -> nat, t: Table, key: string, v: Pointer): Pointer
    requires t.size > 0 && |t.kvs| == t.size
  {
    match Lookup(hash, t, key)
    case Some(stored) => stored
    case None => v
  }

  // ---------------------------------------------------------------- what a good table is

  ghost function Bag(t: Table): multiset<Kv> {
    multiset(Entries(t.kvs))
  }

  ghost predicate Placed(hash: string -> nat, t: Table) {
    t.size > 0 && |t.kvs| == t.size &&
    forall i, kv :: 0 <= i < |t.kvs| && kv in t.kvs[i] ==> Slot(hash, t.size, kv.key) == i
  }

  ghost predicate DistinctKeys(bag: multiset<Kv>) {
    forall a, b :: a in bag && b in bag && a.key == b.key ==> a == b && bag[a] == 1
  }

  function Chained(kvs: seq<seq<Kv>>): nat {
    if kvs == [] then 0
    else
      Chained(kvs[..|kvs| - 1]) + (if kvs[|kvs| - 1] == [] then 0 else |kvs[|kvs| - 1]| - 1)
  }

  ghost predicate Good(hash: string -> nat, t: Table) {
    Placed(hash, t) && DistinctKeys(Bag(t)) && t.collisions == Chained(t.kvs)
  }

  ghost predicate HasKey(bag: multiset<Kv>, key: string) {
    exists kv :: kv in bag && kv.key == key
  }

  // ---------------------------------------------------------------- one insertion

  lemma {:induction false} BagUpdate(kvs: seq<seq<Kv>>, h: nat, kv: Kv)
    requires h < |kvs|
    ensures multiset(Entries(kvs[h := Link(kvs[h], kv)])) == multiset(Entries(kvs)) + multiset{kv}
    decreases |kvs|
  {
    hide Link;
    var n := |kvs| - 1;
    var after := kvs[h := Link(kvs[h], kv)];
    LinkBag(kvs[h], kv);
    if h == n {
      assert after[..n] == kvs[..n];
    } else {
      assert after[..n] == kvs[..n][h := Link(kvs[h], kv)];
      BagUpdate(kvs[..n], h, kv);
    }
  }

  lemma {:induction false} ChainedUpdate(kvs: seq<seq<Kv>>, h: nat, kv: Kv)
    requires h < |kvs|
    ensures Chained(kvs[h := Link(kvs[h], kv)]) == Chained(kvs) + (if kvs[h] == [] then 0 else 1)
    decreases |kvs|
  {
    var n := |kvs| - 1;
    var after := kvs[h := Link(kvs[h], kv)];
    if h == n {
      assert after[..n] == kvs[..n];
    } else {
      assert after[..n] == kvs[..n][h := Link(kvs[h], kv)];
      ChainedUpdate(kvs[..n], h, kv);
    }
  }

  lemma EntriesUpdate(kvs: seq<seq<Kv>>, h: nat, kv: Kv)
    requires h < |kvs|
    ensures multiset(Entries(kvs[h := Link(kvs[h], kv)])) == multiset(Entries(kvs)) + multiset{kv}
    ensures Chained(kvs[h := Link(kvs[h], kv)]) == Chained(kvs) + (if kvs[h] == [] then 0 else 1)
  {
    hide Link, Entries, Chained;
    BagUpdate(kvs, h, kv);
    ChainedUpdate(kvs, h, kv);
  }

  lemma LinkBag(chain: seq<Kv>, kv: Kv)
    ensures multiset(Link(chain, kv)) == multiset(chain) + multiset{kv}
  {
    if chain != [] {
      assert chain == [chain[0]] + chain[1..];
      assert Link(chain, kv) == [chain[0]] + [kv] + chain[1..];
    }
  }

  lemma LinkMembers(chain: seq<Kv>, kv: Kv, x: Kv)
    ensures x in Link(chain, kv) <==> x == kv || x in chain
  {
    LinkBag(chain, kv);
    assert x in Link(chain, kv) <==> x in multiset(Link(chain, kv));
  }

  // A new entry leaves the table well placed exactly when it goes to its own bucket.
  lemma LinkinPlaced(hash: string -> nat, t: Table, h: nat, kv: Kv)
    requires Placed(hash, t) && h < |t.kvs|
    ensures Bag(Linkin(t, h, kv)) == Bag(t) + multiset{kv}
    ensures t.collisions == Chained(t.kvs) ==> Linkin(t, h, kv).collisions == Chained(Linkin(t, h, kv).kvs)
    ensures Placed(hash, Linkin(t, h, kv)) <==> Slot(hash, t.size, kv.key) == h
  {
    EntriesUpdate(t.kvs, h, kv);
    var r := Linkin(t, h, kv);
    LinkMembers(t.kvs[h], kv, kv);
    assert kv in r.kvs[h];
    forall i, x | 0 <= i < |r.kvs| && x in r.kvs[i] && Slot(hash, t.size, kv.key) == h
      ensures Slot(hash, t.size, x.key) == i
    {
      LinkMembers(t.kvs[h], kv, x);
    }
  }

  // ---------------------------------------------------------------- resizing

  lemma {:induction false} EmptyEntries(kvs: seq<seq<Kv>>)
    requires forall i :: 0 <= i < |kvs| ==> kvs[i] == []
    ensures Entries(kvs) == [] && Chained(kvs) == 0
    decreases |kvs|
  {
    if kvs != [] {
      EmptyEntries(kvs[..|kvs| - 1]);
    }
  }

  lemma {:induction false} InsertAllKeeps(hash: string -> nat, t: Table, entries: seq<Kv>)
    requires Placed(hash, t) && t.collisions == Chained(t.kvs)
    ensures var r := InsertAll(hash, t, entries);
            Placed(hash, r) && r.collisions == Chained(r.kvs) &&
            Bag(r) == Bag(t) + multiset(entries) && r.used == t.used + |entries|
    decreases |entries|
  {
    if entries != [] {
      var n := |entries| - 1;
      InsertAllKeeps(hash, t, entries[..n]);
      assert entries == entries[..n] + [entries[n]];
      var before := InsertAll(hash, t, entries[..n]);
      LinkinPlaced(hash, before, Slot(hash, t.size, entries[n].key), entries[n]);
    }
  }

  // Whatever the state of the table before, resizing doubles it, puts every
  // entry where its hash belongs, loses none, and recounts the collisions;
  // `used` goes up by the number of entries moved.
  lemma ResizeKeeps(hash: string -> nat, t: Table)
    requires Shaped(t)
    ensures var r := Resize(hash, t);
            r.size == 2 * t.size && Placed(hash, r) && Bag(r) == Bag(t) &&
            r.collisions == Chained(r.kvs) && r.used == t.used + |Entries(t.kvs)|
  {
    EmptyEntries(Emptied(t).kvs);
    InsertAllKeeps(hash, Emptied(t), Entries(t.kvs));
  }

  lemma {:induction false} InsertAllAppend(hash: string -> nat, t: Table, a: seq<Kv>, b: seq<Kv>)
    requires Shaped(t)
    ensures InsertAll(hash, InsertAll(hash, t, a), b) == InsertAll(hash, t, a + b)
    decreases |b|
  {
    if b == [] {
      assert a + b == a;
    } else {
      InsertAllAppend(hash, t, a, b[..|b| - 1]);
      assert (a + b)[..|a + b| - 1] == a + b[..|b| - 1];
    }
  }

  // ---------------------------------------------------------------- lookups

  lemma {:induction false} FindMeans(chain: seq<Kv>, key: string)
    ensures match Find(chain, key)
            case Some(v) => Kv(key, v) in chain
            case None => forall kv :: kv in chain ==> kv.key != key
  {
    if chain != [] && chain[0].key != key {
      FindMeans(chain[1..], key);
      assert chain == [chain[0]] + chain[1..];
    } else if chain != [] {
      assert chain[0] == Kv(key, chain[0].value);
    }
  }

  lemma {:induction false} EntriesMembers(kvs: seq<seq<Kv>>, kv: Kv)
    ensures kv in Entries(kvs) <==> exists i :: 0 <= i < |kvs| && kv in kvs[i]
    decreases |kvs|
  {
    if kvs != [] {
      var n := |kvs| - 1;
      EntriesMembers(kvs[..n], kv);
      if kv in Entries(kvs[..n]) {
        var i :| 0 <= i < n && kv in kvs[..n][i];
        assert kv in kvs[i];
      }
      if i :| 0 <= i < |kvs| && kv in kvs[i] {
        assert i < n ==> kvs[..n][i] == kvs[i];
      }
    }
  }

  // In a well-placed table, with or without duplicates, a lookup finds a key
  // exactly when some entry has it; with distinct keys it finds its value.
  lemma LookupMeans(hash: string -> nat, t: Table, key: string)
    requires Placed(hash, t)
    ensures Lookup(hash, t, key).Some? <==> HasKey(Bag(t), key)
    ensures Lookup(hash, t, key).Some? ==> Kv(key, Lookup(hash, t, key).value) in Bag(t)
    ensures DistinctKeys(Bag(t)) ==>
              forall v :: Kv(key, v) in Bag(t) <==> Lookup(hash, t, key) == Some(v)
  {
    var h := Slot(hash, t.size, key);
    FindMeans(t.kvs[h], key);
    if Lookup(hash, t, key).Some? {
      EntriesMembers(t.kvs, Kv(key, Lookup(hash, t, key).value));
    }
    if kv :| kv in Bag(t) && kv.key == key {
      EntriesMembers(t.kvs, kv);
      var i :| 0 <= i < |t.kvs| && kv in t.kvs[i];
      assert i == h;
    }
    forall v | Kv(key, v) in Bag(t) && DistinctKeys(Bag(t))
      ensures Lookup(hash, t, key) == Some(v)
    {
      assert HasKey(Bag(t), key);
    }
  }

  // Resizing keeps the map from keys to values.
  lemma ResizeKeepsMap(hash: string -> nat, t: Table, key: string)
    requires Good(hash, t)
    ensures Good(hash, Resize(hash, t))
    ensures Lookup(hash, Resize(hash, t), key) == Lookup(hash, t, key)
  {
    ResizeKeeps(hash, t);
    LookupMeans(hash, t, key);
    LookupMeans(hash, Resize(hash, t), key);
    var before, after := Lookup(hash, t, key), Lookup(hash, Resize(hash, t), key);
    if before.Some? {
      assert Kv(key, before.value) in Bag(t);
    }
  }

  // ---------------------------------------------------------------- csv_ht_get_value

  // The bucket computed before a resize is still the right one after it.
  predicate SlotSurvives(hash: string -> nat, t: Table, key: string)
    requires t.size > 0 && |t.kvs| == t.size
  {
    Lookup(hash, t, key).Some? || !Overloaded(t) || Slot(hash, t.size, key) == Slot(hash, 2 * t.size, key)
  }

  lemma AddDistinct(bag: multiset<Kv>, kv: Kv)
    requires DistinctKeys(bag) && !HasKey(bag, kv.key)
    ensures DistinctKeys(bag + multiset{kv})
  {
    assert kv !in bag;
  }

  // On a good table a call runs the callback exactly when the key is new and
  // adds exactly that entry; the collision count stays exact; and the table
  // stays good if and only if the call does not resize or the key's hash
  // modulo the old and the new size agree.
  lemma GetValueKeeps(hash: string -> nat, t: Table, key: string, v: Pointer)
    requires Good(hash, t)
    ensures var r := After(hash, t, key, v);
            && (HasKey(Bag(t), key) <==> Lookup(hash, t, key).Some?)
            && Bag(r) == (if HasKey(Bag(t), key) then Bag(t) else Bag(t) + multiset{Kv(key, v)})
            && DistinctKeys(Bag(r))
            && r.size == (if !HasKey(Bag(t), key) && 5 * t.collisions > t.size && 100 * t.used > t.size
                          then 2 * t.size else t.size)
            && Kv(key, Answer(hash, t, key, v)) in Bag(r)
            && r.collisions == Chained(r.kvs)
            && (Good(hash, r) <==> SlotSurvives(hash, t, key))
  {
    hide Find, Entries, Chained, InsertAll;
    LookupMeans(hash, t, key);
    if Lookup(hash, t, key).None? {
      ResizeKeeps(hash, t);
      var room := Room(hash, t);
      LinkinPlaced(hash, room, Slot(hash, t.size, key), Kv(key, v));
      AddDistinct(Bag(t), Kv(key, v));
    }
  }

  // Recomputing the bucket after the resize would keep every table good.
  lemma RecomputedSlotIsGood(hash: string -> nat, t: Table, key: string, v: Pointer)
    requires Good(hash, t) && Lookup(hash, t, key).None?
    ensures Good(hash, Insert(hash, Room(hash, t), Kv(key, v)))
  {
    hide Find, Entries, Chained, InsertAll;
    LookupMeans(hash, t, key);
    ResizeKeeps(hash, t);
    var room := Room(hash, t);
    LinkinPlaced(hash, room, Slot(hash, room.size, key), Kv(key, v));
    AddDistinct(Bag(t), Kv(key, v));
  }

  // When the bucket did move, the key just stored cannot be found again: the
  // next call with it runs the callback a second time and, unless that call
  // resizes, stores a second entry for the same key.
  lemma MisplacedKeyIsLost(hash: string -> nat, t: Table, key: string, v: Pointer, w: Pointer)
    requires Good(hash, t) && !SlotSurvives(hash, t, key)
    ensures var r := After(hash, t, key, v);
            Lookup(hash, r, key).None? && Answer(hash, r, key, w) == w &&
            !DistinctKeys(Bag(After(hash, r, key, w)))
  {
    hide Find, Entries, Chained, InsertAll;
    var r := After(hash, t, key, v);
    LookupMeans(hash, t, key);
    ResizeKeeps(hash, t);
    var room := Resize(hash, t);
    LookupMeans(hash, room, key);
    assert r.kvs[Slot(hash, r.size, key)] == room.kvs[Slot(hash, room.size, key)];
    GetValueKeeps(hash, t, key, v);
    assert Kv(key, v) in Bag(r);
    ResizeKeeps(hash, r);
    var again := Room(hash, r);
    EntriesUpdate(again.kvs, Slot(hash, r.size, key), Kv(key, w));
    assert Bag(After(hash, r, key, w)) == Bag(r) + multiset{Kv(key, w)};
    if v == w {
      assert Bag(After(hash, r, key, w))[Kv(key, v)] >= 2;
    } else {
      assert Kv(key, v) in Bag(After(hash, r, key, w)) && Kv(key, w) in Bag(After(hash, r, key, w));
    }
  }

  lemma NoneFound(chain: seq<Kv>, key: string)
    requires forall i :: 0 <= i < |chain| ==> chain[i].key != key
    ensures Find(chain, key) == None
  {
    FindMeans(chain, key);
  }

  const NEW := Table(1, 0, 0, [[]])
  const ONE := Table(1, 1, 0, [[Kv("", 1)]])
  const TWO := Table(1, 2, 1, [[Kv("", 1), Kv("zz", 2)]])

  lemma FirstInsert(hash: string -> nat)
    ensures Lookup(hash, NEW, "") == None
    ensures After(hash, NEW, "", 1) == ONE
  {
    assert Slot(hash, 1, "") == 0;
  }

  lemma SecondInsert(hash: string -> nat)
    ensures Lookup(hash, ONE, "zz") == None
    ensures After(hash, ONE, "zz", 2) == TWO
  {
    assert Slot(hash, 1, "zz") == 0;
    NoneFound(ONE.kvs[0], "zz");
    assert Link(ONE.kvs[0], Kv("zz", 2)) == TWO.kvs[0];
  }

  // A table created for one key: the third distinct key resizes it from one
  // bucket to two and, if its hash is odd, its callback then runs twice. The
  // hash of "x" that the program computes is odd (HashString.HashOfX).
  lemma CallbackRunsTwice(hash: string -> nat)
    requires hash("x") % 2 == 1
    ensures Good(hash, TWO) && !SlotSurvives(hash, TWO, "x")
    ensures After(hash, After(hash, NEW, "", 1), "zz", 2) == TWO
    ensures Answer(hash, After(hash, TWO, "x", 3), "x", 4) == 4
  {
    FirstInsert(hash);
    SecondInsert(hash);
    TwoIsGood(hash);
    NoneFound(TWO.kvs[0], "x");
    assert !SlotSurvives(hash, TWO, "x");
    hide After, Answer;
    MisplacedKeyIsLost(hash, TWO, "x", 3, 4);
  }

  lemma TwoIsGood(hash: string -> nat)
    ensures Good(hash, TWO)
  {
    EmptyEntries(NEW.kvs);
    assert Good(hash, NEW);
    FirstInsert(hash);
    SecondInsert(hash);
    NoneFound(NEW.kvs[0], "");
    assert SlotSurvives(hash, NEW, "") && SlotSurvives(hash, ONE, "zz");
    hide After, Good, SlotSurvives;
    GetValueKeeps(hash, NEW, "", 1);
    GetValueKeeps(hash, ONE, "zz", 2);
  }

  // ---------------------------------------------------------------- whole runs

  // A call together with the value its callback would produce.
  datatype Call = Call(key: string, value: Pointer)

  function Run(hash: string -> nat, t: Table, calls: seq<Call>): (r: Table)
    requires t.size > 0 && |t.kvs| == t.size
    ensures r.size > 0 && |r.kvs| == r.size
  {
    if calls == [] then t
    else
      var before := Run(hash, t, calls[..|calls| - 1]);
      After(hash, before, calls[|calls| - 1].key, calls[|calls| - 1].value)
  }

  // No call of the run resizes the table and moves its own bucket.
  ghost predicate Sound(hash: string -> nat, t: Table, calls: seq<Call>)
    requires t.size > 0 && |t.kvs| == t.size
  {
    calls == [] ||
    (Sound(hash, t, calls[..|calls| - 1]) &&
     SlotSurvives(hash, Run(hash, t, calls[..|calls| - 1]), calls[|calls| - 1].key))
  }

  // The value of the first call with a key: what a memoised callback returns.
  function FirstValue(calls: seq<Call>, key: string): Option<Pointer> {
    if calls == [] then None
    else
      var earlier := FirstValue(calls[..|calls| - 1], key);
      if earlier.Some? then earlier
      else if calls[|calls| - 1].key == key then Some(calls[|calls| - 1].value)
      else None
  }

  function Empty(initial: nat): (t: Table)
    ensures t.size > 0 && |t.kvs| == t.size
  {
    var size := (if initial == 0 then 1 else initial) * 3 / 2;
    Table(size, 0, 0, seq(size, i => []))
  }

  // The table is good before the first call and after each one.
  ghost predicate AlwaysGood(hash: string -> nat, t: Table, calls: seq<Call>)
    requires t.size > 0 && |t.kvs| == t.size
  {
    Good(hash, Run(hash, t, calls)) && (calls == [] || AlwaysGood(hash, t, calls[..|calls| - 1]))
  }

  // Every table of the run is good exactly when the run is sound.
  lemma {:induction false} RunGood(hash: string -> nat, initial: nat, calls: seq<Call>)
    ensures Sound(hash, Empty(initial), calls) <==> AlwaysGood(hash, Empty(initial), calls)
    decreases |calls|
  {
    hide Good, Empty, After, SlotSurvives;
    if calls == [] {
      EmptyTableGood(hash, initial);
    } else {
      var last := |calls| - 1;
      RunGood(hash, initial, calls[..last]);
      var before := Run(hash, Empty(initial), calls[..last]);
      if Good(hash, before) {
        GetValueKeeps(hash, before, calls[last].key, calls[last].value);
      }
    }
  }

  lemma EmptyTableGood(hash: string -> nat, initial: nat)
    ensures Good(hash, Empty(initial)) && Bag(Empty(initial)) == multiset{}
  {
    EmptyEntries(Empty(initial).kvs);
  }

  // The memo contract over every sound run from a new table: a key is in the
  // table exactly when some call had it, with the value the first such call's
  // callback produced, and there is one entry per key, so one callback per key.
  lemma {:induction false} RunMemoises(hash: string -> nat, initial: nat, calls: seq<Call>, key: string)
    requires Sound(hash, Empty(initial), calls)
    ensures Good(hash, Run(hash, Empty(initial), calls))
    ensures Lookup(hash, Run(hash, Empty(initial), calls), key) == FirstValue(calls, key)
    decreases |calls|
  {
    hide Entries, Chained, Find, InsertAll, Slot;
    var t := Empty(initial);
    EmptyTableGood(hash, initial);
    LookupMeans(hash, t, key);
    if calls != [] {
      var call := calls[|calls| - 1];
      RunMemoises(hash, initial, calls[..|calls| - 1], key);
      var before := Run(hash, t, calls[..|calls| - 1]);
      var after := After(hash, before, call.key, call.value);
      GetValueKeeps(hash, before, call.key, call.value);
      LookupMeans(hash, before, key);
      LookupMeans(hash, after, key);
      if Lookup(hash, before, key).Some? {
        assert Kv(key, Lookup(hash, before, key).value) in Bag(after);
      } else if call.key == key {
        assert Kv(key, call.value) in Bag(after);
      }
    }
  }

  // So in a sound run every call answers with the first call's value for its key.
  lemma RunAnswers(hash: string -> nat, initial: nat, calls: seq<Call>, call: Call)
    requires Sound(hash, Empty(initial), calls)
    ensures Some(Answer(hash, Run(hash, Empty(initial), calls), call.key, call.value)) ==
            FirstValue(calls + [call], call.key)
  {
    RunMemoises(hash, initial, calls, call.key);
    assert (calls + [call])[..|calls|] == calls;
  }
}

module HashTableInPlace {
  import opened HashTable

  class CsvHt {
    var size: nat
    var used: nat
    var collisions: nat
    var kvs: array<seq<Kv>>
    const hash: string -> nat

    predicate Valid()
      reads this
    {
      size > 0 && kvs.Length == size
    }

    function Value(): Table
      reads this, kvs
    {
      Table(size, used, collisions, kvs[..])
    }

    constructor (hash: string -> nat, initialSize: nat)
      ensures Valid() && fresh(kvs) && this.hash == hash && Value() == Empty(initialSize)
      ensures size == (if initialSize == 0 then 1 else initialSize * 3 / 2) && used == 0 && collisions == 0
      ensures forall i :: 0 <= i < size ==> kvs[i] == []
    {
      var n := (if initialSize == 0 then 1 else initialSize) * 3 / 2;
      this.hash := hash;
      size := n;
      used := 0;
      collisions := 0;
      kvs := new seq<Kv>[n](i => []);
    }

    method Linkin(h: nat, key: string, value: Pointer)
      requires Valid() && h < size
      modifies this`used, this`collisions, kvs
      ensures Valid()
      ensures Value() == HashTable.Linkin(old(Value()), h, Kv(key, value))
      ensures kvs[..] == old(kvs[..])[h := if old(kvs[h]) == [] then [Kv(key, value)]
                                           else [old(kvs[h])[0], Kv(key, value)] + old(kvs[h])[1..]]
      ensures used == old(used) + 1 && collisions == old(collisions) + (if old(kvs[h]) == [] then 0 else 1)
    {
      used := used + 1;
      if kvs[h] == [] {
        kvs[h] := [Kv(key, value)];
        return;
      }
      kvs[h] := [kvs[h][0], Kv(key, value)] + kvs[h][1..];
      collisions := collisions + 1;
    }

    method Insert(key: string, value: Pointer)
      requires Valid()
      modifies this`used, this`collisions, kvs
      ensures Valid()
      ensures Value() == HashTable.Insert(hash, old(Value()), Kv(key, value))
    {
      var h := hash(key) % size;
      Linkin(h, key, value);
    }

    method InsertChain(chain: seq<Kv>)
      requires Valid()
      modifies this`used, this`collisions, kvs
      ensures Valid()
      ensures Value() == InsertAll(hash, old(Value()), chain)
    {
      ghost var start := Value();
      var j := 0;
      while j < |chain|
        invariant 0 <= j <= |chain|
        invariant Valid()
        invariant Value() == InsertAll(hash, start, chain[..j])
      {
        Insert(chain[j].key, chain[j].value);
        assert chain[..j + 1][..j] == chain[..j];
        j := j + 1;
      }
      assert chain[..|chain|] == chain;
    }

    method Resize()
      requires Valid()
      modifies this
      ensures Valid() && fresh(kvs)
      ensures Value() == HashTable.Resize(hash, old(Value()))
    {
      var oldSize, oldKvs := size, kvs;
      ghost var chains := kvs[..];
      ghost var start := Emptied(Value());
      size := size * 2;
      kvs := new seq<Kv>[size](i => []);
      collisions := 0;
      assert Value() == start;
      var i := 0;
      while i < oldSize
        invariant 0 <= i <= oldSize == oldKvs.Length == |chains|
        invariant Valid() && fresh(kvs) && kvs != oldKvs
        invariant oldKvs[..] == chains
        invariant size == start.size && Value() == InsertAll(hash, start, Entries(chains[..i]))
      {
        InsertChain(oldKvs[i]);
        assert chains[..i + 1][..i] == chains[..i];
        InsertAllAppend(hash, start, Entries(chains[..i]), chains[i]);
        i := i + 1;
      }
      assert chains[..oldSize] == chains;
    }

    method GetValue(key: string, cb: () -> Pointer) returns (v: Pointer)
      requires Valid()
      modifies this, kvs
      ensures Valid() && (kvs == old(kvs) || fresh(kvs))
      ensures Value() == After(hash, old(Value()), key, cb())
      ensures v == Answer(hash, old(Value()), key, cb())
    {
      var h := hash(key) % size;
      var chain := kvs[h];
      var j := 0;
      while j < |chain|
        invariant 0 <= j <= |chain|
        invariant Find(chain, key) == Find(chain[j..], key)
      {
        if chain[j].key == key {
          return chain[j].value;
        }
        j := j + 1;
      }
      if 5 * collisions > size && 100 * used > size {
        Resize();
      }
      v := cb();
      Linkin(h, key, v);
    }
  }
}
