// The cache of compiled regular expressions of src/regex_cache.c: ten slots
// reused in turn. It is shown to be a bounded queue that evicts its oldest
// entry, although a failing compile leaves a hole among the slots.

module RegexCache {
  import opened Wrappers

  // A compiled expression; regcomp itself is an arbitrary partial function.
  type Program = int

  type Regcomp = (string, int) -> Option<Program>

  const CACHE_SIZE := 10

  datatype Entry = Entry(regex: string, cflags: int, comp: Program)

  datatype Slot = Free | Held(entry: Entry)

  // ---------------------------------------------------------------- the queue it amounts to

  // Entries from the oldest to the newest.
  type Queue = seq<Entry>

  ghost predicate Caches(q: Queue, regex: string, cflags: int) {
    exists i :: 0 <= i < |q| && Matches(q[i], regex, cflags)
  }

  predicate Matches(e: Entry, regex: string, cflags: int) {
    e.regex == regex && e.cflags == cflags
  }

  function Evict(q: Queue): Queue {
    if |q| == CACHE_SIZE then q[1..] else q
  }

  ghost function Fetch(regcomp: Regcomp, q: Queue, regex: string, cflags: int): Queue {
    if Caches(q, regex, cflags) then q
    else
      match regcomp(regex, cflags)
      case None => Evict(q)
      case Some(comp) => Evict(q) + [Entry(regex, cflags, comp)]
  }

  // What every queue reached from the empty one satisfies: bounded, one entry
  // for a key, and every entry holds what compiling its key gives.
  ghost predicate Sound(regcomp: Regcomp, q: Queue) {
    && |q| <= CACHE_SIZE
    && (forall i, j :: 0 <= i < j < |q| ==> !Matches(q[i], q[j].regex, q[j].cflags))
    && (forall i :: 0 <= i < |q| ==> regcomp(q[i].regex, q[i].cflags) == Some(q[i].comp))
  }

  lemma FetchKeepsSound(regcomp: Regcomp, q: Queue, regex: string, cflags: int)
    requires Sound(regcomp, q)
    ensures Sound(regcomp, Fetch(regcomp, q, regex, cflags))
  {
    var after := Fetch(regcomp, q, regex, cflags);
    if !Caches(q, regex, cflags) && regcomp(regex, cflags).Some? {
      forall i, j | 0 <= i < j < |after|
        ensures !Matches(after[i], after[j].regex, after[j].cflags)
      {
        if j == |after| - 1 {
          var k := if |q| == CACHE_SIZE then i + 1 else i;
          assert after[i] == q[k];
        }
      }
    }
  }

  // A lookup and what the caller of csv_regex_get is given for it.
  datatype Request = Get(regex: string, cflags: int) | Clear

  ghost function Step(regcomp: Regcomp, q: Queue, r: Request): Queue {
    match r
    case Get(regex, cflags) => Fetch(regcomp, q, regex, cflags)
    case Clear => []
  }

  ghost function Run(regcomp: Regcomp, requests: seq<Request>): Queue {
    if requests == [] then []
    else Step(regcomp, Run(regcomp, requests[..|requests| - 1]), requests[|requests| - 1])
  }

  lemma {:induction false} RunSound(regcomp: Regcomp, requests: seq<Request>)
    ensures Sound(regcomp, Run(regcomp, requests)) && |Run(regcomp, requests)| <= 10
    decreases |requests|
  {
    if requests != [] {
      var before := requests[..|requests| - 1];
      RunSound(regcomp, before);
      match requests[|requests| - 1] {
        case Get(regex, cflags) => FetchKeepsSound(regcomp, Run(regcomp, before), regex, cflags);
        case Clear =>
      }
    }
  }

  // The keys that were inserted by successful compiles, oldest first, with no
  // bound and no eviction: what an unlimited cache would have seen.
  ghost function Inserted(regcomp: Regcomp, requests: seq<Request>): Queue {
    if requests == [] then []
    else
      var before := Inserted(regcomp, requests[..|requests| - 1]);
      match requests[|requests| - 1]
      case Clear => []
      case Get(regex, cflags) =>
        if Caches(Run(regcomp, requests[..|requests| - 1]), regex, cflags) ||
           regcomp(regex, cflags).None?
        then before
        else before + [Entry(regex, cflags, regcomp(regex, cflags).value)]
  }

  ghost predicate Recent(q: Queue, all: Queue) {
    |q| <= |all| && q == all[|all| - |q|..] && (|q| < CACHE_SIZE - 1 ==> q == all)
  }

  lemma EvictRecent(q: Queue, all: Queue, e: Entry)
    requires Recent(q, all)
    ensures Recent(Evict(q), all) && Recent(Evict(q) + [e], all + [e])
  {
    var p := Evict(q);
    assert p == all[|all| - |p|..];
    assert p + [e] == (all + [e])[|all| - |p|..];
  }

  // Eviction follows insertion order: the cache always holds the most recent
  // insertions since the last clearing, and all of them while it has fewer
  // than nine.
  lemma {:induction false} RunIsRecent(regcomp: Regcomp, requests: seq<Request>)
    ensures Recent(Run(regcomp, requests), Inserted(regcomp, requests))
    ensures |Run(regcomp, requests)| < 9 ==> Run(regcomp, requests) == Inserted(regcomp, requests)
    decreases |requests|
  {
    hide Recent, Evict;
    if requests == [] {
      NothingRecent();
    } else {
      var earlier := requests[..|requests| - 1];
      RunIsRecent(regcomp, earlier);
      match requests[|requests| - 1] {
        case Get(regex, cflags) =>
          var comp := regcomp(regex, cflags);
          var e := Entry(regex, cflags, if comp.Some? then comp.value else 0);
          EvictRecent(Run(regcomp, earlier), Inserted(regcomp, earlier), e);
        case Clear =>
          NothingRecent();
      }
    }
  }

  lemma NothingRecent()
    ensures Recent([], [])
  {
    var none: Queue := [];
    assert none[0..] == none;
  }

  // ---------------------------------------------------------------- in place

  // A hole among the used slots can only be the slot to be used next.
  ghost predicate Ring(slots: seq<Slot>, used: nat, next: nat) {
    && |slots| == CACHE_SIZE
    && used <= CACHE_SIZE
    && (used < CACHE_SIZE ==> next == used)
    && next < CACHE_SIZE
    && (forall i :: 0 <= i < used && i != next ==> slots[i].Held?)
    && (forall i :: used <= i < CACHE_SIZE ==> slots[i].Free?)
  }

  // Slots in order of age.
  ghost function ByAge(slots: seq<Slot>, used: nat, next: nat): (s: seq<Slot>)
    requires Ring(slots, used, next)
    ensures forall i :: 0 < i < |s| ==> s[i].Held?
    ensures |s| == used
  {
    if used < CACHE_SIZE then slots[..used] else slots[next..] + slots[..next]
  }

  // The cached entries, oldest first; only the oldest place can be a hole.
  ghost function Oldest(slots: seq<Slot>, used: nat, next: nat): (q: Queue)
    requires Ring(slots, used, next)
    ensures |q| == if used == CACHE_SIZE && slots[next].Free? then used - 1 else used
  {
    var aged := ByAge(slots, used, next);
    var held := if aged != [] && aged[0].Free? then aged[1..] else aged;
    seq(|held|, i requires 0 <= i < |held| => held[i].entry)
  }

  // Where a slot's entry stands in the queue.
  lemma PlaceInQueue(slots: seq<Slot>, used: nat, next: nat, i: nat)
    requires Ring(slots, used, next) && i < used && slots[i].Held?
    ensures exists k :: 0 <= k < |Oldest(slots, used, next)| && Oldest(slots, used, next)[k] == slots[i].entry
  {
    var aged, q := ByAge(slots, used, next), Oldest(slots, used, next);
    var skipped := if aged[0].Free? then 1 else 0;
    var start := if used < CACHE_SIZE then 0 else next;
    var a := if i >= start then i - start else i + CACHE_SIZE - start;
    assert aged[a] == slots[i];
    assert q[a - skipped] == slots[i].entry;
  }

  lemma QueueIsHeld(slots: seq<Slot>, used: nat, next: nat, k: nat)
    requires Ring(slots, used, next) && k < |Oldest(slots, used, next)|
    ensures exists i :: 0 <= i < used && slots[i].Held? && slots[i].entry == Oldest(slots, used, next)[k]
  {
    var aged, q := ByAge(slots, used, next), Oldest(slots, used, next);
    var a := if aged[0].Free? then k + 1 else k;
    var start := if used < CACHE_SIZE then 0 else next;
    var i := if start + a < CACHE_SIZE then start + a else start + a - CACHE_SIZE;
    assert aged[a] == slots[i];
  }

  lemma ReleaseEvicts(slots: seq<Slot>, used: nat, next: nat)
    requires Ring(slots, used, next)
    ensures Ring(slots[next := Free], used, next)
    ensures Oldest(slots[next := Free], used, next) == Evict(Oldest(slots, used, next))
  {
    var before, after := Oldest(slots, used, next), Oldest(slots[next := Free], used, next);
    if used == CACHE_SIZE {
      assert ByAge(slots[next := Free], used, next)[1..] == ByAge(slots, used, next)[1..];
    } else {
      assert slots[next := Free] == slots;
    }
  }

  lemma FillAppends(slots: seq<Slot>, used: nat, next: nat, e: Entry)
    requires Ring(slots, used, next) && slots[next].Free?
    ensures var filled, more, turn := slots[next := Held(e)], (if used == CACHE_SIZE then used else used + 1),
                                      (if next + 1 == CACHE_SIZE then 0 else next + 1);
            Ring(filled, more, turn) && Oldest(filled, more, turn) == Oldest(slots, used, next) + [e]
  {
    var filled, more := slots[next := Held(e)], if used == CACHE_SIZE then used else used + 1;
    var turn := if next + 1 == CACHE_SIZE then 0 else next + 1;
    var aged := ByAge(slots, used, next);
    if used == CACHE_SIZE {
      assert aged[0].Free?;
      assert ByAge(filled, more, turn) == aged[1..] + [Held(e)];
    } else {
      assert ByAge(filled, more, turn) == aged + [Held(e)];
    }
    assert Oldest(filled, more, turn) == Oldest(slots, used, next) + [e];
  }

  class Cache {
    const cache: array<Slot>
    var used: nat
    var nextToUse: nat

    ghost predicate Valid()
      reads this, cache
    {
      Ring(cache[..], used, nextToUse)
    }

    ghost function Contents(): Queue
      requires Valid()
      reads this, cache
    {
      Oldest(cache[..], used, nextToUse)
    }

    constructor ()
      ensures Valid() && fresh(cache) && Contents() == []
    {
      cache := new Slot[CACHE_SIZE](i => Free);
      used := 0;
      nextToUse := 0;
    }

    // The answer is None where the source stores a null pointer and returns -1.
    method Get(regcomp: Regcomp, regex: string, cflags: int) returns (preg: Option<Program>)
      requires Valid() && Sound(regcomp, Contents())
      modifies this, cache
      ensures Valid() && Sound(regcomp, Contents())
      ensures Contents() == Fetch(regcomp, old(Contents()), regex, cflags)
      ensures preg == regcomp(regex, cflags)
    {
      hide Oldest, Sound, Evict;
      FetchKeepsSound(regcomp, Contents(), regex, cflags);
      var i := 0;
      while i < used
        invariant 0 <= i <= used
        invariant forall k :: 0 <= k < i && cache[k].Held? ==> !Matches(cache[k].entry, regex, cflags)
      {
        if cache[i].Held? && Matches(cache[i].entry, regex, cflags) {
          PlaceInQueue(cache[..], used, nextToUse, i);
          HitIsFresh(regcomp, Contents(), regex, cflags, cache[i].entry);
          return Some(cache[i].entry.comp);
        }
        i := i + 1;
      }
      forall k | 0 <= k < |Contents()|
        ensures !Matches(Contents()[k], regex, cflags)
      {
        QueueIsHeld(cache[..], used, nextToUse, k);
      }
      ghost var slots := cache[..];
      ReleaseEvicts(slots, used, nextToUse);
      if cache[nextToUse].Held? {
        cache[nextToUse] := Free;
      }
      assert cache[..] == slots[nextToUse := Free];
      preg := regcomp(regex, cflags);
      if preg.None? {
        return;
      }
      FillAppends(cache[..], used, nextToUse, Entry(regex, cflags, preg.value));
      cache[nextToUse] := Held(Entry(regex, cflags, preg.value));
      assert cache[..] == slots[nextToUse := Free][nextToUse := Held(Entry(regex, cflags, preg.value))];
      if used != CACHE_SIZE {
        used := used + 1;
      }
      nextToUse := nextToUse + 1;
      if nextToUse == CACHE_SIZE {
        nextToUse := 0;
      }
    }

    method ClearCache()
      requires Valid()
      modifies this, cache
      ensures Valid() && Contents() == []
    {
      var i := 0;
      while i < used
        invariant 0 <= i <= used == old(used) <= CACHE_SIZE
        invariant forall k :: 0 <= k < i || used <= k < CACHE_SIZE ==> cache[k].Free?
      {
        if cache[i].Held? {
          cache[i] := Free;
        }
        i := i + 1;
      }
      used := 0;
      nextToUse := 0;
    }
  }

  lemma HitIsFresh(regcomp: Regcomp, q: Queue, regex: string, cflags: int, e: Entry)
    requires Sound(regcomp, q) && Matches(e, regex, cflags)
    requires exists k :: 0 <= k < |q| && q[k] == e
    ensures Caches(q, regex, cflags) && Some(e.comp) == regcomp(regex, cflags)
  {
  }
}
