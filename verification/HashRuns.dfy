// Whole runs of csv_ht_get_value (src/ht.c) without any assumption on the
// hash: at every moment at most one key is misplaced, the key whose own call
// resized the table and moved its bucket; a call answers wrongly exactly when
// it asks for that key.

module HashRuns {
  import opened HashTable
  import opened Wrappers

  // The one key that may be stored and still not be found after the calls: the
  // next resize, or the next call with it, ends that. A key never asked for while
  // it was lost is in fact not found; one asked for while lost, by a call that
  // resizes again, is found by then and still named here.
  function Lost(hash: string -> nat, initial: nat, calls: seq<Call>): Option<string> {
    if calls == [] then None
    else
      var earlier, key := calls[..|calls| - 1], calls[|calls| - 1].key;
      var before := Run(hash, Empty(initial), earlier);
      if Lookup(hash, before, key).Some? then Lost(hash, initial, earlier)
      else if Overloaded(before) then
        if Slot(hash, before.size, key) == Slot(hash, 2 * before.size, key) then None else Some(key)
      else if Lost(hash, initial, earlier) == Some(key) then None
      else Lost(hash, initial, earlier)
  }

  // No call with the key was made while the key was lost.
  predicate NeverAskedLost(hash: string -> nat, initial: nat, calls: seq<Call>, key: string) {
    calls == [] ||
    (NeverAskedLost(hash, initial, calls[..|calls| - 1], key) &&
     (calls[|calls| - 1].key == key ==> Lost(hash, initial, calls[..|calls| - 1]) != Some(key)))
  }

  function AnswerAfter(hash: string -> nat, initial: nat, calls: seq<Call>, call: Call): Pointer {
    Answer(hash, Run(hash, Empty(initial), calls), call.key, call.value)
  }

  // Every call with the key was answered with the value of the first one.
  predicate AnsweredRight(hash: string -> nat, initial: nat, calls: seq<Call>, key: string) {
    calls == [] ||
    (AnsweredRight(hash, initial, calls[..|calls| - 1], key) &&
     (calls[|calls| - 1].key == key ==>
        Some(AnswerAfter(hash, initial, calls[..|calls| - 1], calls[|calls| - 1])) == FirstValue(calls, key)))
  }

  // ---------------------------------------------------------------- one key in a table

  // All entries with the key carry the value.
  ghost predicate OneValue(t: Table, key: string, v: Pointer) {
    forall kv :: kv in Bag(t) && kv.key == key ==> kv.value == v
  }

  ghost predicate Absent(hash: string -> nat, t: Table, key: string) {
    Shaped(t) && !HasKey(Bag(t), key) && Lookup(hash, t, key) == None
  }

  ghost predicate Settled(hash: string -> nat, t: Table, key: string, v: Pointer) {
    Shaped(t) && OneValue(t, key, v) && HasKey(Bag(t), key) && Lookup(hash, t, key) == Some(v)
  }

  ghost predicate Astray(hash: string -> nat, t: Table, key: string, v: Pointer) {
    Shaped(t) && OneValue(t, key, v) && HasKey(Bag(t), key) && Lookup(hash, t, key) == None
  }

  lemma LinkinBag(t: Table, h: nat, kv: Kv)
    requires h < |t.kvs|
    ensures Bag(Linkin(t, h, kv)) == Bag(t) + multiset{kv}
  {
    EntriesUpdate(t.kvs, h, kv);
  }

  // What a lookup of a key finds after an entry is linked into bucket h.
  lemma LinkinLookup(hash: string -> nat, t: Table, h: nat, kv: Kv, key: string)
    requires Shaped(t) && h < t.size
    ensures kv.key != key || Slot(hash, t.size, key) != h ==>
              Lookup(hash, Linkin(t, h, kv), key) == Lookup(hash, t, key)
    ensures kv.key == key && Slot(hash, t.size, key) == h && Lookup(hash, t, key) == None ==>
              Lookup(hash, Linkin(t, h, kv), key) == Some(kv.value)
    ensures Lookup(hash, t, key).Some? ==> Lookup(hash, Linkin(t, h, kv), key).Some?
  {
    FindLink(t.kvs[h], kv, key);
  }

  lemma FindLink(chain: seq<Kv>, kv: Kv, key: string)
    ensures kv.key != key ==> Find(Link(chain, kv), key) == Find(chain, key)
    ensures kv.key == key && Find(chain, key) == None ==> Find(Link(chain, kv), key) == Some(kv.value)
    ensures Find(chain, key).Some? ==> Find(Link(chain, kv), key).Some?
  {
    var rest := if chain == [] then [] else chain[1..];
    assert ([kv] + rest)[1..] == rest;
    if chain != [] {
      assert Link(chain, kv)[1..] == [kv] + rest;
    }
  }

  // After a resize the key is where it belongs.
  lemma ResizeSettles(hash: string -> nat, t: Table, key: string, v: Pointer)
    requires Shaped(t) && OneValue(t, key, v)
    ensures if HasKey(Bag(t), key) then Settled(hash, Resize(hash, t), key, v)
            else Absent(hash, Resize(hash, t), key)
  {
    hide Resize, Find, Entries;
    ResizeKeeps(hash, t);
    LookupMeans(hash, Resize(hash, t), key);
  }

  // A call with another key does not disturb the key, and a resize settles it.
  lemma OtherCall(hash: string -> nat, t: Table, key: string, v: Pointer, q: string, w: Pointer)
    requires Shaped(t) && OneValue(t, key, v) && q != key
    ensures OneValue(After(hash, t, q, w), key, v)
    ensures HasKey(Bag(After(hash, t, q, w)), key) <==> HasKey(Bag(t), key)
    ensures Lookup(hash, t, q).Some? || !Overloaded(t) ==>
              Lookup(hash, After(hash, t, q, w), key) == Lookup(hash, t, key)
    ensures Lookup(hash, t, q).None? && Overloaded(t) ==>
              Lookup(hash, After(hash, t, q, w), key) == if HasKey(Bag(t), key) then Some(v) else None
  {
    hide Resize, Lookup, Linkin, Find;
    if Lookup(hash, t, q).None? {
      ResizeKeeps(hash, t);
      ResizeSettles(hash, t, key, v);
      var room, h := Room(hash, t), Slot(hash, t.size, q);
      LinkinBag(room, h, Kv(q, w));
      LinkinLookup(hash, room, h, Kv(q, w), key);
      if HasKey(Bag(t), key) {
        var kv :| kv in Bag(t) && kv.key == key;
        assert kv in Bag(After(hash, t, q, w));
      }
    }
  }

  // The first call with a key settles it, unless it resizes and moves its bucket.
  lemma FirstCall(hash: string -> nat, t: Table, key: string, v: Pointer)
    requires Absent(hash, t, key)
    ensures if SlotSurvives(hash, t, key) then Settled(hash, After(hash, t, key, v), key, v)
            else Astray(hash, After(hash, t, key, v), key, v)
  {
    hide Resize, Linkin, Find;
    ResizeKeeps(hash, t);
    ResizeSettles(hash, t, key, v);
    var room, h := Room(hash, t), Slot(hash, t.size, key);
    LinkinBag(room, h, Kv(key, v));
    LinkinLookup(hash, room, h, Kv(key, v), key);
    assert Kv(key, v) in Bag(After(hash, t, key, v));
  }

  // ---------------------------------------------------------------- the exact condition

  // Where the key stands after calls that never asked for it while it was lost.
  ghost predicate Stands(hash: string -> nat, initial: nat, calls: seq<Call>, key: string) {
    var t, lost := Run(hash, Empty(initial), calls), Lost(hash, initial, calls);
    match FirstValue(calls, key)
    case None => Absent(hash, t, key) && lost != Some(key)
    case Some(v) => if lost == Some(key) then Astray(hash, t, key, v) else Settled(hash, t, key, v)
  }

  lemma {:induction false} KeyStands(hash: string -> nat, initial: nat, calls: seq<Call>, key: string)
    requires NeverAskedLost(hash, initial, calls, key)
    ensures Stands(hash, initial, calls, key)
    decreases |calls|
  {
    hide After, Slot, Lookup, Bag, OneValue, Empty, Overloaded;
    if calls == [] {
      NothingStored(hash, initial, key);
    } else {
      var earlier, call := calls[..|calls| - 1], calls[|calls| - 1];
      KeyStands(hash, initial, earlier, key);
      var t := Run(hash, Empty(initial), earlier);
      if call.key != key {
        var v := if FirstValue(earlier, key).Some? then FirstValue(earlier, key).value else 0;
        AbsentOneValue(hash, t, key, v);
        OtherCall(hash, t, key, v, call.key, call.value);
      } else if FirstValue(earlier, key).None? {
        FirstCall(hash, t, key, call.value);
      } else {
        HitKeeps(hash, t, key, call.value);
      }
    }
  }

  lemma NothingStored(hash: string -> nat, initial: nat, key: string)
    ensures Absent(hash, Empty(initial), key)
  {
    EmptyTableGood(hash, initial);
    LookupMeans(hash, Empty(initial), key);
  }

  lemma AbsentOneValue(hash: string -> nat, t: Table, key: string, v: Pointer)
    ensures Absent(hash, t, key) ==> OneValue(t, key, v)
  {
  }

  lemma HitKeeps(hash: string -> nat, t: Table, key: string, w: Pointer)
    requires Shaped(t) && Lookup(hash, t, key).Some?
    ensures After(hash, t, key, w) == t
  {
  }

  // What a call answers, exactly, if its key was never asked for while it was
  // lost: the key's first value, or the new value if the key is lost now.
  lemma AnswerExact(hash: string -> nat, initial: nat, calls: seq<Call>, call: Call)
    requires NeverAskedLost(hash, initial, calls, call.key)
    ensures AnswerAfter(hash, initial, calls, call) ==
            if Lost(hash, initial, calls) == Some(call.key) then call.value
            else FirstValue(calls + [call], call.key).value
  {
    KeyStands(hash, initial, calls, call.key);
    assert (calls + [call])[..|calls|] == calls;
  }

  // The callback never produces the same value twice for the key.
  ghost predicate FreshValues(calls: seq<Call>, key: string) {
    forall i, j :: 0 <= i < j < |calls| && calls[i].key == calls[j].key == key ==> calls[i].value != calls[j].value
  }

  lemma {:induction false} FirstValueFrom(calls: seq<Call>, key: string)
    ensures match FirstValue(calls, key)
            case None => forall i :: 0 <= i < |calls| ==> calls[i].key != key
            case Some(v) => exists i :: 0 <= i < |calls| && calls[i] == Call(key, v)
    decreases |calls|
  {
    if calls != [] {
      var earlier := calls[..|calls| - 1];
      FirstValueFrom(earlier, key);
      if FirstValue(earlier, key).Some? {
        var i :| 0 <= i < |earlier| && earlier[i] == Call(key, FirstValue(earlier, key).value);
        assert calls[i] == Call(key, FirstValue(earlier, key).value);
      } else if calls[|calls| - 1].key == key {
        assert calls[|calls| - 1] == Call(key, calls[|calls| - 1].value);
      }
    }
  }

  // The memo contract holds for a key, over any run and for any hash, if and
  // only if the key is never asked for while it is lost.
  lemma {:induction false} RightIffNeverAskedLost(hash: string -> nat, initial: nat, calls: seq<Call>, key: string)
    requires FreshValues(calls, key)
    ensures AnsweredRight(hash, initial, calls, key) <==> NeverAskedLost(hash, initial, calls, key)
    decreases |calls|
  {
    hide Run, Answer, Lost, FirstValue;
    if calls != [] {
      var earlier, call := calls[..|calls| - 1], calls[|calls| - 1];
      RightIffNeverAskedLost(hash, initial, earlier, key);
      if call.key == key && NeverAskedLost(hash, initial, earlier, key) {
        AnswerExact(hash, initial, earlier, call);
        assert earlier + [call] == calls;
        LostWasCalled(hash, initial, earlier);
        FirstIsNew(calls, key);
      }
    }
  }

  // The value of a later call is not the first one's.
  lemma FirstIsNew(calls: seq<Call>, key: string)
    requires FreshValues(calls, key) && calls != [] && calls[|calls| - 1].key == key
    ensures FirstValue(calls, key).Some?
    ensures FirstValue(calls[..|calls| - 1], key).Some? ==>
              FirstValue(calls, key).value != calls[|calls| - 1].value
  {
    FirstValueFrom(calls[..|calls| - 1], key);
    var earlier := calls[..|calls| - 1];
    if FirstValue(earlier, key).Some? {
      var i :| 0 <= i < |earlier| && earlier[i] == Call(key, FirstValue(earlier, key).value);
      assert calls[i].key == key;
    }
  }

  lemma {:induction false} LostWasCalled(hash: string -> nat, initial: nat, calls: seq<Call>)
    ensures Lost(hash, initial, calls).Some? ==> FirstValue(calls, Lost(hash, initial, calls).value).Some?
    decreases |calls|
  {
    hide Run, Lookup, Slot;
    if calls != [] {
      LostWasCalled(hash, initial, calls[..|calls| - 1]);
    }
  }

  // In a sound run no key is ever lost.
  lemma {:induction false} SoundLosesNothing(hash: string -> nat, initial: nat, calls: seq<Call>, key: string)
    requires Sound(hash, Empty(initial), calls)
    ensures Lost(hash, initial, calls) == None && NeverAskedLost(hash, initial, calls, key)
    decreases |calls|
  {
    hide Run, Lookup, Slot;
    if calls != [] {
      SoundLosesNothing(hash, initial, calls[..|calls| - 1], key);
    }
  }

  // Every key asked for has an entry, lost or not.
  lemma {:induction false} CalledIsStored(hash: string -> nat, initial: nat, calls: seq<Call>, key: string)
    requires FirstValue(calls, key).Some?
    ensures HasKey(Bag(Run(hash, Empty(initial), calls)), key)
    decreases |calls|
  {
    hide Lookup, Linkin, Empty, Resize, Bag;
    var earlier, call := calls[..|calls| - 1], calls[|calls| - 1];
    var t := Run(hash, Empty(initial), earlier);
    KeepsEntries(hash, t, call.key, call.value);
    if FirstValue(earlier, key).Some? {
      CalledIsStored(hash, initial, earlier, key);
      var kv :| kv in Bag(t) && kv.key == key;
      assert kv in Bag(Run(hash, Empty(initial), calls));
    }
  }

  // A call takes no entry away, adds its own if its key is not found, and leaves
  // one with its key.
  lemma KeepsEntries(hash: string -> nat, t: Table, key: string, v: Pointer)
    requires Shaped(t)
    ensures var bag := Bag(After(hash, t, key, v));
            bag == Bag(t) + (if Lookup(hash, t, key).Some? then multiset{} else multiset{Kv(key, v)}) &&
            HasKey(bag, key)
  {
    hide Linkin, Resize, Find, Entries;
    var h := Slot(hash, t.size, key);
    var found := Lookup(hash, t, key);
    if found.Some? {
      FindMeans(t.kvs[h], key);
      EntriesMembers(t.kvs, Kv(key, found.value));
      assert Kv(key, found.value) in Bag(t);
    } else {
      ResizeKeeps(hash, t);
      LinkinBag(Room(hash, t), h, Kv(key, v));
      assert Kv(key, v) in Bag(After(hash, t, key, v));
    }
  }

  // At most one key at a time is lost: whatever the calls, every key stored is
  // found, except possibly the one that `Lost` names.
  lemma {:induction false} OnlyLostIsMissing(hash: string -> nat, initial: nat, calls: seq<Call>, key: string)
    requires HasKey(Bag(Run(hash, Empty(initial), calls)), key)
    ensures Lookup(hash, Run(hash, Empty(initial), calls), key).Some? || Lost(hash, initial, calls) == Some(key)
    decreases |calls|
  {
    hide Lookup, Linkin, Empty, Resize, Bag, Overloaded, Slot;
    if calls == [] {
      EmptyTableGood(hash, initial);
    } else {
      var earlier, call := calls[..|calls| - 1], calls[|calls| - 1];
      var t := Run(hash, Empty(initial), earlier);
      KeepsEntries(hash, t, call.key, call.value);
      if Lookup(hash, t, call.key).Some? {
        OnlyLostIsMissing(hash, initial, earlier, key);
      } else {
        StaysFound(hash, t, call.key, call.value, key);
        if call.key != key && !Overloaded(t) {
          OnlyLostIsMissing(hash, initial, earlier, key);
        }
      }
    }
  }

  // What a call with a new entry can leave unfound: no stored key if it resizes,
  // nothing found before if it does not, and its own key only if it moves its
  // bucket.
  lemma StaysFound(hash: string -> nat, t: Table, q: string, w: Pointer, key: string)
    requires Shaped(t) && Lookup(hash, t, q).None?
    ensures Lookup(hash, After(hash, t, q, w), key).None? ==>
              (if q == key then !SlotSurvives(hash, t, q)
               else if Overloaded(t) then !HasKey(Bag(t), key)
               else Lookup(hash, t, key).None?)
  {
    hide Linkin, Resize, Find, Entries, Overloaded, Slot, Lookup, Bag;
    ResizeKeeps(hash, t);
    LookupMeans(hash, Resize(hash, t), key);
    LinkinLookup(hash, Room(hash, t), Slot(hash, t.size, q), Kv(q, w), key);
  }

  // Every entry comes from a call, lost keys or not.
  lemma {:induction false} EntriesAreCalls(hash: string -> nat, initial: nat, calls: seq<Call>, kv: Kv)
    requires kv in Bag(Run(hash, Empty(initial), calls))
    ensures Call(kv.key, kv.value) in calls
    decreases |calls|
  {
    hide Lookup, Linkin, Empty, Resize, Bag;
    if calls == [] {
      EmptyTableGood(hash, initial);
    } else {
      var earlier, call := calls[..|calls| - 1], calls[|calls| - 1];
      var t := Run(hash, Empty(initial), earlier);
      ResizeKeeps(hash, t);
      LinkinBag(Room(hash, t), Slot(hash, t.size, call.key), Kv(call.key, call.value));
      if kv in Bag(t) {
        EntriesAreCalls(hash, initial, earlier, kv);
        assert Call(kv.key, kv.value) in calls;
      } else {
        assert call == Call(kv.key, kv.value);
      }
    }
  }

  // Every answer is the value of some call with the same key.
  lemma AnswersAreCalls(hash: string -> nat, initial: nat, calls: seq<Call>, call: Call)
    ensures Call(call.key, AnswerAfter(hash, initial, calls, call)) in calls + [call]
  {
    hide Run, Entries;
    var t := Run(hash, Empty(initial), calls);
    var found := Lookup(hash, t, call.key);
    if found.Some? {
      var h := Slot(hash, t.size, call.key);
      FindMeans(t.kvs[h], call.key);
      EntriesMembers(t.kvs, Kv(call.key, found.value));
      EntriesAreCalls(hash, initial, calls, Kv(call.key, found.value));
    }
  }
}
