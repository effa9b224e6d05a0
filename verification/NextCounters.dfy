// The counters behind the `next` operator of src/rpn_eval.c: each name's
// counter lives in memory whose address is memoised by the hash table.

module NextCounters {
  import opened HashTable
  import opened HashRuns
  import opened HashString
  import opened Wrappers

  datatype Memory = Memory(table: Table, cells: map<Pointer, int>, calls: nat)

  type Counters = m: Memory | m.table.size > 0 && |m.table.kvs| == m.table.size
    witness Memory(Table(1, 0, 0, [[]]), map[], 0)

  // No counter exists before the first call.
  function Start(): Counters {
    Memory(Empty(0), map[], 0)
  }

  // A new counter is set to zero by the callback that allocates it.
  function Cell(c: Counters, at: Pointer): int {
    if at in c.cells then c.cells[at] else 0
  }

  function Address(hash: string -> nat, c: Counters, name: string): Pointer {
    Answer(hash, c.table, name, c.calls + 1)
  }

  // The value of a call of `next` and the memory after it; the i-th call
  // would allocate at address i.
  function Next(hash: string -> nat, c: Counters, name: string): (r: (Counters, int)) {
    var at := Address(hash, c, name);
    var value := Cell(c, at) + 1;
    (Memory(After(hash, c.table, name, c.calls + 1), c.cells[at := value], c.calls + 1), value)
  }

  function Run(hash: string -> nat, names: seq<string>): Counters {
    if names == [] then Start()
    else Next(hash, Run(hash, names[..|names| - 1]), names[|names| - 1]).0
  }

  function Calls(names: seq<string>): (calls: seq<Call>)
    ensures |calls| == |names|
  {
    seq(|names|, i requires 0 <= i < |names| => Call(names[i], i + 1))
  }

  function Occurrences(names: seq<string>, name: string): nat {
    if names == [] then 0
    else Occurrences(names[..|names| - 1], name) + (if names[|names| - 1] == name then 1 else 0)
  }

  lemma {:induction false} RunTable(hash: string -> nat, names: seq<string>)
    ensures Run(hash, names).table == HashTable.Run(hash, Empty(0), Calls(names))
    ensures Run(hash, names).calls == |names|
    decreases |names|
  {
    hide After;
    if names != [] {
      RunTable(hash, names[..|names| - 1]);
      CallsPrefix(names);
    }
  }

  lemma CallsPrefix(names: seq<string>)
    requires names != []
    ensures Calls(names)[..|names| - 1] == Calls(names[..|names| - 1])
    ensures Calls(names)[|names| - 1] == Call(names[|names| - 1], |names|)
  {
  }

  lemma AddressIsAnswer(hash: string -> nat, names: seq<string>, name: string)
    ensures Address(hash, Run(hash, names), name) ==
            AnswerAfter(hash, 0, Calls(names), Call(name, |names| + 1))
  {
    hide Answer, Run, HashTable.Run;
    RunTable(hash, names);
  }

  // A counter's address is that of some call with its name.
  lemma AddressOwner(hash: string -> nat, names: seq<string>, name: string)
    ensures var at := Address(hash, Run(hash, names), name);
            at == |names| + 1 || (1 <= at <= |names| && names[at - 1] == name)
  {
    hide Address, AnswerAfter, Run;
    AddressIsAnswer(hash, names, name);
    var calls, call := Calls(names), Call(name, |names| + 1);
    AnswersAreCalls(hash, 0, calls, call);
    var answered := Call(name, AnswerAfter(hash, 0, calls, call));
    assert answered in calls || answered == call;
  }

  lemma {:induction false} CellsOwned(hash: string -> nat, names: seq<string>)
    ensures forall at :: at in Run(hash, names).cells ==> at <= |names|
    decreases |names|
  {
    hide After, Address;
    if names != [] {
      CellsOwned(hash, names[..|names| - 1]);
      AddressOwner(hash, names[..|names| - 1], names[|names| - 1]);
    }
  }

  // The first call with a name.
  lemma {:induction false} FirstUse(names: seq<string>, name: string)
    ensures match FirstValue(Calls(names), name)
            case None => Occurrences(names, name) == 0
            case Some(at) => 1 <= at <= |names| && names[at - 1] == name && Occurrences(names, name) >= 1
    decreases |names|
  {
    if names != [] {
      CallsPrefix(names);
      FirstUse(names[..|names| - 1], name);
    }
  }

  // The address that a call of `next` gets.
  lemma KnownAddress(hash: string -> nat, names: seq<string>, name: string)
    requires NeverAskedLost(hash, 0, Calls(names), name)
    ensures Address(hash, Run(hash, names), name) ==
            match FirstValue(Calls(names), name)
            case None => |names| + 1
            case Some(at) => if Lost(hash, 0, Calls(names)) == Some(name) then |names| + 1 else at
  {
    hide Lost, Address, AnswerAfter, NeverAskedLost, Run;
    AddressIsAnswer(hash, names, name);
    var calls, call := Calls(names), Call(name, |names| + 1);
    AnswerExact(hash, 0, calls, call);
    assert (calls + [call])[..|calls|] == calls;
  }

  // The cell at a name's first address counts the calls with the name.
  lemma {:induction false} CellCounts(hash: string -> nat, names: seq<string>, name: string)
    requires NeverAskedLost(hash, 0, Calls(names), name)
    ensures match FirstValue(Calls(names), name)
            case None => true
            case Some(at) => Cell(Run(hash, names), at) == Occurrences(names, name)
    decreases |names|
  {
    hide After, Address, Lost;
    if names != [] {
      var earlier, last := names[..|names| - 1], names[|names| - 1];
      CallsPrefix(names);
      CellCounts(hash, earlier, name);
      CellsOwned(hash, earlier);
      RunTable(hash, earlier);
      FirstUse(earlier, name);
      AddressOwner(hash, earlier, last);
      if last == name {
        KnownAddress(hash, earlier, name);
      }
    }
  }

  // What `next` returns, exactly, for any hash, for a name never asked for while
  // its counter was lost: the number of calls with the name so far, or 1 again if
  // the counter is lost at that moment.
  lemma NextExact(hash: string -> nat, names: seq<string>, name: string)
    requires NeverAskedLost(hash, 0, Calls(names), name)
    ensures Next(hash, Run(hash, names), name).1 ==
            if Lost(hash, 0, Calls(names)) == Some(name) then 1 else Occurrences(names, name) + 1
  {
    hide Address, Lost;
    CellCounts(hash, names, name);
    CellsOwned(hash, names);
    KnownAddress(hash, names, name);
    FirstUse(names, name);
    LostWasCalled(hash, 0, Calls(names));
  }

  // Every call with the name returned the number of calls with it so far.
  predicate CountsRight(hash: string -> nat, names: seq<string>, name: string) {
    names == [] ||
    (CountsRight(hash, names[..|names| - 1], name) &&
     (names[|names| - 1] == name ==>
        Next(hash, Run(hash, names[..|names| - 1]), name).1 == Occurrences(names, name)))
  }

  // Over any run and for any hash, `next` counts the calls with a name if and
  // only if the name is never asked for while its counter is lost.
  lemma {:induction false} CountsIffNeverAskedLost(hash: string -> nat, names: seq<string>, name: string)
    ensures CountsRight(hash, names, name) <==> NeverAskedLost(hash, 0, Calls(names), name)
    decreases |names|
  {
    hide Next, Run, Lost;
    if names != [] {
      var earlier := names[..|names| - 1];
      CountsIffNeverAskedLost(hash, earlier, name);
      CallsPrefix(names);
      if names[|names| - 1] == name && NeverAskedLost(hash, 0, Calls(earlier), name) {
        NextExact(hash, earlier, name);
        LostWasCalled(hash, 0, Calls(earlier));
        FirstUse(earlier, name);
      }
    }
  }

  // While no resize has moved a bucket it was used with, `next` counts.
  lemma NextCounts(hash: string -> nat, names: seq<string>, name: string)
    requires Sound(hash, Empty(0), Calls(names))
    ensures Next(hash, Run(hash, names), name).1 == Occurrences(names, name) + 1
  {
    SoundLosesNothing(hash, 0, Calls(names), name);
    NextExact(hash, names, name);
  }

  // With the program's own hash a counter can start over: the third name of
  // these is counted as one twice.
  lemma CounterStartsOver()
    ensures var c := Run(HashStr, ["", "zz", "x"]);
            Next(HashStr, c, "x").1 == 1 && Occurrences(["", "zz", "x"], "x") == 1
  {
    var one, two, three := [""], ["", "zz"], ["", "zz", "x"];
    assert one[..0] == [] && two[..1] == one && three[..2] == two;
    assert Occurrences(one, "x") == 0 && Occurrences(two, "x") == 0;
    ThirdIsLost();
    NextExact(HashStr, three, "x");
  }

  lemma ThirdIsLost()
    ensures Lost(HashStr, 0, Calls(["", "zz", "x"])) == Some("x")
    ensures NeverAskedLost(HashStr, 0, Calls(["", "zz", "x"]), "x")
  {
    var one, two, three := [Call("", 1)], [Call("", 1), Call("zz", 2)], Calls(["", "zz", "x"]);
    HashOfX();
    FirstInsert(HashStr);
    SecondInsert(HashStr);
    CallbackRunsTwice(HashStr);
    hide After, Lookup, HashStr;
    assert Empty(0) == NEW;
    assert one[..0] == [] && two[..1] == one && three[..2] == two;
    assert HashTable.Run(HashStr, NEW, one) == ONE;
    assert HashTable.Run(HashStr, NEW, two) == TWO;
    assert Lost(HashStr, 0, two) == None by {
      assert Lost(HashStr, 0, one) == None;
    }
    assert NeverAskedLost(HashStr, 0, two, "x") by {
      assert NeverAskedLost(HashStr, 0, one, "x");
    }
  }
}
