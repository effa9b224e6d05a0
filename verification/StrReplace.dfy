// csv_str_replace and csv_check_space of src/utils.c: replacing every
// occurrence of a pattern while copying into a buffer that grows on demand.

module StrReplace {
  import opened Wrappers

  // How a search compares characters: the identity for strstr, lower-casing
  // for strcasestr.
  type Fold = char -> char

  function Exact(c: char): char {
    c
  }

  function Comparing(caseSensitive: bool, lower: Fold): Fold {
    if caseSensitive then Exact else lower
  }

  predicate OccursAt(fold: Fold, s: string, pattern: string, i: nat) {
    i + |pattern| <= |s| && forall k :: 0 <= k < |pattern| ==> fold(s[i + k]) == fold(pattern[k])
  }

  ghost predicate Occurs(fold: Fold, s: string, pattern: string) {
    exists i: nat :: OccursAt(fold, s, pattern, i)
  }

  // strstr and strcasestr: where the pattern first occurs at or after `from`.
  function SearchFrom(fold: Fold, s: string, pattern: string, from: nat): (at: Option<nat>)
    requires from <= |s|
    ensures at.Some? ==> from <= at.value && OccursAt(fold, s, pattern, at.value)
    ensures at.Some? ==> forall i :: from <= i < at.value ==> !OccursAt(fold, s, pattern, i)
    ensures at.None? ==> forall i :: from <= i ==> !OccursAt(fold, s, pattern, i)
    decreases |s| - from
  {
    if OccursAt(fold, s, pattern, from) then Some(from)
    else if from < |s| then SearchFrom(fold, s, pattern, from + 1)
    else None
  }

  function Search(fold: Fold, s: string, pattern: string): (at: Option<nat>)
    ensures at.Some? <==> Occurs(fold, s, pattern)
    ensures at.Some? ==> at.value + |pattern| <= |s|
  {
    SearchFrom(fold, s, pattern, 0)
  }

  // A case-sensitive search finds exactly the places where the pattern stands.
  lemma ExactOccurs(s: string, pattern: string, i: nat)
    requires i + |pattern| <= |s|
    ensures OccursAt(Exact, s, pattern, i) <==> s[i..i + |pattern|] == pattern
  {
    var there := s[i..i + |pattern|];
    assert forall k {:trigger pattern[k]} :: 0 <= k < |pattern| ==> there[k] == s[i + k];
  }

  // Where nothing occurs before position i, the search stops at i or fails.
  lemma FirstFound(fold: Fold, s: string, pattern: string, i: nat)
    requires forall j :: 0 <= j < i ==> !OccursAt(fold, s, pattern, j)
    requires i > |s| || OccursAt(fold, s, pattern, i)
    ensures Search(fold, s, pattern) == if i > |s| then None else Some(i)
  {
  }

  // ---------------------------------------------------------------- what is replaced

  // A string cut into the text between hits and the hits themselves.
  datatype Cut = Last(text: string) | Hit(text: string, hit: string, rest: Cut)

  function Whole(cut: Cut): string {
    match cut
    case Last(text) => text
    case Hit(text, hit, rest) => text + hit + Whole(rest)
  }

  function Substituted(cut: Cut, replacement: string): string {
    match cut
    case Last(text) => text
    case Hit(text, _, rest) => text + replacement + Substituted(rest, replacement)
  }

  lemma PrefixOccurs(fold: Fold, s: string, pattern: string, i: nat, n: nat)
    requires i + |pattern| <= n <= |s|
    ensures OccursAt(fold, s[..n], pattern, i) == OccursAt(fold, s, pattern, i)
  {
    var cut := s[..n];
    assert OccursAt(fold, cut, pattern, i) ==> OccursAt(fold, s, pattern, i) by {
      assert forall k {:trigger pattern[k]} :: 0 <= k < |pattern| ==> cut[i + k] == s[i + k];
    }
  }

  // Every hit is the pattern, and none starts inside the text before a hit or
  // in the text after the last one: the hits are leftmost and do not overlap.
  ghost predicate Leftmost(fold: Fold, pattern: string, cut: Cut) {
    match cut
    case Last(text) => !Occurs(fold, text, pattern)
    case Hit(text, hit, rest) =>
      |hit| == |pattern| > 0 && OccursAt(fold, hit, pattern, 0) &&
      !Occurs(fold, text + hit[..|hit| - 1], pattern) &&
      Leftmost(fold, pattern, rest)
  }

  // The cut the loop makes.
  function Cuts(fold: Fold, s: string, pattern: string): (cut: Cut)
    requires pattern != ""
    ensures Whole(cut) == s
    decreases |s|
  {
    match Search(fold, s, pattern)
    case None => Last(s)
    case Some(at) =>
      assert s == s[..at] + s[at..at + |pattern|] + s[at + |pattern|..];
      Hit(s[..at], s[at..at + |pattern|], Cuts(fold, s[at + |pattern|..], pattern))
  }

  function Replaced(fold: Fold, s: string, pattern: string, replacement: string): string
    requires pattern != ""
  {
    Substituted(Cuts(fold, s, pattern), replacement)
  }

  lemma ReplacedStep(fold: Fold, s: string, pattern: string, replacement: string)
    requires pattern != ""
    ensures match Search(fold, s, pattern)
            case None => Replaced(fold, s, pattern, replacement) == s
            case Some(at) =>
              Replaced(fold, s, pattern, replacement) ==
              s[..at] + replacement + Replaced(fold, s[at + |pattern|..], pattern, replacement)
  {
  }

  lemma {:induction false} CutsLeftmost(fold: Fold, s: string, pattern: string)
    requires pattern != ""
    ensures Leftmost(fold, pattern, Cuts(fold, s, pattern))
    decreases |s|
  {
    match Search(fold, s, pattern) {
      case None =>
      case Some(at) =>
        var before := s[..at] + s[at..at + |pattern|][..|pattern| - 1];
        assert before == s[..at + |pattern| - 1];
        forall i: nat
          ensures !OccursAt(fold, before, pattern, i)
        {
          if i + |pattern| <= |before| {
            PrefixOccurs(fold, s, pattern, i, |before|);
          }
        }
        CutsLeftmost(fold, s[at + |pattern|..], pattern);
    }
  }

  // There is only one leftmost cut of a string, so a buffer holding the
  // substituted cut is the replacement of all leftmost occurrences.
  lemma {:induction false} LeftmostUnique(fold: Fold, pattern: string, cut: Cut)
    requires pattern != "" && Leftmost(fold, pattern, cut)
    ensures cut == Cuts(fold, Whole(cut), pattern)
    decreases cut
  {
    match cut {
      case Last(text) =>
      case Hit(text, hit, rest) =>
        var s := Whole(cut);
        assert s[|text|..|text| + |pattern|] == hit;
        assert OccursAt(fold, s, pattern, |text|);
        forall i: nat | i < |text|
          ensures !OccursAt(fold, s, pattern, i)
        {
          assert s[..|text| + |hit| - 1] == text + hit[..|hit| - 1];
          PrefixOccurs(fold, s, pattern, i, |text| + |hit| - 1);
        }
        assert Search(fold, s, pattern) == Some(|text|);
        assert s[|text| + |pattern|..] == Whole(rest);
        LeftmostUnique(fold, pattern, rest);
    }
  }

  // ---------------------------------------------------------------- termination

  // What is left to search after n turns of the loop; None once a search failed.
  function Turns(fold: Fold, s: string, pattern: string, n: nat): Option<string> {
    if n == 0 then Some(s)
    else
      match Turns(fold, s, pattern, n - 1)
      case None => None
      case Some(left) =>
        match Search(fold, left, pattern)
        case None => None
        case Some(at) => Some(left[at + |pattern|..])
  }

  lemma {:induction false} TurnsShrink(fold: Fold, s: string, pattern: string, n: nat)
    ensures pattern == "" ==> Turns(fold, s, pattern, n) == Some(s)
    ensures pattern != "" && Turns(fold, s, pattern, n).Some? ==>
              |Turns(fold, s, pattern, n).value| + n <= |s|
    decreases n
  {
    if n > 0 {
      TurnsShrink(fold, s, pattern, n - 1);
      if pattern == "" {
        assert OccursAt(fold, s, pattern, 0);
      }
    }
  }

  // The loop ends exactly for a pattern that is not empty.
  lemma LoopEnds(fold: Fold, s: string, pattern: string)
    ensures (exists n :: Turns(fold, s, pattern, n).None?) <==> pattern != ""
  {
    if pattern != "" {
      TurnsShrink(fold, s, pattern, |s| + 1);
      assert Turns(fold, s, pattern, |s| + 1).None?;
    } else if n :| Turns(fold, s, pattern, n).None? {
      TurnsShrink(fold, s, pattern, n);
    }
  }

  // ---------------------------------------------------------------- in place

  // A caller's growing buffer; its length is the tracked one.
  class Buffer {
    var data: array<char>

    constructor ()
      ensures fresh(data) && data.Length == 0
    {
      data := new char[0];
    }

    // csv_check_space
    method CheckSpace(used: nat, len: nat)
      requires used <= data.Length
      modifies this
      ensures data.Length == if used + len < old(data.Length) then old(data.Length) else old(data.Length) + len
      ensures data == old(data) || fresh(data)
      ensures data[..used] == old(data[..used])
    {
      if used + len < data.Length {
        return;
      }
      var bigger := new char[data.Length + len];
      forall k | 0 <= k < data.Length {
        bigger[k] := data[k];
      }
      data := bigger;
    }

    // csv_check_space followed by the memcpy of `text` to offset `used`
    method Append(used: nat, text: string, len: nat)
      requires used <= data.Length && |text| <= len
      modifies this, data
      ensures data == old(data) || fresh(data)
      ensures used + len <= data.Length
      ensures data[..used + |text|] == old(data[..used]) + text
    {
      CheckSpace(used, len);
      forall k | 0 <= k < |text| {
        data[used + k] := text[k];
      }
    }
  }

  lemma Assoc(a: string, b: string, c: string, d: string)
    ensures a + (b + c + d) == a + b + c + d
  {
  }

  method StrReplace(str: string, pattern: string, replacement: string, caseSensitive: bool, lower: Fold, buf: Buffer)
      returns (replaced: bool)
    requires pattern != ""
    modifies buf, buf.data
    ensures buf.data == old(buf.data) || fresh(buf.data)
    ensures replaced == Occurs(Comparing(caseSensitive, lower), str, pattern)
    ensures !replaced ==> buf.data == old(buf.data) && buf.data[..] == old(buf.data[..])
    ensures var result := Replaced(Comparing(caseSensitive, lower), str, pattern, replacement);
            replaced ==> |result| < buf.data.Length && buf.data[..|result| + 1] == result + ['\0']
  {
    hide Cuts, Replaced, OccursAt, Occurs, SearchFrom, Search, Comparing;
    var fold := Comparing(caseSensitive, lower);
    ghost var result := Replaced(fold, str, pattern, replacement);
    var left: string, used: nat := str, 0;
    ghost var out := "";
    replaced := false;
    while true
      invariant used == |out| <= buf.data.Length && buf.data[..used] == out
      invariant buf.data == old(buf.data) || fresh(buf.data)
      invariant if replaced then Occurs(fold, str, pattern) else left == str && out == ""
      invariant !replaced ==> buf.data == old(buf.data) && buf.data[..] == old(buf.data[..])
      invariant result == out + Replaced(fold, left, pattern, replacement)
      decreases |left|
    {
      ReplacedStep(fold, left, pattern, replacement);
      var found := Search(fold, left, pattern);
      if found.None? {
        if !replaced {
          return;
        }
        buf.Append(used, left + ['\0'], |left| + 1);
        assert out + (left + ['\0']) == result + ['\0'];
        return;
      }
      replaced := true;
      var unmatched := found.value;
      if unmatched != 0 {
        buf.Append(used, left[..unmatched], unmatched + 1);
        used := used + unmatched;
      }
      ghost var ahead := Replaced(fold, left[unmatched + |pattern|..], pattern, replacement);
      Assoc(out, left[..unmatched], replacement, ahead);
      out := out + left[..unmatched];
      assert buf.data[..used] == out;
      left := left[unmatched..];
      left := left[|pattern|..];
      if |replacement| != 0 {
        buf.Append(used, replacement, |replacement| + 1);
        used := used + |replacement|;
      }
      out := out + replacement;
    }
  }
}
