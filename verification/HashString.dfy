// The hash of the table's keys, hash_str of src/ht.c: two running sums over
// the little-endian 32-bit words of the key and then over its last bytes.

module HashString {
  const MD := 4294967291
  const TWO_32 := 0x1_0000_0000

  datatype Sums = Sums(a: nat, b: nat)

  function Byte(c: char): nat {
    c as int % 256
  }

  function Word(data: string, at: nat): nat
    requires at + 4 <= |data|
  {
    Byte(data[at]) + 256 * Byte(data[at + 1]) + 65536 * Byte(data[at + 2]) + 16777216 * Byte(data[at + 3])
  }

  function Add(s: Sums, x: nat): Sums {
    var a := (s.a + x) % MD;
    Sums(a, (s.b + a) % MD)
  }

  // The sums after the first n words.
  function AddWords(data: string, n: nat): Sums
    requires 4 * n <= |data|
  {
    if n == 0 then Sums(1, 0) else Add(AddWords(data, n - 1), Word(data, 4 * (n - 1)))
  }

  // The sums after all words and the bytes before position n.
  function AddBytes(data: string, n: nat): Sums
    requires 4 * (|data| / 4) <= n <= |data|
    decreases n
  {
    if n == 4 * (|data| / 4) then AddWords(data, |data| / 4)
    else Add(AddBytes(data, n - 1), Byte(data[n - 1]))
  }

  function HashStr(data: string): nat {
    var s := AddBytes(data, |data|);
    s.b * TWO_32 + s.a
  }

  method ComputeHashStr(data: string) returns (h: nat)
    ensures h == HashStr(data)
  {
    hide Word, AddBytes, AddWords;
    var a: nat, b: nat := 1, 0;
    var index := 0;
    NothingAdded(data);
    while index < |data| / 4
      invariant 0 <= index <= |data| / 4
      invariant Sums(a, b) == AddWords(data, index)
    {
      WordAdded(data, index);
      a := (a + Word(data, 4 * index)) % MD;
      b := (b + a) % MD;
      index := index + 1;
    }
    index := 4 * (|data| / 4);
    while index < |data|
      invariant 4 * (|data| / 4) <= index <= |data|
      invariant Sums(a, b) == AddBytes(data, index)
    {
      ByteAdded(data, index);
      a := (a + Byte(data[index])) % MD;
      b := (b + a) % MD;
      index := index + 1;
    }
    return b * TWO_32 + a;
  }

  lemma NothingAdded(data: string)
    ensures AddWords(data, 0) == Sums(1, 0)
    ensures AddBytes(data, 4 * (|data| / 4)) == AddWords(data, |data| / 4)
  {
  }

  lemma WordAdded(data: string, n: nat)
    requires n < |data| / 4
    ensures AddWords(data, n + 1) == Add(AddWords(data, n), Word(data, 4 * n))
  {
    hide Add, Word;
  }

  lemma ByteAdded(data: string, n: nat)
    requires 4 * (|data| / 4) <= n < |data|
    ensures AddBytes(data, n + 1) == Add(AddBytes(data, n), Byte(data[n]))
  {
    hide Add, AddWords;
  }

  // Which bucket a hash picks in a table of 1, 2, 4 or 8 buckets depends on its
  // low word alone.
  lemma LowWord(b: nat, a: nat, size: nat)
    requires size in {1, 2, 4, 8}
    ensures (b * TWO_32 + a) % size == a % size
  {
  }

  lemma HashOfX()
    ensures HashStr("x") == 121 * TWO_32 + 121 && HashStr("x") % 2 == 1
  {
    assert AddBytes("x", 0) == Sums(1, 0);
    assert AddBytes("x", 1) == Sums(121, 121);
    LowWord(121, 121, 2);
  }

  // One word and one byte: the first character is the lowest byte of the word.
  lemma HashOfFive()
    ensures HashStr("abcdx") == 3368469820 * TWO_32 + 1684234970
  {
    assert Word("abcdx", 0) == 97 + 256 * 98 + 65536 * 99 + 16777216 * 100 == 1684234849;
    assert AddWords("abcdx", 0) == Sums(1, 0);
    assert AddWords("abcdx", 1) == Sums(1684234850, 1684234850);
    assert AddBytes("abcdx", 4) == AddWords("abcdx", 1);
    assert AddBytes("abcdx", 5) == Sums(1684234970, 3368469820);
  }

  // A word of four bytes 255 is reduced modulo the prime.
  lemma HashWraps()
    ensures var c := 255 as char; HashStr([c, c, c, c]) == 5 * TWO_32 + 5
  {
    var c := 255 as char;
    var data := [c, c, c, c];
    assert Word(data, 0) == 4294967295;
    assert AddWords(data, 0) == Sums(1, 0);
    assert AddWords(data, 1) == Sums(5, 5);
    assert AddBytes(data, 4) == AddWords(data, 1);
  }
}
