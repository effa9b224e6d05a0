// csv_read_all (src/parse.c) in its own form: one buffer that grows by 1024,
// reads of at most 100 characters, NULs written over the separators, and a move
// of the unread rest to the front after every row.

module CsvReader {
  import opened CsvParse

  // The input stream: what it will deliver, and whether it then ends in a read
  // error instead of end-of-file.
  class Stream {
    const data: string
    const fails: bool
    var pos: nat
    var eof: bool

    constructor (data: string, fails: bool)
      ensures this.data == data && this.fails == fails && pos == 0 && !eof
    {
      this.data := data;
      this.fails := fails;
      pos := 0;
      eof := false;
    }

    // fread: short only at the end of the stream.
    method Fread(buf: array<char>, off: nat, nmemb: nat) returns (n: nat)
      requires pos <= |data| && off + nmemb <= buf.Length
      modifies this`pos, this`eof, buf
      ensures n == if nmemb <= |data| - old(pos) then nmemb else |data| - old(pos)
      ensures pos == old(pos) + n && pos <= |data|
      ensures eof == (old(eof) || (n < nmemb && !fails))
      ensures buf[..off] == old(buf[..off])
      ensures buf[off..off + n] == data[old(pos)..pos]
      ensures buf[off + n..] == old(buf[off + n..])
    {
      n := if nmemb <= |data| - pos then nmemb else |data| - pos;
      forall i | 0 <= i < n {
        buf[off + i] := data[pos + i];
      }
      pos := pos + n;
      if n < nmemb && !fails {
        eof := true;
      }
    }
  }

  // realloc to a larger size
  method Realloc(buf: array<char>, size: nat) returns (bigger: array<char>)
    requires buf.Length <= size
    ensures fresh(bigger) && bigger.Length == size && bigger[..buf.Length] == buf[..]
  {
    bigger := new char[size];
    forall k | 0 <= k < buf.Length {
      bigger[k] := buf[k];
    }
  }

  // memmove of the n characters at `from` to the front
  method Memmove(buf: array<char>, from: nat, n: nat)
    requires from + n <= buf.Length
    modifies buf
    ensures buf[..n] == old(buf[from..from + n])
  {
    forall k | 0 <= k < n {
      buf[k] := buf[from + k];
    }
  }

  const GROWTH := 1024
  const CHUNK := 100

  // ------------------------------------------------ what the buffer represents

  // The strings a callback sees: column j starts at offs[j] and ends at a NUL.
  function Strings(b: string, offs: seq<nat>): (r: Row)
    requires forall j :: 0 <= j < |offs| ==> offs[j] <= |b|
  {
    seq(|offs|, j requires 0 <= j < |offs| => CStr(b[offs[j]..]))
  }

  // A finished column: its text starts at lo, its NUL is at hi - 1.
  ghost predicate ColumnAt(b: string, lo: nat, hi: nat, text: string) {
    lo < hi <= |b| && b[hi - 1] == NUL && CStr(b[lo..hi - 1]) == text
  }

  // b is the part of the buffer read so far, i the position of the scan, offs
  // the column offsets of the columns begun so far.
  ghost predicate Represents(b: string, offs: seq<nat>, i: nat, m: Machine) {
    && |offs| == |m.fields| + 1
    && offs[0] == 0
    && i <= |b|
    && (forall j :: 0 <= j < |offs| ==> offs[j] <= i)
    && (forall j :: 0 <= j < |m.fields| ==> ColumnAt(b, offs[j], offs[j + 1], m.fields[j]))
    && b[offs[|offs| - 1]..i] == m.cur
  }

  lemma {:induction false} CStrStops(s: string, k: nat)
    requires k < |s| && s[k] == NUL
    ensures CStr(s) == CStr(s[..k])
    decreases k
  {
    if k > 0 && s[0] != NUL {
      CStrStops(s[1..], k - 1);
      assert s[1..][..k - 1] == s[..k][1..];
    }
  }

  // An ordinary character only extends the current field.
  lemma Extended(b: string, offs: seq<nat>, i: nat, m: Machine, m': Machine)
    requires Represents(b, offs, i, m) && i < |b|
    requires m'.fields == m.fields && m'.cur == m.cur + [b[i]]
    ensures Represents(b, offs, i + 1, m')
  {
    var o := offs[|offs| - 1];
    assert b[o..i + 1] == b[o..i] + [b[i]];
  }

  lemma ColumnKept(b: string, lo: nat, hi: nat, text: string, i: nat)
    requires ColumnAt(b, lo, hi, text) && hi <= i < |b|
    ensures ColumnAt(b[i := NUL], lo, hi, text)
  {
    assert b[i := NUL][lo..hi - 1] == b[lo..hi - 1];
  }

  // Writing NUL over a separator ends the current field ...
  lemma FieldEnded(b: string, offs: seq<nat>, i: nat, m: Machine, m': Machine)
    requires Represents(b, offs, i, m) && i < |b|
    requires m'.fields == m.fields + [CStr(m.cur)] && m'.cur == ""
    ensures Represents(b[i := NUL], offs + [i + 1], i + 1, m')
  {
    var b', offs' := b[i := NUL], offs + [i + 1];
    forall j | 0 <= j < |m'.fields|
      ensures ColumnAt(b', offs'[j], offs'[j + 1], m'.fields[j])
    {
      if j < |m.fields| {
        assert ColumnAt(b, offs[j], offs[j + 1], m.fields[j]);
        ColumnKept(b, offs[j], offs[j + 1], m.fields[j], i);
      } else {
        assert b'[offs[j]..i] == b[offs[j]..i];
      }
    }
  }

  // A column is what the C string at its offset reads.
  lemma ColumnRead(b: string, lo: nat, hi: nat, text: string)
    requires ColumnAt(b, lo, hi, text)
    ensures CStr(b[lo..]) == text
  {
    var s, k := b[lo..], hi - 1 - lo;
    assert s[k] == NUL && s[..k] == b[lo..hi - 1];
    CStrStops(s, k);
  }

  // ... and with the last one in place the callback sees the row.
  lemma RowSeen(b: string, offs: seq<nat>, i: nat, m: Machine)
    requires Represents(b, offs, i, m) && i < |b|
    ensures Strings(b[i := NUL], offs) == m.fields + [CStr(m.cur)]
  {
    var b', row := b[i := NUL], m.fields + [CStr(m.cur)];
    FieldEnded(b, offs, i, m, m.(fields := row, cur := ""));
    forall j | 0 <= j < |offs|
      ensures CStr(b'[offs[j]..]) == row[j]
    {
      assert ColumnAt(b', (offs + [i + 1])[j], (offs + [i + 1])[j + 1], row[j]);
      ColumnRead(b', (offs + [i + 1])[j], (offs + [i + 1])[j + 1], row[j]);
    }
  }

  // ------------------------------------------------------------------ csv_read_all

  // The machine after the first `done` characters.
  function After(n: nat, cb: Callback, data: string, done: nat): Machine
    requires done <= |data|
  {
    FeedAll(n, cb, START, data[..done])
  }

  lemma AfterNext(n: nat, cb: Callback, data: string, done: nat)
    requires done < |data|
    ensures After(n, cb, data, done + 1) == Feed(n, cb, After(n, cb, data, done), data[done])
  {
    assert data[..done + 1] == data[..done] + [data[done]];
    FeedAllSnoc(n, cb, START, data[..done], data[done]);
  }

  // Once stopped or corrupt, the rest of the stream does not matter.
  lemma AfterStopped(n: nat, cb: Callback, data: string, done: nat)
    requires done <= |data| && After(n, cb, data, done).status != Running
    ensures ParseAll(n, cb, data) == Outcome(After(n, cb, data, done).rows, After(n, cb, data, done).status)
  {
    assert data == data[..done] + data[done..];
    FeedAllCut(n, cb, START, data[..done], data[done..]);
    FeedAllStopped(n, cb, After(n, cb, data, done), data[done..]);
    MachineIsParser(n, cb, data);
  }

  // A failing stream only ever loses what its last, short read returned.
  ghost predicate ReadUpTo(n: nat, cb: Callback, data: string, rows: seq<Row>, k: nat) {
    && k <= |data| < k + CHUNK
    && ParseAll(n, cb, data[..k]) == Outcome(rows, Running)
  }

  // The two flags as the loop holds them: those of the machine, or already reset
  // because the character at hand shows that the quoted string is over.
  predicate FlagsOk(m: Machine, inQuoted: bool, lastQuot: bool, ch: char) {
    || (inQuoted == m.inQuoted && lastQuot == m.lastQuot)
    || (m.lastQuot && ch != '"' && !inQuoted && !lastQuot)
  }

  // The state of csv_read_all with the scan at position i: `done` characters of
  // the stream are parsed, b[i..] holds the unparsed ones up to `pos`.
  ghost predicate Scanned(n: nat, cb: Callback, data: string, done: nat, pos: nat,
                          b: string, offs: seq<nat>, i: nat, rows: seq<Row>)
  {
    && done + (|b| - i) == pos <= |data| && i <= |b|
    && var m := After(n, cb, data, done);
       && Sensible(m) && |m.fields| < n && rows == m.rows
       && Represents(b, offs, i, m)
       && b[i..] == data[done..pos]
  }

  // A character that only extends the current field.
  lemma PlainStep(n: nat, cb: Callback, data: string, done: nat, pos: nat,
                  b: string, offs: seq<nat>, i: nat, rows: seq<Row>, inQuoted: bool, lastQuot: bool)
    requires Scanned(n, cb, data, done, pos, b, offs, i, rows) && i < |b|
    requires FlagsOk(After(n, cb, data, done), inQuoted, lastQuot, b[i])
    requires if lastQuot then b[i] == '"'
             else inQuoted || (!EndsField(b[i]) && (b[i] == '"' ==> i == offs[|offs| - 1]))
    ensures Scanned(n, cb, data, done + 1, pos, b, offs, i + 1, rows)
    ensures After(n, cb, data, done + 1).inQuoted == (inQuoted || b[i] == '"')
    ensures After(n, cb, data, done + 1).lastQuot == (inQuoted && !lastQuot && b[i] == '"')
  {
    var m := After(n, cb, data, done);
    assert b[i] == b[i..][0] == data[done];
    AfterNext(n, cb, data, done);
    Extended(b, offs, i, m, After(n, cb, data, done + 1));
    assert b[i + 1..] == b[i..][1..] == data[done + 1..pos];
  }

  // The end of a column that is not the last one.
  lemma ColumnStep(n: nat, cb: Callback, data: string, done: nat, pos: nat,
                   b: string, offs: seq<nat>, i: nat, rows: seq<Row>)
    requires Scanned(n, cb, data, done, pos, b, offs, i, rows) && i < |b|
    requires FlagsOk(After(n, cb, data, done), false, false, b[i])
    requires EndsField(b[i]) && |offs| < n
    ensures Scanned(n, cb, data, done + 1, pos, b[i := NUL], offs + [i + 1], i + 1, rows)
    ensures !After(n, cb, data, done + 1).inQuoted && !After(n, cb, data, done + 1).lastQuot
  {
    var m := After(n, cb, data, done);
    assert b[i] == b[i..][0] == data[done];
    AfterNext(n, cb, data, done);
    FieldEnded(b, offs, i, m, After(n, cb, data, done + 1));
    assert b[i := NUL][i + 1..] == b[i..][1..] == data[done + 1..pos];
  }

  // The end of the last column: the callback sees the machine's row; if it goes
  // on, the unread rest is all that matters.
  lemma RowStep(n: nat, cb: Callback, data: string, done: nat, pos: nat,
                b: string, offs: seq<nat>, i: nat, rows: seq<Row>)
    requires Scanned(n, cb, data, done, pos, b, offs, i, rows) && i < |b|
    requires FlagsOk(After(n, cb, data, done), false, false, b[i])
    requires EndsField(b[i]) && |offs| == n
    ensures forall j :: 0 <= j < |offs| ==> offs[j] <= |b|
    ensures var rows' := rows + [Strings(b[i := NUL], offs)];
            if cb(rows') then ParseAll(n, cb, data) == Outcome(rows', Stopped)
            else
              && Scanned(n, cb, data, done + 1, pos, b[i + 1..], [0], 0, rows')
              && !After(n, cb, data, done + 1).inQuoted && !After(n, cb, data, done + 1).lastQuot
  {
    var m := After(n, cb, data, done);
    assert b[i] == b[i..][0] == data[done];
    AfterNext(n, cb, data, done);
    RowSeen(b, offs, i, m);
    assert b[i + 1..] == b[i..][1..] == data[done + 1..pos];
    if After(n, cb, data, done + 1).status != Running {
      AfterStopped(n, cb, data, done + 1);
    }
  }

  // A quote in the middle of an unquoted string.
  lemma CorruptStep(n: nat, cb: Callback, data: string, done: nat, pos: nat,
                    b: string, offs: seq<nat>, i: nat, rows: seq<Row>)
    requires Scanned(n, cb, data, done, pos, b, offs, i, rows) && i < |b|
    requires FlagsOk(After(n, cb, data, done), false, false, b[i])
    requires b[i] == '"' && i != offs[|offs| - 1]
    ensures ParseAll(n, cb, data) == Outcome(rows, Corrupt)
  {
    assert b[i] == b[i..][0] == data[done];
    AfterNext(n, cb, data, done);
    AfterStopped(n, cb, data, done + 1);
  }

  // Appending what was read keeps the parsed part.
  lemma ReadKeeps(n: nat, cb: Callback, data: string, pos: nat, b: string, b': string, offs: seq<nat>,
                  rows: seq<Row>, pos': nat)
    requires Scanned(n, cb, data, pos, pos, b, offs, |b|, rows)
    requires pos <= pos' <= |data| && b' == b + data[pos..pos']
    ensures Scanned(n, cb, data, pos, pos', b', offs, |b|, rows)
  {
    var m := After(n, cb, data, pos);
    forall j | 0 <= j < |m.fields|
      ensures ColumnAt(b', offs[j], offs[j + 1], m.fields[j])
    {
      assert ColumnAt(b, offs[j], offs[j + 1], m.fields[j]);
      assert b'[offs[j]..offs[j + 1] - 1] == b[offs[j]..offs[j + 1] - 1];
    }
    assert b'[offs[|offs| - 1]..|b|] == b[offs[|offs| - 1]..|b|];
  }

  lemma NothingParsed(n: nat, cb: Callback, data: string, b: string, offs: seq<nat>)
    requires 1 <= n && b == "" && offs == [0]
    ensures Scanned(n, cb, data, 0, 0, b, offs, 0, [])
    ensures !After(n, cb, data, 0).inQuoted && !After(n, cb, data, 0).lastQuot
  {}

  lemma AllParsed(n: nat, cb: Callback, data: string, pos: nat, b: string, offs: seq<nat>, rows: seq<Row>)
    requires Scanned(n, cb, data, pos, pos, b, offs, |b|, rows)
    ensures ParseAll(n, cb, data[..pos]) == Outcome(rows, Running)
  {
    MachineIsParser(n, cb, data[..pos]);
  }

  // The separator after a column that is not the last one (lines 210-211, 223-227).
  method EndColumn(buf: array<char>, colOffs: array<nat>, n: nat, cb: Callback, i: nat, ready: nat, column: nat,
                   rows: seq<Row>, ghost data: string, ghost done: nat, ghost pos: nat)
    requires i < ready <= buf.Length && column + 1 < n == colOffs.Length
    requires done + (ready - i) == pos <= |data|
    requires Scanned(n, cb, data, done, pos, buf[..ready], colOffs[..column + 1], i, rows)
    requires FlagsOk(After(n, cb, data, done), false, false, buf[i]) && EndsField(buf[i])
    modifies buf, colOffs
    ensures colOffs[0] == old(colOffs[0])
    ensures Scanned(n, cb, data, done + 1, pos, buf[..ready], colOffs[..column + 2], i + 1, rows)
    ensures !After(n, cb, data, done + 1).inQuoted && !After(n, cb, data, done + 1).lastQuot
  {
    hide Scanned, After;
    ghost var b, offs := buf[..ready], colOffs[..column + 1];
    ColumnStep(n, cb, data, done, pos, b, offs, i, rows);
    buf[i] := NUL;
    assert buf[..ready] == b[i := NUL];
    colOffs[column + 1] := i + 1;
    assert colOffs[..column + 2] == offs + [i + 1];
  }

  // The separator after the last column (lines 210-222): hand the row to the
  // callback, then move the unread rest to the front.
  method EndRow(buf: array<char>, colOffs: array<nat>, n: nat, cb: Callback, i: nat, ready: nat,
                rows: seq<Row>, ghost data: string, ghost done: nat, ghost pos: nat)
    returns (stop: bool, rows': seq<Row>)
    requires i < ready <= buf.Length && 1 <= n == colOffs.Length && colOffs[0] == 0
    requires done + (ready - i) == pos <= |data|
    requires Scanned(n, cb, data, done, pos, buf[..ready], colOffs[..], i, rows)
    requires FlagsOk(After(n, cb, data, done), false, false, buf[i]) && EndsField(buf[i])
    modifies buf
    ensures stop ==> ParseAll(n, cb, data) == Outcome(rows', Stopped)
    ensures !stop ==>
              && Scanned(n, cb, data, done + 1, pos, buf[..ready - i - 1], colOffs[..1], 0, rows')
              && !After(n, cb, data, done + 1).inQuoted && !After(n, cb, data, done + 1).lastQuot
  {
    hide Scanned, After, ParseAll;
    ghost var b := buf[..ready];
    RowStep(n, cb, data, done, pos, b, colOffs[..], i, rows);
    buf[i] := NUL;
    assert buf[..ready] == b[i := NUL];
    rows' := rows + [Strings(buf[..ready], colOffs[..])];
    stop := cb(rows');
    if !stop {
      Memmove(buf, i + 1, ready - i - 1);
      assert buf[..ready - i - 1] == b[i + 1..];
      assert colOffs[..1] == [0];
    }
  }

  // The inner loop: parse buf[start..ready].  It stops early with the return
  // value of csv_read_all, or leaves everything parsed.
  method Scan(buf: array<char>, colOffs: array<nat>, nheaders: nat, cb: Callback, start: nat, ready0: nat,
              column0: nat, inQuoted0: bool, lastQuot0: bool, rows0: seq<Row>,
              ghost data: string, ghost done0: nat, ghost pos: nat)
    returns (over: bool, ret: int, ready: nat, column: nat, inQuoted: bool, lastQuot: bool, rows: seq<Row>)
    requires start <= ready0 <= buf.Length && column0 < nheaders == colOffs.Length
    requires colOffs[0] == 0 && done0 + (ready0 - start) == pos <= |data|
    requires Scanned(nheaders, cb, data, done0, pos, buf[..ready0], colOffs[..column0 + 1], start, rows0)
    requires lastQuot0 ==> inQuoted0
    requires inQuoted0 == After(nheaders, cb, data, done0).inQuoted
    requires lastQuot0 == After(nheaders, cb, data, done0).lastQuot
    modifies buf, colOffs
    ensures over ==> ret != 0
                     && ParseAll(nheaders, cb, data).rows == rows
                     && ReturnCode(ParseAll(nheaders, cb, data).status) == ret
    ensures !over ==>
              && ready <= buf.Length && column < nheaders && colOffs[0] == 0 && (lastQuot ==> inQuoted)
              && Scanned(nheaders, cb, data, pos, pos, buf[..ready], colOffs[..column + 1], ready, rows)
              && inQuoted == After(nheaders, cb, data, pos).inQuoted
              && lastQuot == After(nheaders, cb, data, pos).lastQuot
  {
    hide Scanned, After, ParseAll, Sensible;
    var i: nat := start;
    ready, column, inQuoted, lastQuot, rows := ready0, column0, inQuoted0, lastQuot0, rows0;
    ghost var done: nat := done0;
    while i < ready
      invariant i <= ready <= buf.Length && column < nheaders && done + (ready - i) == pos
      invariant colOffs[0] == 0
      invariant Scanned(nheaders, cb, data, done, pos, buf[..ready], colOffs[..column + 1], i, rows)
      invariant lastQuot ==> inQuoted
      invariant i < ready ==> FlagsOk(After(nheaders, cb, data, done), inQuoted, lastQuot, buf[i])
      invariant i == ready ==> inQuoted == After(nheaders, cb, data, done).inQuoted
                               && lastQuot == After(nheaders, cb, data, done).lastQuot
      decreases 2 * (ready - i) + if lastQuot then 1 else 0
    {
      ghost var b, offs := buf[..ready], colOffs[..column + 1];
      assert buf[i] == b[i];
      assert colOffs[column] == offs[|offs| - 1];
      if lastQuot {
        if buf[i] == '"' {
          // this quote was escaped
          PlainStep(nheaders, cb, data, done, pos, b, offs, i, rows, inQuoted, lastQuot);
          lastQuot := false;
          i, done := i + 1, done + 1;
        } else {
          // the previous quote ended the string; look at the same character again
          lastQuot, inQuoted := false, false;
        }
      } else if inQuoted {
        PlainStep(nheaders, cb, data, done, pos, b, offs, i, rows, inQuoted, lastQuot);
        if buf[i] == '"' {
          lastQuot := true;
        }
        i, done := i + 1, done + 1;
      } else if buf[i] == ',' || buf[i] == '\n' {
        if column + 1 == nheaders {
          assert colOffs[..] == offs;
          var stop;
          stop, rows := EndRow(buf, colOffs, nheaders, cb, i, ready, rows, data, done, pos);
          if stop {
            return true, 1, ready, column, inQuoted, lastQuot, rows;
          }
          ready := ready - i - 1;
          i, column := 0, 0;
        } else {
          EndColumn(buf, colOffs, nheaders, cb, i, ready, column, rows, data, done, pos);
          i, column := i + 1, column + 1;
        }
        done := done + 1;
      } else if buf[i] == '"' {
        if i != colOffs[column] {
          CorruptStep(nheaders, cb, data, done, pos, b, offs, i, rows);
          return true, -1, ready, column, inQuoted, lastQuot, rows;
        }
        PlainStep(nheaders, cb, data, done, pos, b, offs, i, rows, inQuoted, lastQuot);
        inQuoted := true;
        i, done := i + 1, done + 1;
      } else {
        PlainStep(nheaders, cb, data, done, pos, b, offs, i, rows, inQuoted, lastQuot);
        i, done := i + 1, done + 1;
      }
    }
    over, ret := false, 0;
  }

  // Make room if the buffer is full, then read at most CHUNK more characters
  // (lines 252-274).
  method ReadMore(stream: Stream, buf: array<char>, ready: nat)
    returns (buf': array<char>, readin: nat, short: bool)
    requires stream.pos <= |stream.data| && ready <= buf.Length
    modifies stream`pos, stream`eof, buf
    ensures buf' == buf || fresh(buf')
    ensures ready + readin <= buf'.Length == if ready == buf.Length then buf.Length + 1024 else buf.Length
    ensures readin <= 100 && (short || readin == 100 || ready + readin == buf'.Length)
    ensures stream.pos == old(stream.pos) + readin <= |stream.data|
    ensures stream.eof == (old(stream.eof) || (short && !stream.fails))
    ensures short ==> stream.pos == |stream.data| && readin < CHUNK
    ensures !short ==> readin > 0
    ensures buf'[..ready + readin] == old(buf[..ready]) + stream.data[old(stream.pos)..stream.pos]
  {
    ghost var b := buf[..ready];
    buf' := buf;
    if ready == buf.Length {
      buf' := Realloc(buf, buf.Length + GROWTH);
      assert buf'[..ready] == b;
    }
    var nmemb := buf'.Length - ready;
    if nmemb > CHUNK {
      nmemb := CHUNK;
    }
    readin := stream.Fread(buf', ready, nmemb);
    short := readin < nmemb;
    assert buf'[..ready + readin] == buf'[..ready] + buf'[ready..ready + readin];
  }

  method ReadAll(stream: Stream, nheaders: nat, cb: Callback) returns (ret: int, rows: seq<Row>)
    requires stream.pos == 0 && !stream.eof && 1 <= nheaders
    modifies stream
    ensures var o := ParseAll(nheaders, cb, stream.data);
            || (rows == o.rows && ret == ReturnCode(o.status) && (stream.fails ==> ret != 0))
            || (stream.fails && ret == -1 && exists k: nat :: ReadUpTo(nheaders, cb, stream.data, rows, k))
  {
    hide Scanned, After, ParseAll;
    var colOffs := new nat[nheaders](_ => 0);
    var buf := new char[0];
    var ready: nat, startOff: nat, column: nat := 0, 0, 0;
    var eof, inQuoted, lastQuot := false, false, false;
    rows := [];
    ghost var data := stream.data;
    NothingParsed(nheaders, cb, data, buf[..ready], colOffs[..column + 1]);

    while true
      invariant fresh(buf) && fresh(colOffs) && colOffs.Length == nheaders && colOffs[0] == 0 && (lastQuot ==> inQuoted)
      invariant eof == stream.eof && (eof ==> stream.pos == |data| && !stream.fails)
      invariant startOff <= ready <= buf.Length && column < nheaders && ready - startOff <= stream.pos <= |data|
      invariant var done := stream.pos - (ready - startOff);
                && Scanned(nheaders, cb, data, done, stream.pos, buf[..ready], colOffs[..column + 1], startOff, rows)
                && inQuoted == After(nheaders, cb, data, done).inQuoted
                && lastQuot == After(nheaders, cb, data, done).lastQuot
      decreases !eof, |data| - stream.pos
    {
      ghost var pos := stream.pos;
      var over;
      over, ret, ready, column, inQuoted, lastQuot, rows :=
        Scan(buf, colOffs, nheaders, cb, startOff, ready, column, inQuoted, lastQuot, rows,
             data, pos - (ready - startOff), pos);
      if over {
        return ret, rows;
      }
      ghost var b, offs := buf[..ready], colOffs[..column + 1];
      AllParsed(nheaders, cb, data, pos, b, offs, rows);
      if eof {
        assert data[..pos] == data;
        return 0, rows;
      }

      var readin, short;
      buf, readin, short := ReadMore(stream, buf, ready);
      if short {
        if !stream.eof {
          assert ReadUpTo(nheaders, cb, data, rows, pos);
          return -1, rows;
        }
        eof := true;
      }
      startOff := ready;
      ready := ready + readin;
      assert colOffs[..column + 1] == offs && pos == stream.pos - (ready - startOff);
      ReadKeeps(nheaders, cb, data, pos, b, buf[..ready], offs, rows, stream.pos);
    }
  }
}
