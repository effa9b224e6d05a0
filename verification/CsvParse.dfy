// What csv_read_all (src/parse.c) accepts, twice: as a recursive-descent
// reference with one character of lookahead, and as the resumable machine that
// keeps its position in two quote flags.  The two agree on every stream.

module CsvParse {

  type Row = seq<string>

  const NUL := '\0'

  predicate EndsField(ch: char) { ch == ',' || ch == '\n' }

  // The C string that starts a buffer: everything before the first NUL.
  function CStr(s: string): (r: string)
    ensures |r| <= |s| && r == s[..|r|] && NUL !in r
    ensures |r| < |s| ==> s[|r|] == NUL
  {
    if s == "" || s[0] == NUL then "" else [s[0]] + CStr(s[1..])
  }

  // A callback answers each row with "stop" or "go on"; it may depend on all the
  // rows it has been given so far.
  type Callback = seq<Row> -> bool

  datatype Status = Running | Stopped | Corrupt

  // The return value of csv_read_all for a stream that ends without a read error.
  function ReturnCode(s: Status): int {
    match s
    case Running => 0
    case Stopped => 1
    case Corrupt => -1
  }

  // ----------------------------------------------------------------- reference

  datatype FieldResult = Field(raw: string, rest: string) | Partial | Bad

  // The rest of a field whose text so far is `acc`, outside quotes.
  function Unquoted(acc: string, data: string): (f: FieldResult)
    decreases |data|, 1
    ensures f.Field? ==> |f.rest| < |data|
  {
    if data == "" then Partial
    else if EndsField(data[0]) then Field(acc, data[1..])
    else if data[0] == '"' then
      if acc == "" then InQuotes("\"", data[1..]) else Bad
    else Unquoted(acc + [data[0]], data[1..])
  }

  // The same inside quotes: a doubled quote stays inside, a single one leaves.
  function InQuotes(acc: string, data: string): (f: FieldResult)
    decreases |data|, 0
    ensures f.Field? ==> |f.rest| < |data|
  {
    if data == "" then Partial
    else if data[0] != '"' then InQuotes(acc + [data[0]], data[1..])
    else if |data| == 1 then Partial
    else if data[1] == '"' then InQuotes(acc + "\"\"", data[2..])
    else Unquoted(acc + "\"", data[1..])
  }

  datatype Outcome = Outcome(rows: seq<Row>, status: Status)

  // A row is n fields, whatever ends each of them; an unfinished last row is
  // dropped.  `fields` is the row begun, `rows` the rows already delivered.
  function Rows(n: nat, cb: Callback, rows: seq<Row>, fields: Row, data: string): Outcome
    decreases |data|, 1
  {
    FieldThenRows(n, cb, rows, fields, data, Unquoted("", data))
  }

  function FieldThenRows(n: nat, cb: Callback, rows: seq<Row>, fields: Row, data: string, f: FieldResult): Outcome
    requires f.Field? ==> |f.rest| < |data|
    decreases |data|, 0
  {
    match f
    case Partial => Outcome(rows, Running)
    case Bad => Outcome(rows, Corrupt)
    case Field(raw, rest) =>
      var row := fields + [CStr(raw)];
      if |row| != n then Rows(n, cb, rows, row, rest)
      else if cb(rows + [row]) then Outcome(rows + [row], Stopped)
      else Rows(n, cb, rows + [row], [], rest)
  }

  function ParseAll(n: nat, cb: Callback, data: string): Outcome {
    Rows(n, cb, [], [], data)
  }

  // ------------------------------------------------------------------- machine

  // The variables of csv_read_all that outlive one read, as values: the fields
  // of the current row, the text of the current field and the two flags.
  datatype Machine = Machine(
    fields: Row, cur: string, inQuoted: bool, lastQuot: bool, rows: seq<Row>, status: Status)

  const START := Machine([], "", false, false, [], Running)

  function Feed(n: nat, cb: Callback, m: Machine, ch: char): Machine {
    if m.status != Running then m
    else if m.lastQuot && ch == '"' then m.(cur := m.cur + [ch], lastQuot := false)
    else if m.inQuoted && !m.lastQuot then m.(cur := m.cur + [ch], lastQuot := ch == '"')
    else FeedPlain(n, cb, m.(inQuoted := false, lastQuot := false), ch)
  }

  function FeedPlain(n: nat, cb: Callback, m: Machine, ch: char): Machine {
    if EndsField(ch) then
      var row := m.fields + [CStr(m.cur)];
      if |row| != n then m.(fields := row, cur := "")
      else Machine([], "", false, false, m.rows + [row], if cb(m.rows + [row]) then Stopped else Running)
    else if ch == '"' then
      if m.cur != "" then m.(status := Corrupt) else m.(cur := "\"", inQuoted := true)
    else m.(cur := m.cur + [ch])
  }

  function FeedAll(n: nat, cb: Callback, m: Machine, data: string): Machine
    decreases |data|
  {
    if data == "" then m else FeedAll(n, cb, Feed(n, cb, m, data[0]), data[1..])
  }

  // Cutting the stream anywhere makes no difference.
  lemma {:induction false} FeedAllCut(n: nat, cb: Callback, m: Machine, a: string, b: string)
    ensures FeedAll(n, cb, m, a + b) == FeedAll(n, cb, FeedAll(n, cb, m, a), b)
    decreases |a|
  {
    if a == "" {
      assert a + b == b;
    } else {
      assert (a + b)[1..] == a[1..] + b;
      FeedAllCut(n, cb, Feed(n, cb, m, a[0]), a[1..], b);
    }
  }

  lemma FeedAllSnoc(n: nat, cb: Callback, m: Machine, a: string, ch: char)
    ensures FeedAll(n, cb, m, a + [ch]) == Feed(n, cb, FeedAll(n, cb, m, a), ch)
  {
    FeedAllCut(n, cb, m, a, [ch]);
  }

  // A machine that has stopped stays as it is.
  lemma {:induction false} FeedAllStopped(n: nat, cb: Callback, m: Machine, data: string)
    requires m.status != Running
    ensures FeedAll(n, cb, m, data) == m
  {
    if data != "" {
      FeedAllStopped(n, cb, m, data[1..]);
    }
  }

  // -------------------------------------------------- the machine is the parser

  ghost predicate Sensible(m: Machine) {
    && m.status == Running
    && (m.lastQuot ==> m.inQuoted)
    && (m.inQuoted ==> m.cur != "")
  }

  // How the reference continues from a machine state.
  function Remaining(m: Machine, data: string): (f: FieldResult)
    ensures f.Field? ==> |f.rest| < |data|
  {
    if !m.inQuoted then Unquoted(m.cur, data)
    else if !m.lastQuot then InQuotes(m.cur, data)
    else if data == "" then Partial
    else if data[0] == '"' then InQuotes(m.cur + "\"", data[1..])
    else Unquoted(m.cur, data)
  }

  lemma RemainingStep(n: nat, cb: Callback, m: Machine, data: string)
    requires Sensible(m) && data != ""
    ensures var m' := Feed(n, cb, m, data[0]);
            if EndsField(data[0]) && (!m.inQuoted || m.lastQuot) then
              Remaining(m, data) == Field(m.cur, data[1..])
            else if m'.status == Corrupt then Remaining(m, data) == Bad && m'.rows == m.rows
            else
              && Sensible(m') && m'.fields == m.fields && m'.rows == m.rows
              && Remaining(m, data) == Remaining(m', data[1..])
  {
    if m.inQuoted && !m.lastQuot && data[0] == '"' && |data| > 1 && data[1] == '"' {
      assert m.cur + "\"\"" == m.cur + ['"'] + "\"";
      assert data[1..][1..] == data[2..];
    }
  }

  lemma {:induction false} MachineFrom(n: nat, cb: Callback, m: Machine, data: string)
    requires Sensible(m)
    ensures var e := FeedAll(n, cb, m, data);
            Outcome(e.rows, e.status) == FieldThenRows(n, cb, m.rows, m.fields, data, Remaining(m, data))
    decreases |data|
  {
    if data != "" {
      var m' := Feed(n, cb, m, data[0]);
      RemainingStep(n, cb, m, data);
      if m'.status != Running {
        FeedAllStopped(n, cb, m', data[1..]);
      } else {
        MachineFrom(n, cb, m', data[1..]);
      }
    }
  }

  // The machine delivers exactly the rows and the status of the reference.
  lemma MachineIsParser(n: nat, cb: Callback, data: string)
    ensures var e := FeedAll(n, cb, START, data);
            Outcome(e.rows, e.status) == ParseAll(n, cb, data)
  {
    MachineFrom(n, cb, START, data);
  }

  // ---------------------------------------------------------------- the return code

  // A quote comes where an unquoted field has already begun.
  ghost predicate StrayQuote(n: nat, cb: Callback, data: string, k: nat) {
    k < |data| && data[k] == '"' &&
    var m := FeedAll(n, cb, START, data[..k]);
    m.status == Running && m.cur != "" && !m.inQuoted
  }

  lemma {:induction false} StatusMeans(n: nat, cb: Callback, data: string)
    ensures var m := FeedAll(n, cb, START, data);
            && (m.status == Running ==> Sensible(m))
            && (m.status == Stopped <==> m.rows != [] && cb(m.rows))
            && (m.status == Corrupt <==> exists k: nat :: StrayQuote(n, cb, data, k))
    decreases |data|
  {
    hide Feed;
    if data != "" {
      var last := |data| - 1;
      var earlier, ch := data[..last], data[last];
      var m := FeedAll(n, cb, START, earlier);
      assert data == earlier + [ch];
      FeedAllSnoc(n, cb, START, earlier, ch);
      StatusMeans(n, cb, earlier);
      FeedStatus(n, cb, m, ch);
      forall k: nat | k < last
        ensures StrayQuote(n, cb, data, k) == StrayQuote(n, cb, earlier, k)
      {
        assert data[..k] == earlier[..k];
      }
      assert StrayQuote(n, cb, data, last) <==> m.status == Running && ch == '"' && m.cur != "" && !m.inQuoted;
    }
  }

  lemma FeedStatus(n: nat, cb: Callback, m: Machine, ch: char)
    requires m.status == Running ==> Sensible(m)
    requires m.status == Stopped <==> m.rows != [] && cb(m.rows)
    ensures var f := Feed(n, cb, m, ch);
            && (f.status == Running ==> Sensible(f))
            && (f.status == Stopped <==> f.rows != [] && cb(f.rows))
            && (f.status == Corrupt <==>
                m.status == Corrupt || (m.status == Running && ch == '"' && m.cur != "" && !m.inQuoted))
  {
  }

  // The return code for a stream read to its end: 1 if the callback stopped at
  // the last row delivered, -1 if a quote came inside an unquoted field, else 0.
  lemma ReturnCodeMeans(n: nat, cb: Callback, data: string)
    ensures var o := ParseAll(n, cb, data);
            ReturnCode(o.status) ==
            if o.rows != [] && cb(o.rows) then 1
            else if exists k: nat :: StrayQuote(n, cb, data, k) then -1
            else 0
  {
    hide Feed, ParseAll;
    MachineIsParser(n, cb, data);
    StatusMeans(n, cb, data);
  }
}
