// csv_print_quoted and csv_unquot (src/utils.c), and the round trip through the
// parser: printing rows, parsing the text and unquoting gives the rows back.

module CsvPrint {
  import opened CsvParse
  import opened Wrappers

  // ------------------------------------------------------------------- quoting

  // strnchr: the first c, unless a NUL comes first.
  function Strnchr(s: string, c: char): (r: Option<nat>)
    requires c != NUL
    ensures r.Some? <==> c in CStr(s)
    ensures r.Some? ==> r.value < |CStr(s)| && s[r.value] == c && c !in s[..r.value]
  {
    if s == "" || s[0] == NUL then None
    else if s[0] == c then Some(0)
    else
      match Strnchr(s[1..], c)
      case None => None
      case Some(k) => Some(k + 1)
  }

  predicate NeedsQuotes(s: string) { ',' in s || '\n' in s || '"' in s }

  // Quotes before the first NUL are doubled, what follows it is copied.
  function Double(s: string): string {
    if s == "" || s[0] == NUL then s
    else (if s[0] == '"' then "\"\"" else [s[0]]) + Double(s[1..])
  }

  function Quote(s: string): string {
    if NeedsQuotes(CStr(s)) then "\"" + Double(s) + "\"" else s
  }

  lemma {:induction false} DoublePlain(s: string)
    requires '"' !in CStr(s)
    ensures Double(s) == s
  {
    if s != "" && s[0] != NUL {
      assert CStr(s)[1..] == CStr(s[1..]);
      DoublePlain(s[1..]);
    }
  }

  // Copying up to and including the first quote, and doubling that one.
  lemma {:induction false} DoubleStep(s: string, k: nat)
    requires Strnchr(s, '"') == Some(k)
    ensures Double(s) == s[..k + 1] + (['"'] + Double(s[k + 1..]))
    decreases |s|
  {
    hide CStr;
    var d := ['"'] + Double(s[k + 1..]);
    if k == 0 {
      assert s[..1] == ['"'];
      assert ['"'] + ['"'] == "\"\"";
      Assoc(['"'], ['"'], Double(s[1..]));
    } else {
      DoubleStep(s[1..], k - 1);
      assert s[1..][k..] == s[k + 1..];
      Assoc([s[0]], s[1..][..k], d);
      assert [s[0]] + s[1..][..k] == s[..k + 1];
    }
  }

  lemma Assoc(a: string, b: string, c: string)
    ensures a + (b + c) == a + b + c
  {}

  // csv_print_quoted; `out` is what it writes.
  method PrintQuoted(str: string) returns (out: string)
    ensures out == Quote(str)
  {
    hide Double;
    var comma, nl, quot := Strnchr(str, ','), Strnchr(str, '\n'), Strnchr(str, '"');
    if comma.None? && nl.None? && quot.None? {
      return str;
    }
    out := "\"";
    if quot.None? {
      DoublePlain(str);
      out := out + str + "\"";
      return;
    }
    var rest := str;
    while quot.Some?
      invariant quot == Strnchr(rest, '"')
      invariant "\"" + Double(str) == out + Double(rest)
      decreases |rest|
    {
      var curlen := quot.value + 1;
      DoubleStep(rest, quot.value);
      Assoc(out, rest[..curlen], ['"'] + Double(rest[curlen..]));
      Assoc(out + rest[..curlen], ['"'], Double(rest[curlen..]));
      out := out + rest[..curlen];
      rest := rest[curlen..];
      out := out + ['"'];
      quot := Strnchr(rest, '"');
    }
    DoublePlain(rest);
    out := out + rest;
    out := out + "\"";
  }

  // ------------------------------------------------------------------ unquoting

  predicate IsQuoted(s: string) { s != "" && s[0] == '"' && s[|s| - 1] == '"' }

  function Undouble(s: string): string {
    if s == "" then ""
    else if s[0] == '"' && |s| > 1 then [s[0]] + Undouble(s[2..])
    else [s[0]] + Undouble(s[1..])
  }

  // csv_unquot; None stands for its abort on a string that is not quoted.
  method Unquot(str: string) returns (r: Option<string>)
    ensures r.Some? <==> IsQuoted(str)
    ensures r.Some? ==> r.value == Undouble(Inner(str))
  {
    hide Undouble, UndoubleFrom;
    var len := |str|;
    if len == 0 || str[0] != '"' || str[len - 1] != '"' {
      return None;
    }
    var n := new char[len];
    var idx := 0;
    var i := 1;
    UndoubleEnds(Inner(str), 0);
    assert n[..0] == "";
    while i < len - 1
      invariant 1 <= i && idx < i
      invariant idx < len
      invariant Undouble(Inner(str)) == n[..idx] + UndoubleFrom(Inner(str), i - 1)
    {
      UndoubleStep(Inner(str), i - 1);
      ghost var before := n[..idx];
      n[idx] := str[i];
      idx := idx + 1;
      assert n[..idx] == before + [str[i]];
      Assoc(before, [str[i]], UndoubleFrom(Inner(str), if str[i] == '"' then i + 1 else i));
      if str[i] == '"' {
        i := i + 1;
      }
      i := i + 1;
    }
    n[idx] := NUL;
    UndoubleEnds(Inner(str), i - 1);
    assert n[..idx] + "" == n[..idx];
    return Some(n[..idx]);
  }

  function Inner(str: string): string {
    if |str| < 2 then "" else str[1..|str| - 1]
  }

  function UndoubleFrom(s: string, k: nat): string {
    if k < |s| then Undouble(s[k..]) else ""
  }

  lemma UndoubleEnds(s: string, k: nat)
    ensures UndoubleFrom(s, 0) == Undouble(s)
    ensures k >= |s| ==> UndoubleFrom(s, k) == ""
  {
    assert s[0..] == s;
  }

  lemma UndoubleStep(s: string, k: nat)
    requires k < |s|
    ensures UndoubleFrom(s, k) == [s[k]] + UndoubleFrom(s, if s[k] == '"' then k + 2 else k + 1)
  {
    var t := s[k..];
    if s[k] == '"' && k + 1 < |s| {
      assert t[2..] == s[k + 2..];
      assert Undouble(t) == [s[k]] + Undouble(s[k + 2..]);
      NothingLeft(s, k + 2);
    } else {
      assert t[1..] == s[k + 1..];
      assert Undouble(t) == [s[k]] + Undouble(s[k + 1..]);
      NothingLeft(s, k + 1);
    }
  }

  lemma NothingLeft(s: string, k: nat)
    requires k <= |s|
    ensures UndoubleFrom(s, k) == Undouble(s[k..])
  {
  }

  // Doubling, character by character.
  lemma {:induction false} DoubleLaws(a: string, b: string, c: char)
    requires NUL !in a && c != NUL
    ensures Double(a + b) == Double(a) + Double(b)
    ensures Double([c]) == if c == '"' then "\"\"" else [c]
    decreases |a|
  {
    if a == "" {
      assert a + b == b;
    } else {
      DoubleLaws(a[1..], b, c);
      assert (a + b)[1..] == a[1..] + b;
    }
  }

  // What is printed for a field: the field itself if it has no comma, newline or
  // quote, else the field with its quotes doubled between quotes.
  lemma QuoteMeans(s: string)
    requires NUL !in s
    ensures ',' !in s && '\n' !in s && '"' !in s ==> Quote(s) == s
    ensures ',' in s || '\n' in s || '"' in s ==> Quote(s) == "\"" + Double(s) + "\""
  {
    CStrWhole(s);
  }

  // Unquoting copies up to and including a quote and drops the character after it.
  lemma {:induction false} UndoubleLaws(a: string, c: char, b: string)
    requires '"' !in a
    ensures Undouble(a) == a && Undouble(a + ['"', c] + b) == a + ['"'] + Undouble(b)
    decreases |a|
  {
    var s := a + ['"', c] + b;
    if a == "" {
      assert s[2..] == b;
    } else {
      UndoubleLaws(a[1..], c, b);
      assert s[1..] == a[1..] + ['"', c] + b;
      assert a == [a[0]] + a[1..];
    }
  }

  // What the evaluator makes of a field: unquoted if it starts with a quote.
  function Decode(field: string): Option<string> {
    if field == "" || field[0] != '"' then Some(field)
    else if !IsQuoted(field) then None
    else Some(Undouble(Inner(field)))
  }

  lemma {:induction false} UndoubleDouble(s: string)
    requires NUL !in s
    ensures Undouble(Double(s)) == s
  {
    if s != "" {
      UndoubleDouble(s[1..]);
      if s[0] == '"' {
        assert Double(s)[2..] == Double(s[1..]);
      } else {
        assert Double(s)[1..] == Double(s[1..]);
      }
    }
  }

  // Every NUL-free string survives quoting and decoding, quoted or not.
  lemma DecodeQuote(s: string)
    requires NUL !in s
    ensures Decode(Quote(s)) == Some(s)
  {
    CStrWhole(s);
    UndoubleDouble(s);
    if NeedsQuotes(s) {
      assert Inner(Quote(s)) == Double(s);
    }
  }

  lemma {:induction false} CStrWhole(s: string)
    requires NUL !in s
    ensures CStr(s) == s
  {
    if s != "" {
      CStrWhole(s[1..]);
    }
  }

  // ----------------------------------------------------------------- round trip

  // The text of a row: its quoted fields, joined by commas, ended by a newline.
  function RowText(row: Row): string {
    if row == [] then "\n"
    else if |row| == 1 then Quote(row[0]) + "\n"
    else Quote(row[0]) + "," + RowText(row[1..])
  }

  function Text(rows: seq<Row>): string {
    if rows == [] then "" else RowText(rows[0]) + Text(rows[1..])
  }

  function QuoteRow(row: Row): Row {
    seq(|row|, i requires 0 <= i < |row| => Quote(row[i]))
  }

  function QuoteRows(rows: seq<Row>): seq<Row> {
    seq(|rows|, i requires 0 <= i < |rows| => QuoteRow(rows[i]))
  }

  ghost predicate NulFree(row: Row) { forall i :: 0 <= i < |row| ==> NUL !in row[i] }

  lemma {:induction false} PlainFieldParses(acc: string, s: string, sep: char, rest: string)
    requires EndsField(sep) && !NeedsQuotes(s)
    ensures Unquoted(acc, s + [sep] + rest) == Field(acc + s, rest)
    decreases |s|
  {
    var data := s + [sep] + rest;
    if s == "" {
      assert acc + s == acc;
      assert data[1..] == rest;
    } else {
      assert data[1..] == s[1..] + [sep] + rest;
      PlainFieldParses(acc + [s[0]], s[1..], sep, rest);
      assert acc + [s[0]] + s[1..] == acc + s;
    }
  }

  lemma {:induction false} QuotedFieldParses(acc: string, s: string, sep: char, rest: string)
    requires EndsField(sep) && NUL !in s
    ensures InQuotes(acc, Double(s) + "\"" + [sep] + rest) == Field(acc + Double(s) + "\"", rest)
    decreases |s|
  {
    var data := Double(s) + "\"" + [sep] + rest;
    if s == "" {
      assert data[1..] == "" + [sep] + rest;
      PlainFieldParses(acc + "\"", "", sep, rest);
      assert acc + "\"" + "" == acc + "" + "\"";
    } else {
      var tail := Double(s[1..]) + "\"" + [sep] + rest;
      if s[0] == '"' {
        assert data == "\"\"" + tail;
        assert data[2..] == tail;
        QuotedFieldParses(acc + "\"\"", s[1..], sep, rest);
        assert acc + "\"\"" + Double(s[1..]) == acc + Double(s);
      } else {
        assert data[1..] == tail;
        QuotedFieldParses(acc + [s[0]], s[1..], sep, rest);
        assert acc + [s[0]] + Double(s[1..]) == acc + Double(s);
      }
    }
  }

  // A printed field is read back as exactly its printed text.
  lemma FieldParses(s: string, sep: char, rest: string)
    requires EndsField(sep) && NUL !in s
    ensures Unquoted("", Quote(s) + [sep] + rest) == Field(Quote(s), rest)
    ensures CStr(Quote(s)) == Quote(s)
  {
    CStrWhole(s);
    QuoteNulFree(s);
    CStrWhole(Quote(s));
    if NeedsQuotes(s) {
      var data := Quote(s) + [sep] + rest;
      assert data[1..] == Double(s) + "\"" + [sep] + rest;
      QuotedFieldParses("\"", s, sep, rest);
    } else {
      PlainFieldParses("", s, sep, rest);
      assert "" + s == s;
    }
  }

  lemma {:induction false} DoubleNulFree(s: string)
    requires NUL !in s
    ensures NUL !in Double(s)
  {
    if s != "" {
      DoubleNulFree(s[1..]);
    }
  }

  lemma QuoteNulFree(s: string)
    requires NUL !in s
    ensures NUL !in Quote(s)
  {
    CStrWhole(s);
    DoubleNulFree(s);
  }

  lemma OneField(n: nat, cb: Callback, rows: seq<Row>, fields: Row, data: string, raw: string, rest: string)
    requires Unquoted("", data) == Field(raw, rest) && CStr(raw) == raw
    requires forall rs :: !cb(rs)
    ensures Rows(n, cb, rows, fields, data) ==
            if |fields| + 1 == n then Rows(n, cb, rows + [fields + [raw]], [], rest)
            else Rows(n, cb, rows, fields + [raw], rest)
  {}

  lemma RowTextLast(row: Row, rest: string)
    requires |row| == 1
    ensures RowText(row) + rest == Quote(row[0]) + ['\n'] + rest
    ensures QuoteRow(row) == [Quote(row[0])]
  {
    hide Quote;
  }

  lemma RowTextFirst(row: Row, rest: string)
    requires |row| > 1
    ensures RowText(row) + rest == Quote(row[0]) + [','] + (RowText(row[1..]) + rest)
  {
    hide Quote;
    Assoc(Quote(row[0]) + [','], RowText(row[1..]), rest);
  }

  lemma QuoteRowFirst(row: Row)
    requires |row| > 1
    ensures QuoteRow(row) == [Quote(row[0])] + QuoteRow(row[1..])
  {
    hide Quote;
  }

  // A printed row is read back as the row of its printed fields.
  lemma {:induction false} RowParses(n: nat, cb: Callback, rows: seq<Row>, fields: Row, row: Row, rest: string)
    requires |fields| + |row| == n && row != [] && NulFree(row)
    requires forall rs :: !cb(rs)
    ensures Rows(n, cb, rows, fields, RowText(row) + rest) == Rows(n, cb, rows + [fields + QuoteRow(row)], [], rest)
    decreases |row|
  {
    hide Rows, RowText, Quote, Unquoted;
    var q := Quote(row[0]);
    if |row| == 1 {
      RowTextLast(row, rest);
      FieldParses(row[0], '\n', rest);
      OneField(n, cb, rows, fields, RowText(row) + rest, q, rest);
    } else {
      var rest' := RowText(row[1..]) + rest;
      RowTextFirst(row, rest);
      QuoteRowFirst(row);
      FieldParses(row[0], ',', rest');
      OneField(n, cb, rows, fields, RowText(row) + rest, q, rest');
      RowParses(n, cb, rows, fields + [q], row[1..], rest);
      FieldsAssoc(fields, [q], QuoteRow(row[1..]));
    }
  }

  lemma FieldsAssoc(a: Row, b: Row, c: Row)
    ensures a + b + c == a + (b + c)
  {}

  lemma NoMoreRows(n: nat, cb: Callback, rows: seq<Row>)
    ensures Rows(n, cb, rows, [], "") == Outcome(rows, Running)
  {}

  lemma {:induction false} TextParses(n: nat, cb: Callback, done: seq<Row>, rows: seq<Row>)
    requires 1 <= n && forall i :: 0 <= i < |rows| ==> |rows[i]| == n && NulFree(rows[i])
    requires forall rs :: !cb(rs)
    ensures Rows(n, cb, done, [], Text(rows)) == Outcome(done + QuoteRows(rows), Running)
    decreases |rows|
  {
    hide Rows, RowText, Quote;
    if rows == [] {
      assert Text(rows) == "";
      NoMoreRows(n, cb, done);
      assert done + QuoteRows(rows) == done;
    } else {
      RowParses(n, cb, done, [], rows[0], Text(rows[1..]));
      assert [] + QuoteRow(rows[0]) == QuoteRow(rows[0]);
      TextParses(n, cb, done + [QuoteRow(rows[0])], rows[1..]);
      assert done + [QuoteRow(rows[0])] + QuoteRows(rows[1..]) == done + QuoteRows(rows);
    }
  }

  // Print, parse, decode: the original rows, whatever they contain.
  lemma RoundTrip(n: nat, cb: Callback, rows: seq<Row>)
    requires 1 <= n && forall i :: 0 <= i < |rows| ==> |rows[i]| == n && NulFree(rows[i])
    requires forall rs :: !cb(rs)
    ensures var o := ParseAll(n, cb, Text(rows));
            && o.status == Running
            && |o.rows| == |rows|
            && forall i :: 0 <= i < |rows| ==>
                 |o.rows[i]| == n && forall j :: 0 <= j < n ==> Decode(o.rows[i][j]) == Some(rows[i][j])
  {
    TextParses(n, cb, [], rows);
    assert [] + QuoteRows(rows) == QuoteRows(rows);
    forall i, j | 0 <= i < |rows| && 0 <= j < n
      ensures Decode(QuoteRows(rows)[i][j]) == Some(rows[i][j])
    {
      DecodeQuote(rows[i][j]);
    }
  }
}
