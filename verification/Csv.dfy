/** The CSV printer with formula protection and the one-pass parser, as inverses (section 2 of RFC 4180). */
module Csv {

  /** A UTF-16 code unit: what indexing a script string yields. */
  newtype CodeUnit = x: int | 0 <= x < 0x1_0000

  type Text = seq<CodeUnit>
  type Row = seq<Text>

  const QUOTE: CodeUnit := 34
  const COMMA: CodeUnit := 44
  const LF: CodeUnit := 10
  const CR: CodeUnit := 13
  const TAB: CodeUnit := 9

  // ----- Printer -----

  /** = + - @ tab CR LF and the full-width forms of the first four. */
  predicate StartsFormula(c: CodeUnit) {
    c in {61, 43, 45, 64, TAB, CR, LF, 0xFF1D, 0xFF0B, 0xFF0D, 0xFF20}
  }

  predicate NeedsProtection(value: Text) {
    value != [] && StartsFormula(value[0])
  }

  function Protect(value: Text): Text {
    if NeedsProtection(value) then [TAB] + value else value
  }

  /** Drops the tab a reader sees in front of a protected value. */
  function Unprotect(value: Text): Text {
    if value != [] && value[0] == TAB then value[1..] else value
  }

  function DoubleQuotes(value: Text): Text {
    if value == [] then []
    else (if value[0] == QUOTE then [QUOTE, QUOTE] else [value[0]]) + DoubleQuotes(value[1..])
  }

  predicate IsSpecial(c: CodeUnit) {
    c == QUOTE || c == COMMA || c == CR || c == LF
  }

  function EscapeCsvValue(value: Text): Text {
    var escaped := DoubleQuotes(Protect(value));
    if NeedsProtection(value) || exists i :: 0 <= i < |escaped| && IsSpecial(escaped[i])
    then [QUOTE] + escaped + [QUOTE] else escaped
  }

  /** Fields joined by commas. */
  function PrintRow(row: Row): Text {
    if row == [] then [] else if |row| == 1 then EscapeCsvValue(row[0])
    else EscapeCsvValue(row[0]) + [COMMA] + PrintRow(row[1..])
  }

  /** Every row followed by `terminator`. */
  function PrintRows(rows: seq<Row>, terminator: Text): Text {
    if rows == [] then [] else PrintRow(rows[0]) + terminator + PrintRows(rows[1..], terminator)
  }

  /** Rows separated by `terminator`, with none after the last. */
  function JoinRows(rows: seq<Row>, terminator: Text): Text {
    if rows == [] then [] else if |rows| == 1 then PrintRow(rows[0])
    else PrintRow(rows[0]) + terminator + JoinRows(rows[1..], terminator)
  }

  predicate IsTerminator(t: Text) {
    t == [LF] || t == [CR, LF] || t == [CR]
  }

  // ----- Parser -----

  /** Finished rows, the fields of the row being read, the field being read, and whether inside quotes. */
  datatype State = State(rows: seq<Row>, row: Row, value: Text, isQuoted: bool)

  const START := State([], [], [], false)

  function PushValue(s: State): State {
    s.(row := s.row + [s.value], value := [])
  }

  function PushRow(s: State): State {
    var t := PushValue(s);
    t.(rows := t.rows + [t.row], row := [])
  }

  /** The code unit at `i`, or -1 past the end, which equals none. */
  function Peek(content: Text, i: nat): int {
    if i < |content| then content[i] as int else -1
  }

  /** How many code units the step at `c` consumes, and the state after it. */
  function Advance(c: CodeUnit, next: int, s: State): (r: (nat, State))
    ensures r.0 == 1 || (r.0 == 2 && next >= 0)
  {
    if s.isQuoted then
      if c != QUOTE then (1, s.(value := s.value + [c]))
      else if next == QUOTE as int then (2, s.(value := s.value + [QUOTE]))
      else (1, s.(isQuoted := false))
    else if c == QUOTE && s.value == [] then (1, s.(isQuoted := true))
    else if c == COMMA then (1, PushValue(s))
    else if c == LF then (1, PushRow(s))
    else if c == CR then (if next == LF as int then 2 else 1, PushRow(s))
    else (1, s.(value := s.value + [c]))
  }

  function Step(rest: Text, s: State): (r: (nat, State))
    requires rest != []
    ensures 1 <= r.0 <= |rest|
  {
    Advance(rest[0], Peek(rest, 1), s)
  }

  function Run(rest: Text, s: State): State
    decreases |rest|
  {
    if rest == [] then s else var (n, t) := Step(rest, s); Run(rest[n..], t)
  }

  function Finish(s: State): seq<Row> {
    var t := PushValue(s);
    if t.rows != [] && t.row == [[]] then t.rows else t.rows + [t.row]
  }

  function Parse(content: Text): seq<Row> {
    Finish(Run(content, START))
  }

  /** The index loop over the content. The last row is the one being read. */
  method ParseCsv(content: Text) returns (rows: seq<Row>)
    ensures rows == Parse(content)
  {
    rows := [[]];
    var value: Text := [];
    var isQuoted := false;
    var index := 0;
    ghost var s := START;
    assert content[0..] == content;
    while index < |content|
      invariant 0 <= index <= |content| && ReadTo(content, index, s)
      invariant rows == s.rows + [s.row] && value == s.value && isQuoted == s.isQuoted
    {
      var c := content[index];
      ghost var from := index;
      if isQuoted {
        if c == QUOTE {
          if Peek(content, index + 1) == QUOTE as int {
            value := value + [QUOTE];
            index := index + 1;
          } else {
            isQuoted := false;
          }
        } else {
          value := value + [c];
        }
      } else if c == QUOTE && value == [] {
        isQuoted := true;
      } else if c == COMMA {
        rows := PushLast(rows, value);
        value := [];
      } else if c == LF {
        rows := PushLast(rows, value) + [[]];
        value := [];
      } else if c == CR {
        rows := PushLast(rows, value) + [[]];
        value := [];
        if Peek(content, index + 1) == LF as int {
          index := index + 1;
        }
      } else {
        value := value + [c];
      }
      index := index + 1;
      StepTaken(content, from, s);
      s := Advance(c, Peek(content, from + 1), s).1;
    }
    rows := PushLast(rows, value);
    if |rows| > 1 && |rows[|rows| - 1]| == 1 && rows[|rows| - 1][0] == [] {
      rows := rows[..|rows| - 1];
    }
  }

  /** The state after the first `index` code units, from which the rest is still to be run. */
  ghost predicate ReadTo(content: Text, index: nat, s: State) {
    index <= |content| && Run(content[index..], s) == Run(content, START)
  }

  /** A field pushed on the last row. */
  function PushLast(rows: seq<Row>, value: Text): (r: seq<Row>)
    requires rows != []
    ensures forall init, row :: rows == init + [row] ==> r == init + [row + [value]]
  {
    rows[..|rows| - 1] + [rows[|rows| - 1] + [value]]
  }

  lemma StepTaken(content: Text, from: nat, s: State)
    requires from < |content| && ReadTo(content, from, s)
    ensures var (n, t) := Advance(content[from], Peek(content, from + 1), s); ReadTo(content, from + n, t)
  {
    var n := Advance(content[from], Peek(content, from + 1), s).0;
    assert content[from..][n..] == content[from + n..];
  }

  // ----- Round trip -----

  function ProtectRow(row: Row): (r: Row)
    ensures |r| == |row|
  {
    if row == [] then [] else [Protect(row[0])] + ProtectRow(row[1..])
  }

  function ProtectRows(rows: seq<Row>): (r: seq<Row>)
    ensures |r| == |rows|
  {
    if rows == [] then [] else [ProtectRow(rows[0])] + ProtectRows(rows[1..])
  }

  function UnprotectRow(row: Row): Row {
    if row == [] then [] else [Unprotect(row[0])] + UnprotectRow(row[1..])
  }

  function UnprotectRows(rows: seq<Row>): seq<Row> {
    if rows == [] then [] else [UnprotectRow(rows[0])] + UnprotectRows(rows[1..])
  }

  /** Nothing that could continue a quoted field. */
  predicate EndsField(rest: Text) {
    rest == [] || rest[0] != QUOTE
  }

  predicate Plain(value: Text) {
    forall i :: 0 <= i < |value| ==> !IsSpecial(value[i])
  }

  lemma {:induction false} RunQuoted(v: Text, rest: Text, s: State)
    requires s.isQuoted && EndsField(rest)
    ensures Run(DoubleQuotes(v) + [QUOTE] + rest, s) == Run(rest, s.(value := s.value + v, isQuoted := false))
    decreases |v|
  {
    var text := DoubleQuotes(v) + [QUOTE] + rest;
    if v == [] {
      assert s.value + v == s.value;
      assert text[1..] == rest;
    } else {
      var tail := DoubleQuotes(v[1..]) + [QUOTE] + rest;
      var n := if v[0] == QUOTE then 2 else 1;
      assert text[n..] == tail;
      assert s.value + v == (s.value + [v[0]]) + v[1..];
      RunQuoted(v[1..], rest, s.(value := s.value + [v[0]]));
    }
  }

  lemma {:induction false} RunPlain(v: Text, rest: Text, s: State)
    requires !s.isQuoted && Plain(v)
    ensures Run(v + rest, s) == Run(rest, s.(value := s.value + v))
    decreases |v|
  {
    if v == [] {
      assert v + rest == rest && s.value + v == s.value;
    } else {
      assert (v + rest)[1..] == v[1..] + rest;
      assert s.value + v == (s.value + [v[0]]) + v[1..];
      RunPlain(v[1..], rest, s.(value := s.value + [v[0]]));
    }
  }

  lemma {:induction false} DoubleQuotesPlain(v: Text)
    requires Plain(DoubleQuotes(v))
    ensures DoubleQuotes(v) == v
    decreases |v|
  {
    if v != [] {
      var head := if v[0] == QUOTE then [QUOTE, QUOTE] else [v[0]];
      assert DoubleQuotes(v)[0] == head[0];
      assert forall i :: 0 <= i < |DoubleQuotes(v[1..])| ==> DoubleQuotes(v[1..])[i] == DoubleQuotes(v)[|head| + i];
      DoubleQuotesPlain(v[1..]);
      assert v == [v[0]] + v[1..];
    }
  }

  /** Reading an escaped value leaves its protected form as the current field. */
  lemma RunField(v: Text, rest: Text, s: State)
    requires !s.isQuoted && s.value == [] && EndsField(rest)
    ensures Run(EscapeCsvValue(v) + rest, s) == Run(rest, s.(value := Protect(v)))
  {
    var escaped := DoubleQuotes(Protect(v));
    assert [] + Protect(v) == Protect(v);
    if EscapeCsvValue(v) == [QUOTE] + escaped + [QUOTE] {
      var text := EscapeCsvValue(v) + rest;
      assert text[1..] == escaped + [QUOTE] + rest;
      RunQuoted(Protect(v), rest, s.(isQuoted := true));
    } else {
      DoubleQuotesPlain(Protect(v));
      RunPlain(Protect(v), rest, s);
    }
  }

  /** The state after the fields of a row, before its terminator. */
  function AfterRow(s: State, row: Row): (t: State)
    requires row != []
    ensures t.rows == s.rows && t.isQuoted == s.isQuoted
    decreases |row|
  {
    var t := s.(value := Protect(row[0]));
    if |row| == 1 then t else AfterRow(PushValue(t), row[1..])
  }

  lemma {:induction false} AfterRowFields(s: State, row: Row)
    requires row != []
    ensures PushValue(AfterRow(s, row)) == s.(row := s.row + ProtectRow(row), value := [])
    decreases |row|
  {
    if |row| > 1 {
      AfterRowFields(PushValue(s.(value := Protect(row[0]))), row[1..]);
      assert s.row + ProtectRow(row) == s.row + [Protect(row[0])] + ProtectRow(row[1..]);
    } else {
      assert ProtectRow(row) == [Protect(row[0])];
    }
  }

  lemma {:induction false} RunRow(row: Row, rest: Text, s: State)
    requires row != [] && !s.isQuoted && s.value == [] && EndsField(rest)
    ensures Run(PrintRow(row) + rest, s) == Run(rest, AfterRow(s, row))
    decreases |row|
  {
    if |row| == 1 {
      RunField(row[0], rest, s);
    } else {
      RunRow(row[1..], rest, PushValue(s.(value := Protect(row[0]))));
      RunFirstField(row, rest, s);
    }
  }

  lemma RunFirstField(row: Row, rest: Text, s: State)
    requires |row| > 1 && !s.isQuoted && s.value == []
    ensures Run(PrintRow(row) + rest, s) == Run(PrintRow(row[1..]) + rest, PushValue(s.(value := Protect(row[0]))))
  {
    var tail := PrintRow(row[1..]) + rest;
    Regroup(EscapeCsvValue(row[0]), [COMMA], PrintRow(row[1..]), rest);
    RunField(row[0], [COMMA] + tail, s);
    RunComma(tail, s.(value := Protect(row[0])));
  }

  lemma Regroup(a: Text, b: Text, c: Text, d: Text)
    ensures a + b + c + d == a + (b + (c + d))
  {
  }

  lemma RunComma(rest: Text, s: State)
    requires !s.isQuoted
    ensures Run([COMMA] + rest, s) == Run(rest, PushValue(s))
  {
    assert ([COMMA] + rest)[1..] == rest;
  }

  /** No printed row begins with a line feed, so a bare CR terminator is never taken for CRLF. */
  lemma PrintRowStart(row: Row)
    ensures PrintRow(row) != [] ==> PrintRow(row)[0] != LF
  {
    if row != [] {
      var e := EscapeCsvValue(row[0]);
      if e != [] && e == DoubleQuotes(Protect(row[0])) && !NeedsProtection(row[0]) {
        assert !IsSpecial(e[0]) || e == [QUOTE] + e + [QUOTE];
      }
    }
  }

  /** A bare CR must not be followed by a line feed. */
  predicate Follows(terminator: Text, rest: Text) {
    terminator == [CR] && rest != [] ==> rest[0] != LF
  }

  lemma RunTerminator(terminator: Text, rest: Text, s: State)
    requires IsTerminator(terminator) && !s.isQuoted && Follows(terminator, rest)
    ensures Run(terminator + rest, s) == Run(rest, PushRow(s))
  {
    var text := terminator + rest;
    assert text[|terminator|..] == rest;
  }

  /** A row and its terminator append one finished row. */
  lemma RunTerminatedRow(row: Row, terminator: Text, rest: Text, s: State)
    requires row != [] && IsTerminator(terminator) && Follows(terminator, rest)
    requires !s.isQuoted && s.value == [] && s.row == []
    ensures Run(PrintRow(row) + terminator + rest, s) == Run(rest, s.(rows := s.rows + [ProtectRow(row)]))
  {
    assert PrintRow(row) + terminator + rest == PrintRow(row) + (terminator + rest);
    RunRow(row, terminator + rest, s);
    RunTerminator(terminator, rest, AfterRow(s, row));
    AfterRowFields(s, row);
    assert [] + ProtectRow(row) == ProtectRow(row);
  }

  lemma RowsFollow(rows: seq<Row>, terminator: Text)
    requires IsTerminator(terminator)
    ensures Follows(terminator, PrintRows(rows, terminator)) && Follows(terminator, JoinRows(rows, terminator))
  {
    if rows != [] { PrintRowStart(rows[0]); }
  }

  lemma ProtectRowsCons(rows: seq<Row>, done: seq<Row>)
    requires rows != []
    ensures done + ProtectRows(rows) == done + [ProtectRow(rows[0])] + ProtectRows(rows[1..])
  {
  }

  predicate NoEmptyRow(rows: seq<Row>) {
    forall i :: 0 <= i < |rows| ==> rows[i] != []
  }

  lemma {:induction false} RunRows(rows: seq<Row>, terminator: Text, s: State)
    requires NoEmptyRow(rows) && IsTerminator(terminator)
    requires !s.isQuoted && s.value == [] && s.row == []
    ensures Run(PrintRows(rows, terminator), s) == s.(rows := s.rows + ProtectRows(rows))
    decreases |rows|
  {
    if rows == [] {
      assert s.rows + ProtectRows(rows) == s.rows;
    } else {
      var t := s.(rows := s.rows + [ProtectRow(rows[0])]);
      assert Run(PrintRows(rows, terminator), s) == Run(PrintRows(rows[1..], terminator), t) by {
        RowsFollow(rows[1..], terminator);
        RunTerminatedRow(rows[0], terminator, PrintRows(rows[1..], terminator), s);
      }
      RunRows(rows[1..], terminator, t);
      ProtectRowsCons(rows, s.rows);
    }
  }

  /** Rows without a final terminator leave the last one as the row being read. */
  lemma {:induction false} RunJoined(rows: seq<Row>, terminator: Text, s: State)
    requires rows != [] && NoEmptyRow(rows) && IsTerminator(terminator)
    requires !s.isQuoted && s.value == [] && s.row == []
    ensures PushValue(Run(JoinRows(rows, terminator), s))
         == s.(rows := s.rows + ProtectRows(rows[..|rows| - 1]), row := ProtectRow(rows[|rows| - 1]))
    decreases |rows|
  {
    if |rows| == 1 {
      RunLastRow(rows[0], s);
      assert s.rows + ProtectRows(rows[..0]) == s.rows;
    } else {
      var t := s.(rows := s.rows + [ProtectRow(rows[0])]);
      assert Run(JoinRows(rows, terminator), s) == Run(JoinRows(rows[1..], terminator), t) by {
        RunFirstJoined(rows, terminator, s);
      }
      RunJoined(rows[1..], terminator, t);
      ProtectInitCons(rows, s.rows);
    }
  }

  lemma ProtectInitCons(rows: seq<Row>, done: seq<Row>)
    requires |rows| > 1
    ensures var tail := rows[1..];
            && tail[|tail| - 1] == rows[|rows| - 1]
            && done + ProtectRows(rows[..|rows| - 1]) == done + [ProtectRow(rows[0])] + ProtectRows(tail[..|tail| - 1])
  {
    var init := rows[..|rows| - 1];
    assert init[1..] == rows[1..][..|rows| - 2];
    ProtectRowsCons(init, done);
  }

  lemma RunLastRow(row: Row, s: State)
    requires row != [] && !s.isQuoted && s.value == [] && s.row == []
    ensures PushValue(Run(PrintRow(row), s)) == s.(row := ProtectRow(row))
  {
    assert PrintRow(row) + [] == PrintRow(row);
    RunRow(row, [], s);
    AfterRowFields(s, row);
    assert [] + ProtectRow(row) == ProtectRow(row);
  }

  lemma RunFirstJoined(rows: seq<Row>, terminator: Text, s: State)
    requires |rows| > 1 && NoEmptyRow(rows) && IsTerminator(terminator)
    requires !s.isQuoted && s.value == [] && s.row == []
    ensures Run(JoinRows(rows, terminator), s)
         == Run(JoinRows(rows[1..], terminator), s.(rows := s.rows + [ProtectRow(rows[0])]))
  {
    RowsFollow(rows[1..], terminator);
    RunTerminatedRow(rows[0], terminator, JoinRows(rows[1..], terminator), s);
  }

  /** Parsing rows that each end in one fixed terminator gives back the protected rows. */
  lemma ParsePrinted(rows: seq<Row>, terminator: Text)
    requires rows != [] && NoEmptyRow(rows) && IsTerminator(terminator)
    ensures Parse(PrintRows(rows, terminator)) == ProtectRows(rows)
  {
    RunRows(rows, terminator, START);
    assert START.rows + ProtectRows(rows) == ProtectRows(rows);
  }

  lemma {:induction false} ProtectRowsSplit(rows: seq<Row>)
    requires rows != []
    ensures ProtectRows(rows) == ProtectRows(rows[..|rows| - 1]) + [ProtectRow(rows[|rows| - 1])]
    decreases |rows|
  {
    if |rows| > 1 {
      ProtectRowsSplit(rows[1..]);
      var init := rows[..|rows| - 1];
      assert init[1..] == rows[1..][..|rows| - 2];
    }
  }

  /** Without the final terminator the same holds, except exactly when the last of several rows is one
      empty field, which is then lost. */
  lemma ParseJoinedIff(rows: seq<Row>, terminator: Text)
    requires rows != [] && NoEmptyRow(rows) && IsTerminator(terminator)
    ensures Parse(JoinRows(rows, terminator)) == ProtectRows(rows) <==> |rows| == 1 || rows[|rows| - 1] != [[]]
    ensures |rows| > 1 && rows[|rows| - 1] == [[]] ==>
      Parse(JoinRows(rows, terminator)) == ProtectRows(rows[..|rows| - 1])
  {
    var init, last := rows[..|rows| - 1], rows[|rows| - 1];
    RunJoined(rows, terminator, START);
    assert START.rows + ProtectRows(init) == ProtectRows(init);
    ProtectRowsSplit(rows);
    assert ProtectRow(last) == [[]] <==> last == [[]] by {
      if last == [[]] || ProtectRow(last) == [[]] {
        assert last == [last[0]] && ProtectRow(last) == [Protect(last[0])];
      }
    }
  }

  /** Dropping the reader's tab undoes the protection. */
  lemma {:induction false} UnprotectProtectRow(row: Row)
    ensures UnprotectRow(ProtectRow(row)) == row
    decreases |row|
  {
    if row != [] {
      UnprotectProtectRow(row[1..]);
      assert ProtectRow(row)[1..] == ProtectRow(row[1..]);
      assert row == [row[0]] + row[1..];
    }
  }

  lemma {:induction false} UnprotectProtectRows(rows: seq<Row>)
    ensures UnprotectRows(ProtectRows(rows)) == rows
    decreases |rows|
  {
    if rows != [] {
      UnprotectProtectRow(rows[0]);
      UnprotectProtectRows(rows[1..]);
      assert ProtectRows(rows)[1..] == ProtectRows(rows[1..]);
      assert rows == [rows[0]] + rows[1..];
    }
  }

  /** The original rows come back by parsing and dropping one leading tab from each field. */
  lemma RoundTrip(rows: seq<Row>, terminator: Text)
    requires rows != [] && NoEmptyRow(rows) && IsTerminator(terminator)
    ensures UnprotectRows(Parse(PrintRows(rows, terminator))) == rows
  {
    ParsePrinted(rows, terminator);
    UnprotectProtectRows(rows);
  }

  /** Hence no two values share an escaped form. */
  lemma EscapeInjective(u: Text, v: Text)
    requires EscapeCsvValue(u) == EscapeCsvValue(v)
    ensures u == v
  {
    RoundTrip([[u]], [LF]);
    RoundTrip([[v]], [LF]);
    assert PrintRows([[u]], [LF]) == EscapeCsvValue(u) + [LF];
    assert PrintRows([[v]], [LF]) == EscapeCsvValue(v) + [LF];
  }

  /** = + - @ and their full-width forms, line ends, and the tab, as they are written in a file. */
  const FORMULA_STARTS: set<CodeUnit> := {61, 43, 45, 64, 0xFF1D, 0xFF0B, 0xFF0D, 0xFF20, 13, 10, 9}

  lemma {:induction false} ProtectedField(row: Row, j: nat)
    requires j < |row|
    ensures ProtectRow(row)[j] == Protect(row[j])
    decreases j
  {
    if j > 0 { ProtectedField(row[1..], j - 1); }
  }

  lemma {:induction false} ProtectedRow(rows: seq<Row>, i: nat)
    requires i < |rows|
    ensures ProtectRows(rows)[i] == ProtectRow(rows[i])
    decreases i
  {
    if i > 0 { ProtectedRow(rows[1..], i - 1); }
  }

  lemma ProtectMeaning(v: Text)
    ensures Protect(v) == if v != [] && v[0] in FORMULA_STARTS then [9] + v else v
  {
  }

  /** Each field of an export comes back behind a tab if it begins like a formula, and as it was if not. */
  lemma ExportedField(rows: seq<Row>, terminator: Text, i: nat, j: nat)
    requires NoEmptyRow(rows) && IsTerminator(terminator) && i < |rows| && j < |rows[i]|
    ensures var parsed, v := Parse(PrintRows(rows, terminator)), rows[i][j];
      && |parsed| == |rows| && |parsed[i]| == |rows[i]|
      && parsed[i][j] == if v != [] && v[0] in FORMULA_STARTS then [9] + v else v
  {
    assert Parse(PrintRows(rows, terminator)) == ProtectRows(rows) by { ParsePrinted(rows, terminator); }
    ProtectedRow(rows, i);
    ProtectedField(rows[i], j);
    ProtectMeaning(rows[i][j]);
  }

  /** So no field read back from an export starts a formula, whatever the values were. */
  lemma ExportIsInert(rows: seq<Row>, terminator: Text, i: nat, j: nat)
    requires NoEmptyRow(rows) && IsTerminator(terminator) && i < |rows| && j < |rows[i]|
    ensures var parsed := Parse(PrintRows(rows, terminator));
      && |parsed| == |rows| && |parsed[i]| == |rows[i]|
      && (parsed[i][j] == [] || parsed[i][j][0] !in {61, 43, 45, 64, 13, 10, 0xFF1D, 0xFF0B, 0xFF0D, 0xFF20})
  {
    ExportedField(rows, terminator, i, j);
  }

  lemma {:induction false} DoubleQuotesKeeps(v: Text)
    ensures |DoubleQuotes(v)| >= |v|
    ensures (forall i :: 0 <= i < |v| ==> v[i] != QUOTE) ==> DoubleQuotes(v) == v
    decreases |v|
  {
    if v != [] {
      DoubleQuotesKeeps(v[1..]);
      assert v == [v[0]] + v[1..];
    }
  }

  /** A value is written as it is exactly when it has no quote, comma or line end and does not begin like a formula. */
  lemma EscapeUnchangedIff(v: Text)
    ensures EscapeCsvValue(v) == v <==>
      (forall i :: 0 <= i < |v| ==> v[i] !in {34, 44, 13, 10}) && (v == [] || v[0] !in FORMULA_STARTS)
  {
    var escaped := DoubleQuotes(Protect(v));
    DoubleQuotesKeeps(Protect(v));
    if EscapeCsvValue(v) == v {
      assert EscapeCsvValue(v) != [QUOTE] + escaped + [QUOTE];
      DoubleQuotesPlain(v);
    } else if forall i :: 0 <= i < |v| ==> v[i] !in {34, 44, 13, 10} {
      assert forall i :: 0 <= i < |v| ==> !IsSpecial(v[i]);
    }
  }

  // ----- Text that no printer wrote -----

  /** Neither comma nor line end. */
  predicate InOneField(v: Text) {
    forall i :: 0 <= i < |v| ==> v[i] !in {44, 13, 10}
  }

  /** Once a field has begun, a quote is part of it. */
  lemma {:induction false} RunUnquoted(v: Text, s: State)
    requires !s.isQuoted && InOneField(v) && (s.value == [] && v != [] ==> v[0] != QUOTE)
    ensures Run(v, s) == s.(value := s.value + v)
    decreases |v|
  {
    if v == [] {
      assert s.value + v == s.value;
    } else {
      assert s.value + v == (s.value + [v[0]]) + v[1..];
      RunUnquoted(v[1..], s.(value := s.value + [v[0]]));
    }
  }

  lemma FinishOneField(v: Text, isQuoted: bool)
    ensures Finish(State([], [], v, isQuoted)) == [[v]]
  {
    assert [] + [v] == [v];
    assert [] + [[v]] == [[v]];
  }

  /** Quotes inside an unquoted field are text. */
  lemma UnquotedText(v: Text)
    requires InOneField(v) && (v == [] || v[0] != QUOTE)
    ensures Parse(v) == [[v]]
  {
    RunUnquoted(v, START);
    assert START.value + v == v;
    FinishOneField(v, false);
  }

  /** Text behind a closing quote joins the field, and a field whose quote never closes runs to the end. */
  lemma QuotedText(v: Text, after: Text)
    requires v != [] && InOneField(after) && EndsField(after)
    ensures Parse([QUOTE] + DoubleQuotes(v) + [QUOTE] + after) == [[v + after]]
    ensures Parse([QUOTE] + DoubleQuotes(v)) == [[v]]
  {
    ClosedField(v, after);
    FinishOneField(v + after, false);
    OpenField(v);
    FinishOneField(v, true);
  }

  lemma ClosedField(v: Text, after: Text)
    requires v != [] && InOneField(after) && EndsField(after)
    ensures Run([QUOTE] + DoubleQuotes(v) + [QUOTE] + after, START) == State([], [], v + after, false)
  {
    var text := [QUOTE] + DoubleQuotes(v) + [QUOTE] + after;
    assert text[1..] == DoubleQuotes(v) + [QUOTE] + after;
    RunQuoted(v, after, START.(isQuoted := true));
    assert START.value + v == v;
    RunUnquoted(after, START.(value := v));
  }

  lemma OpenField(v: Text)
    ensures Run([QUOTE] + DoubleQuotes(v), START) == State([], [], v, true)
  {
    var text := [QUOTE] + DoubleQuotes(v);
    assert text[1..] == DoubleQuotes(v);
    assert START.value + v == v;
    RunOpen(v, START.(isQuoted := true));
  }

  lemma {:induction false} RunOpen(v: Text, s: State)
    requires s.isQuoted
    ensures Run(DoubleQuotes(v), s) == s.(value := s.value + v)
    decreases |v|
  {
    if v == [] {
      assert s.value + v == s.value;
    } else {
      var text, n := DoubleQuotes(v), if v[0] == QUOTE then 2 else 1;
      assert text[n..] == DoubleQuotes(v[1..]);
      assert s.value + v == (s.value + [v[0]]) + v[1..];
      RunOpen(v[1..], s.(value := s.value + [v[0]]));
    }
  }
}
