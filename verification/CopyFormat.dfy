/**
 The rows `PGconn#insert_table` sends, and PostgreSQL's COPY text format that
 reads them.  Cells refer to string objects, because escaping edits the objects
 in place: R is the type of references, a store maps them to their text.  The
 reader here knows lines that end in a newline and takes a carriage return as
 data; `CopyReturns` has the reader that refuses one.
 */
module CopyFormat {
  import opened Basics

  type Row<R> = seq<Option<R>>

  // ---------------------------------------------------------------- encoding

  predicate IsSpecial(c: char) {
    c == '\t' || c == '\n' || c == '\\'
  }

  /** Nothing in s needs a backslash: no tab, newline or backslash. */
  predicate Plain(s: string) {
    '\t' !in s && '\n' !in s && '\\' !in s
  }

  /** A backslash before every tab, newline and backslash. */
  function Escape(s: string): string {
    if s == "" then ""
    else (if IsSpecial(s[0]) then ['\\', s[0]] else [s[0]]) + Escape(s[1..])
  }

  ghost predicate Refers<R>(row: Row<R>, store: map<R, string>) {
    forall j | 0 <= j < |row| && row[j].Some? :: row[j].value in store
  }

  ghost predicate AllRefer<R>(rows: seq<Row<R>>, store: map<R, string>) {
    forall i | 0 <= i < |rows| :: Refers(rows[i], store)
  }

  /** The store after one cell has been written. */
  function Touch<R>(cell: Option<R>, store: map<R, string>): map<R, string>
    requires cell.Some? ==> cell.value in store
  {
    match cell
    case None => store
    case Some(r) => store[r := Escape(store[r])]
  }

  function CellText<R>(cell: Option<R>, store: map<R, string>): string
    requires cell.Some? ==> cell.value in store
  {
    match cell
    case None => "\\N"
    case Some(r) => Escape(store[r])
  }

  /** The cells of a row from one on, each followed by its tab or newline. */
  function RowText<R>(row: Row<R>, store: map<R, string>): (r: (string, map<R, string>))
    requires Refers(row, store)
    ensures r.1.Keys == store.Keys
    decreases |row|
  {
    if row == [] then ("", store)
    else
      var (t, s) := RowText(row[1..], Touch(row[0], store));
      (CellText(row[0], store) + ((if |row| == 1 then "\n" else "\t") + t), s)
  }

  /** A line is the row's text; a row without cells is sent as an empty line. */
  function Line<R>(row: Row<R>, store: map<R, string>): (string, map<R, string>)
    requires Refers(row, store)
  {
    if row == [] then ("\n", store) else RowText(row, store)
  }

  function Lines<R>(rows: seq<Row<R>>, store: map<R, string>): (r: (seq<string>, map<R, string>))
    requires AllRefer(rows, store)
    ensures r.1.Keys == store.Keys && |r.0| == |rows|
    decreases |rows|
  {
    if rows == [] then ([], store)
    else
      var (t, s) := Line(rows[0], store);
      var (ts, s') := Lines(rows[1..], s);
      ([t] + ts, s')
  }

  function Joined(lines: seq<string>): string {
    if lines == [] then "" else lines[0] + Joined(lines[1..])
  }

  /** Everything sent after the copy command. */
  function Stream(lines: seq<string>): string {
    Joined(lines) + "\\.\n"
  }

  // ---------------------------------------------------------------- the reader's side

  /** The text up to the next unescaped tab or newline, and what follows. */
  function TakeCell(s: string): Option<(string, string)> {
    if s == "" then None
    else if s[0] == '\t' || s[0] == '\n' then Some(("", s))
    else if s[0] == '\\' then
      if |s| == 1 then None
      else match TakeCell(s[2..])
        case None => None
        case Some((c, rest)) => Some((s[..2] + c, rest))
    else match TakeCell(s[1..])
      case None => None
      case Some((c, rest)) => Some((s[..1] + c, rest))
  }

  predicate IsOctal(c: char) {
    '0' <= c <= '7'
  }

  /** The character an escape sequence stands for and its length after the backslash. */
  function Escaped(s: string): (r: (char, nat))
    requires s != ""
    ensures 1 <= r.1 <= |s|
  {
    match s[0]
    case 'b' => (8 as char, 1)
    case 'f' => (12 as char, 1)
    case 'n' => ('\n', 1)
    case 'r' => ('\r', 1)
    case 't' => ('\t', 1)
    case 'v' => (11 as char, 1)
    case 'x' =>
      if |s| > 1 && DigitValue(s[1]).Some? then
        if |s| > 2 && DigitValue(s[2]).Some? then ((DigitValue(s[1]).value * 16 + DigitValue(s[2]).value) as char, 3)
        else (DigitValue(s[1]).value as char, 2)
      else ('x', 1)
    case c =>
      if !IsOctal(c) then (c, 1)
      else
        var d := c as int - '0' as int;
        if |s| > 1 && IsOctal(s[1]) then
          var e := d * 8 + (s[1] as int - '0' as int);
          if |s| > 2 && IsOctal(s[2]) then (((e * 8 + (s[2] as int - '0' as int)) % 256) as char, 3)
          else (e as char, 2)
        else (d as char, 1)
  }

  function Unescape(s: string): string
    decreases |s|
  {
    if s == "" then ""
    else if s[0] == '\\' && |s| > 1 then
      var (c, n) := Escaped(s[1..]);
      [c] + Unescape(s[1 + n..])
    else [s[0]] + Unescape(s[1..])
  }

  /** The null marker is recognised before escapes are undone. */
  function ReadCell(raw: string): Option<string> {
    if raw == "\\N" then None else Some(Unescape(raw))
  }

  function ReadRow(s: string): (r: Option<(seq<Option<string>>, string)>)
    ensures r.Some? ==> |r.value.1| < |s|
    decreases |s|
  {
    TakeCellShorter(s);
    match TakeCell(s)
    case None => None
    case Some((c, rest)) =>
      if rest[0] == '\n' then Some(([ReadCell(c)], rest[1..]))
      else match ReadRow(rest[1..])
        case None => None
        case Some((cells, after)) => Some(([ReadCell(c)] + cells, after))
  }

  lemma {:induction false} TakeCellShorter(s: string)
    ensures TakeCell(s).Some? ==> 0 < |TakeCell(s).value.1| <= |s|
    ensures TakeCell(s).Some? ==> TakeCell(s).value.1[0] == '\t' || TakeCell(s).value.1[0] == '\n'
  {
    if s == "" || s[0] == '\t' || s[0] == '\n' {
    } else if s[0] == '\\' {
      if |s| > 1 { TakeCellShorter(s[2..]); }
    } else {
      TakeCellShorter(s[1..]);
    }
  }

  /** Rows up to the terminating line. */
  function ReadAll(s: string): Option<seq<seq<Option<string>>>>
    decreases |s|
  {
    if "\\.\n" <= s then Some([])
    else match ReadRow(s)
      case None => None
      case Some((row, rest)) =>
        match ReadAll(rest)
        case None => None
        case Some(rows) => Some([row] + rows)
  }

  // ---------------------------------------------------------------- what arrives

  /** The text each cell has when it is written: the rows the server gets. */
  function SentRow<R>(row: Row<R>, store: map<R, string>): (seq<Option<string>>)
    requires Refers(row, store)
    decreases |row|
  {
    if row == [] then []
    else [if row[0].Some? then Some(store[row[0].value]) else None] + SentRow(row[1..], Touch(row[0], store))
  }

  function Sent<R>(rows: seq<Row<R>>, store: map<R, string>): seq<seq<Option<string>>>
    requires AllRefer(rows, store)
    decreases |rows|
  {
    if rows == [] then [] else [SentRow(rows[0], store)] + Sent(rows[1..], Line(rows[0], store).1)
  }

  lemma {:induction false} EscapeShape(s: string)
    ensures Escape(s) != "" ==> Escape(s)[0] != '\t' && Escape(s)[0] != '\n'
    ensures Escape(s) != "" && Escape(s)[0] == '\\' ==> |Escape(s)| > 1 && IsSpecial(Escape(s)[1])
  {
  }

  lemma {:induction false} EscapeTaken(s: string, t: string)
    requires t != "" && (t[0] == '\t' || t[0] == '\n')
    ensures TakeCell(Escape(s) + t) == Some((Escape(s), t))
  {
    if s == "" {
      assert Escape(s) + t == t;
    } else {
      EscapeTaken(s[1..], t);
      var rest := Escape(s[1..]);
      var head := if IsSpecial(s[0]) then ['\\', s[0]] else [s[0]];
      var u := head + rest + t;
      assert u[|head|..] == rest + t && u[..|head|] == head;
    }
  }

  lemma {:induction false} UnescapeEscape(s: string)
    ensures Unescape(Escape(s)) == s
  {
    if s != "" {
      UnescapeEscape(s[1..]);
      var e, rest := Escape(s), Escape(s[1..]);
      if IsSpecial(s[0]) {
        assert e == ['\\', s[0]] + rest;
        assert e[1..][0] == s[0] && e[2..] == rest;
      } else {
        assert e[1..] == rest && e[0] == s[0];
      }
    }
  }

  /** One cell is read back, and a null stays apart from any text. */
  lemma {:induction false} CellReads<R>(cell: Option<R>, store: map<R, string>, t: string)
    requires cell.Some? ==> cell.value in store
    requires t != "" && (t[0] == '\t' || t[0] == '\n')
    ensures TakeCell(CellText(cell, store) + t) == Some((CellText(cell, store), t))
    ensures ReadCell(CellText(cell, store)) == if cell.Some? then Some(store[cell.value]) else None
  {
    match cell
    case None =>
      var u := "\\N" + t;
      assert u[2..] == t && u[..2] == "\\N";
      assert "\\N" + "" == "\\N";
    case Some(r) =>
      EscapeTaken(store[r], t);
      UnescapeEscape(store[r]);
      EscapeShape(store[r]);
  }

  lemma {:induction false} ReadLast(c: string, t: string)
    requires TakeCell(c + ("\n" + t)) == Some((c, "\n" + t))
    ensures ReadRow(c + ("\n" + t)) == Some(([ReadCell(c)], t))
  {
    var u := "\n" + t;
    assert u[1..] == t;
  }

  lemma {:induction false} ReadMore(c: string, s: string, cells: seq<Option<string>>, after: string)
    requires TakeCell(c + ("\t" + s)) == Some((c, "\t" + s)) && ReadRow(s) == Some((cells, after))
    ensures ReadRow(c + ("\t" + s)) == Some(([ReadCell(c)] + cells, after))
  {
    var u := "\t" + s;
    assert u[1..] == s;
  }

  /** The text of a row taken apart after its first cell. */
  lemma {:induction false} RowTextSplit<R>(row: Row<R>, store: map<R, string>, t: string)
    requires Refers(row, store) && row != []
    ensures var c, rest := CellText(row[0], store), RowText(row[1..], Touch(row[0], store)).0;
      RowText(row, store).0 + t == if |row| == 1 then c + ("\n" + t) else c + ("\t" + (rest + t))
  {
    var c, rest := CellText(row[0], store), RowText(row[1..], Touch(row[0], store)).0;
    Regroup(c, if |row| == 1 then "\n" else "\t", rest, t);
    if |row| == 1 {
      assert rest == "" && "" + t == t;
    }
  }

  lemma {:induction false} Regroup(c: string, d: string, e: string, t: string)
    ensures (c + (d + e)) + t == c + (d + (e + t))
  {
  }

  lemma {:induction false} RowReads<R>(row: Row<R>, store: map<R, string>, t: string)
    requires Refers(row, store) && row != []
    ensures ReadRow(RowText(row, store).0 + t) == Some((SentRow(row, store), t))
    decreases |row|
  {
    var c, s := CellText(row[0], store), Touch(row[0], store);
    RowTextSplit(row, store, t);
    if |row| == 1 {
      CellReads(row[0], store, "\n" + t);
      ReadLast(c, t);
      assert SentRow(row[1..], s) == [] && [ReadCell(c)] + [] == [ReadCell(c)];
    } else {
      var rest := RowText(row[1..], s).0;
      RowReads(row[1..], s, t);
      CellReads(row[0], store, "\t" + (rest + t));
      ReadMore(c, rest + t, SentRow(row[1..], s), t);
    }
  }

  /** A data line is never taken for the terminator. */
  lemma {:induction false} LineIsNotTerminator<R>(row: Row<R>, store: map<R, string>, t: string)
    requires Refers(row, store) && row != []
    ensures !("\\.\n" <= RowText(row, store).0 + t)
  {
    var u := RowText(row, store).0 + t;
    var c := CellText(row[0], store);
    assert u[0] == if c == "" then (if |row| == 1 then '\n' else '\t') else c[0];
    if c != "" && c[0] == '\\' {
      if row[0].Some? { EscapeShape(store[row[0].value]); }
      assert u[1] == c[1];
    }
  }

  /** An empty line is read as a row with one empty cell. */
  function Padded(rows: seq<seq<Option<string>>>): (r: seq<seq<Option<string>>>)
    ensures |r| == |rows| && forall i | 0 <= i < |rows| :: r[i] == if rows[i] == [] then [Some("")] else rows[i]
  {
    if rows == [] then [] else [if rows[0] == [] then [Some("")] else rows[0]] + Padded(rows[1..])
  }

  lemma {:induction false} LineReads<R>(row: Row<R>, store: map<R, string>, t: string)
    requires Refers(row, store)
    ensures !("\\.\n" <= Line(row, store).0 + t)
    ensures ReadRow(Line(row, store).0 + t) == Some((if row == [] then [Some("")] else SentRow(row, store), t))
  {
    if row == [] {
      assert "" + ("\n" + t) == "\n" + t;
      ReadLast("", t);
    } else {
      LineIsNotTerminator(row, store, t);
      RowReads(row, store, t);
    }
  }

  lemma {:induction false} StreamSplit(t: string, ts: seq<string>)
    ensures Stream([t] + ts) == t + Stream(ts)
  {
    assert ([t] + ts)[1..] == ts;
    Assoc(t, Joined(ts), "\\.\n");
  }

  lemma {:induction false} ReadFirst(t: string, rest: string, row: seq<Option<string>>, rows: seq<seq<Option<string>>>)
    requires !("\\.\n" <= t + rest) && ReadRow(t + rest) == Some((row, rest)) && ReadAll(rest) == Some(rows)
    ensures ReadAll(t + rest) == Some([row] + rows)
  {
  }

  lemma {:induction false} PaddedSplit(row: seq<Option<string>>, rows: seq<seq<Option<string>>>)
    ensures Padded([row] + rows) == [if row == [] then [Some("")] else row] + Padded(rows)
  {
    assert ([row] + rows)[1..] == rows;
  }

  /** The lines are read as exactly the texts the cells had when they were written. */
  lemma {:induction false} RowsArrive<R>(rows: seq<Row<R>>, store: map<R, string>)
    requires AllRefer(rows, store)
    ensures ReadAll(Stream(Lines(rows, store).0)) == Some(Padded(Sent(rows, store)))
    decreases |rows|
  {
    if rows != [] {
      var (t, s) := Line(rows[0], store);
      var ts := Lines(rows[1..], s).0;
      RowsArrive(rows[1..], s);
      StreamSplit(t, ts);
      LineReads(rows[0], store, Stream(ts));
      SentLength(rows[0], store);
      var row := SentRow(rows[0], store);
      ReadFirst(t, Stream(ts), if row == [] then [Some("")] else row, Padded(Sent(rows[1..], s)));
      PaddedSplit(row, Sent(rows[1..], s));
    }
  }

  // ---------------------------------------------------------------- shared string objects

  /** What the caller meant: each cell's text before anything was sent. */
  function Original<R>(rows: seq<Row<R>>, store: map<R, string>): seq<seq<Option<string>>>
    requires AllRefer(rows, store)
  {
    seq(|rows|, i requires 0 <= i < |rows| => OriginalRow(rows[i], store))
  }

  function OriginalRow<R>(row: Row<R>, store: map<R, string>): seq<Option<string>>
    requires Refers(row, store)
  {
    seq(|row|, j requires 0 <= j < |row| => if row[j].Some? then Some(store[row[j].value]) else None)
  }

  /** All cells in the order they are written. */
  function Flat<R>(rows: seq<Row<R>>): Row<R> {
    if rows == [] then [] else rows[0] + Flat(rows[1..])
  }

  /** The caller can check: no string object that a cell shares with another holds a character to escape. */
  ghost predicate SharingHarmless<R>(cells: Row<R>, store: map<R, string>)
    requires Refers(cells, store)
  {
    forall i, j | 0 <= i < j < |cells| && cells[i].Some? && cells[i] == cells[j] :: Plain(store[cells[i].value])
  }

  lemma {:induction false} EscapePlain(s: string)
    ensures |Escape(s)| >= |s|
    ensures Plain(s) ==> Escape(s) == s
    ensures !Plain(s) ==> |Escape(s)| > |s|
  {
    if s != "" {
      EscapePlain(s[1..]);
      assert s == [s[0]] + s[1..];
      assert Plain(s) <==> !IsSpecial(s[0]) && Plain(s[1..]);
    }
  }

  lemma {:induction false} SentGrows<R>(cells: Row<R>, store: map<R, string>, j: nat)
    requires Refers(cells, store) && j < |cells| && cells[j].Some?
    ensures |SentRow(cells, store)| == |cells| && SentRow(cells, store)[j].Some?
    ensures |SentRow(cells, store)[j].value| >= |store[cells[j].value]|
    decreases |cells|
  {
    SentLength(cells, store);
    if j > 0 {
      SentGrows(cells[1..], Touch(cells[0], store), j - 1);
      if cells[0].Some? { EscapePlain(store[cells[0].value]); }
    }
  }

  lemma {:induction false} SentLength<R>(cells: Row<R>, store: map<R, string>)
    requires Refers(cells, store)
    ensures |SentRow(cells, store)| == |cells|
    decreases |cells|
  {
    if cells != [] { SentLength(cells[1..], Touch(cells[0], store)); }
  }

  /** Only the texts of the cells themselves matter. */
  lemma {:induction false} SentFrame<R>(cells: Row<R>, a: map<R, string>, b: map<R, string>)
    requires Refers(cells, a) && Refers(cells, b)
    requires forall j | 0 <= j < |cells| && cells[j].Some? :: a[cells[j].value] == b[cells[j].value]
    ensures SentRow(cells, a) == SentRow(cells, b)
    decreases |cells|
  {
    if cells != [] {
      var x, y := Touch(cells[0], a), Touch(cells[0], b);
      forall j | 0 <= j < |cells| - 1 && cells[1..][j].Some?
        ensures x[cells[1..][j].value] == y[cells[1..][j].value]
      {
        assert cells[1..][j] == cells[j + 1];
      }
      SentFrame(cells[1..], x, y);
    }
  }

  lemma {:induction false} OriginalSplit<R>(cells: Row<R>, store: map<R, string>)
    requires Refers(cells, store) && cells != []
    ensures OriginalRow(cells, store) ==
            [if cells[0].Some? then Some(store[cells[0].value]) else None] + OriginalRow(cells[1..], store)
  {
  }

  lemma {:induction false} SharingSplit<R>(cells: Row<R>, store: map<R, string>)
    requires Refers(cells, store) && cells != []
    ensures SharingHarmless(cells, store) <==>
            && SharingHarmless(cells[1..], store)
            && (cells[0].Some? && cells[0] in cells[1..] ==> Plain(store[cells[0].value]))
  {
    var rest := cells[1..];
    if SharingHarmless(cells, store) {
      forall i, j | 0 <= i < j < |rest| && rest[i].Some? && rest[i] == rest[j] ensures Plain(store[rest[i].value]) {
        assert cells[i + 1] == cells[j + 1];
      }
      if cells[0].Some? && cells[0] in rest {
        var j :| 0 <= j < |rest| && rest[j] == cells[0];
        assert cells[0] == cells[j + 1];
      }
    }
    if SharingHarmless(rest, store) && (cells[0].Some? && cells[0] in rest ==> Plain(store[cells[0].value])) {
      forall i, j | 0 <= i < j < |cells| && cells[i].Some? && cells[i] == cells[j]
        ensures Plain(store[cells[i].value])
      {
        assert cells[j] == rest[j - 1];
        if i > 0 { assert cells[i] == rest[i - 1]; }
      }
    }
  }

  /** What is sent for a list of cells is what was meant, if and only if sharing is harmless. */
  lemma {:induction false} CellsIntact<R>(cells: Row<R>, store: map<R, string>)
    requires Refers(cells, store)
    ensures SentRow(cells, store) == OriginalRow(cells, store) <==> SharingHarmless(cells, store)
    decreases |cells|
  {
    if cells != [] {
      var c, rest, after := cells[0], cells[1..], Touch(cells[0], store);
      CellsIntact(rest, store);
      OriginalSplit(cells, store);
      SharingSplit(cells, store);
      var head := [if c.Some? then Some(store[c.value]) else None];
      assert SentRow(cells, store) == head + SentRow(rest, after);
      Cancel(head, SentRow(rest, after), OriginalRow(rest, store));
      if c.Some? && c in rest && !Plain(store[c.value]) {
        var j :| 0 <= j < |rest| && rest[j] == c;
        EscapePlain(store[c.value]);
        SentGrows(rest, after, j);
      } else if c.Some? && c in rest {
        EscapePlain(store[c.value]);
        assert after == store;
      } else {
        SentFrame(rest, after, store);
      }
    }
  }

  // ---------------------------------------------------------------- rows and cells

  function TouchAll<R>(cells: Row<R>, store: map<R, string>): (s: map<R, string>)
    requires Refers(cells, store)
    ensures s.Keys == store.Keys
    decreases |cells|
  {
    if cells == [] then store else TouchAll(cells[1..], Touch(cells[0], store))
  }

  lemma {:induction false} RowTouches<R>(row: Row<R>, store: map<R, string>)
    requires Refers(row, store)
    ensures RowText(row, store).1 == TouchAll(row, store)
    decreases |row|
  {
    if row != [] { RowTouches(row[1..], Touch(row[0], store)); }
  }

  lemma {:induction false} SentConcat<R>(a: Row<R>, b: Row<R>, store: map<R, string>)
    requires Refers(a, store) && Refers(b, store)
    ensures Refers(a + b, store) && SentRow(a + b, store) == SentRow(a, store) + SentRow(b, TouchAll(a, store))
    decreases |a|
  {
    if a == [] {
      assert a + b == b;
    } else {
      assert (a + b)[1..] == a[1..] + b;
      SentConcat(a[1..], b, Touch(a[0], store));
    }
  }

  function FlatTexts(rows: seq<seq<Option<string>>>): seq<Option<string>> {
    if rows == [] then [] else rows[0] + FlatTexts(rows[1..])
  }

  lemma {:induction false} FlatRefers<R>(rows: seq<Row<R>>, store: map<R, string>)
    requires AllRefer(rows, store)
    ensures Refers(Flat(rows), store)
  {
    if rows != [] {
      assert Refers(rows[0], store);
      FlatRefers(rows[1..], store);
    }
  }

  /** Row boundaries do not matter to what is sent. */
  lemma {:induction false} SentFlat<R>(rows: seq<Row<R>>, store: map<R, string>)
    requires AllRefer(rows, store)
    ensures Refers(Flat(rows), store) && FlatTexts(Sent(rows, store)) == SentRow(Flat(rows), store)
    ensures |Sent(rows, store)| == |rows| && forall i | 0 <= i < |rows| :: |Sent(rows, store)[i]| == |rows[i]|
    decreases |rows|
  {
    FlatRefers(rows, store);
    if rows != [] {
      var s := Line(rows[0], store).1;
      RowTouches(rows[0], store);
      SentFlat(rows[1..], s);
      FlatRefers(rows[1..], store);
      SentConcat(rows[0], Flat(rows[1..]), store);
      SentLength(rows[0], store);
      assert Sent(rows, store)[1..] == Sent(rows[1..], s);
    }
  }

  lemma {:induction false} OriginalFlat<R>(rows: seq<Row<R>>, store: map<R, string>)
    requires AllRefer(rows, store)
    ensures Refers(Flat(rows), store) && FlatTexts(Original(rows, store)) == OriginalRow(Flat(rows), store)
    decreases |rows|
  {
    FlatRefers(rows, store);
    if rows != [] {
      OriginalFlat(rows[1..], store);
      assert Original(rows, store)[1..] == Original(rows[1..], store);
    }
  }

  lemma {:induction false} FlatInjective(a: seq<seq<Option<string>>>, b: seq<seq<Option<string>>>)
    requires |a| == |b| && forall i | 0 <= i < |a| :: |a[i]| == |b[i]|
    ensures a == b <==> FlatTexts(a) == FlatTexts(b)
  {
    if a != [] && FlatTexts(a) == FlatTexts(b) {
      var n := |a[0]|;
      assert FlatTexts(a)[..n] == a[0] && FlatTexts(b)[..n] == b[0];
      assert FlatTexts(a)[n..] == FlatTexts(a[1..]) && FlatTexts(b)[n..] == FlatTexts(b[1..]);
      FlatInjective(a[1..], b[1..]);
      assert a == [a[0]] + a[1..] && b == [b[0]] + b[1..];
    }
  }

  /**
   The table the server reads is the table the caller passed, if and only if
   every row has a cell and no string object that two cells share holds a tab,
   newline or backslash.
   */
  lemma {:induction false} TableArrives<R>(rows: seq<Row<R>>, store: map<R, string>)
    requires AllRefer(rows, store)
    ensures Refers(Flat(rows), store)
    ensures ReadAll(Stream(Lines(rows, store).0)) == Some(Original(rows, store))
            <==> (forall i | 0 <= i < |rows| :: rows[i] != []) && SharingHarmless(Flat(rows), store)
  {
    RowsArrive(rows, store);
    SentFlat(rows, store);
    OriginalFlat(rows, store);
    CellsIntact(Flat(rows), store);
    FlatInjective(Sent(rows, store), Original(rows, store));
    var sent, padded, original := Sent(rows, store), Padded(Sent(rows, store)), Original(rows, store);
    if exists i :: 0 <= i < |rows| && rows[i] == [] {
      var i :| 0 <= i < |rows| && rows[i] == [];
      assert |sent[i]| == 0 && |padded[i]| == 1 && |original[i]| == 0;
    } else {
      assert forall i | 0 <= i < |rows| :: |sent[i]| > 0;
      assert padded == sent;
    }
  }
}
