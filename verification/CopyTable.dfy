/** `insert_table` in its own form: nested loops over rows of string objects, which escaping edits in place. */
module CopyTable {
  import opened Basics
  import opened CopyFormat
  import opened CopyReturns

  lemma {:induction false} EscapeStep(s: string, i: nat, r: string)
    requires i < |s|
    ensures r + Escape(s[i..]) == (r + if IsSpecial(s[i]) then ['\\', s[i]] else [s[i]]) + Escape(s[i + 1..])
  {
    assert s[i..][1..] == s[i + 1..];
    Assoc(r, if IsSpecial(s[i]) then ['\\', s[i]] else [s[i]], Escape(s[i + 1..]));
  }

  /** A Ruby string. */
  class RString {
    var text: string

    constructor (s: string)
      ensures text == s
    {
      text := s;
    }

    /** `gsub!` with the pattern for tab, newline and backslash: prefix each with a backslash. */
    method EscapeInPlace()
      modifies this
      ensures text == Escape(old(text))
    {
      ghost var s := text;
      var i, r := 0, "";
      assert s[0..] == s;
      while i < |text|
        invariant 0 <= i <= |text| && text == s
        invariant Escape(s) == r + Escape(s[i..])
      {
        EscapeStep(s, i, r);
        r := r + (if IsSpecial(text[i]) then ['\\', text[i]] else [text[i]]);
        i := i + 1;
      }
      assert Escape(s[i..]) == "" && r + "" == r;
      text := r;
    }
  }

  function Cells(rows: seq<Row<RString>>): set<RString> {
    set row, c | row in rows && c in row && c.Some? :: c.value
  }

  /** The texts of the string objects at this moment. */
  ghost function Store(cells: set<RString>): (s: map<RString, string>)
    reads cells
    ensures s.Keys == cells
  {
    map r | r in cells :: r.text
  }

  lemma {:induction false} CellsRefer(rows: seq<Row<RString>>, store: map<RString, string>)
    requires Cells(rows) <= store.Keys
    ensures AllRefer(rows, store)
  {
    forall i | 0 <= i < |rows| ensures Refers(rows[i], store) {
      forall j | 0 <= j < |rows[i]| && rows[i][j].Some? ensures rows[i][j].value in store {
        assert rows[i] in rows && rows[i][j] in rows[i];
      }
    }
  }

  method PutCell(cell: Option<RString>, ghost cells: set<RString>) returns (t: string)
    requires cell.Some? ==> cell.value in cells
    modifies cells
    ensures t == CellText(cell, old(Store(cells))) && Store(cells) == Touch(cell, old(Store(cells)))
    ensures cell.None? ==> t == "\\N"
  {
    match cell {
      case None =>
        t := "\\N";
      case Some(s) =>
        s.EscapeInPlace();
        t := s.text;
    }
  }

  /** What stands between the buffer after j cells and the rest of the row's text. */
  function Pending(j: nat, n: nat): string {
    if j == 0 then "" else if j < n then "\t" else "\n"
  }

  /** The text of the cells from j on, opened up at its first cell. */
  lemma {:induction false} RowStep(row: Row<RString>, j: nat, store: map<RString, string>, before: string)
    requires j < |row| && Refers(row[j..], store)
    ensures Refers(row[j + 1..], Touch(row[j], store))
    ensures var (t, s) := RowText(row[j..], store);
      var (t', s') := RowText(row[j + 1..], Touch(row[j], store));
      before + t == before + CellText(row[j], store) + Pending(j + 1, |row|) + t' && s == s'
  {
    var rest := row[j..];
    assert rest[0] == row[j] && rest[1..] == row[j + 1..];
    var c, p, t' := CellText(row[j], store), Pending(j + 1, |row|), RowText(row[j + 1..], Touch(row[j], store)).0;
    assert before + (c + (p + t')) == before + c + p + t';
  }

  /** The inner loop: one line from one row. */
  method PutRow(row: Row<RString>, ghost cells: set<RString>) returns (buffer: string)
    requires Refers(row, Store(cells))
    modifies cells
    ensures (buffer, Store(cells)) == Line(row, old(Store(cells)))
  {
    ghost var goal := RowText(row, Store(cells));
    buffer := "";
    var j := 0;
    assert row[0..] == row && "" + "" + goal.0 == goal.0;
    while j < |row|
      invariant 0 <= j <= |row| && Refers(row[j..], Store(cells))
      invariant var (t, s) := RowText(row[j..], Store(cells)); goal == (buffer + Pending(j, |row|) + t, s)
    {
      RowStep(row, j, Store(cells), buffer + Pending(j, |row|));
      assert row[j..][0] == row[j];
      if j > 0 {
        buffer := buffer + "\t";
      } else {
        assert buffer + "" == buffer;
      }
      var t := PutCell(row[j], cells);
      buffer := buffer + t;
      j := j + 1;
    }
    assert row[j..] == [] && buffer + Pending(j, |row|) + "" == buffer + Pending(j, |row|);
    assert RowText(row[j..], Store(cells)) == ("", Store(cells));
    if row == [] {
      assert buffer + "" + "" == buffer && buffer + "\n" == "\n";
    } else {
      assert goal == (buffer + "\n", Store(cells));
    }
    buffer := buffer + "\n";
  }

  lemma {:induction false} Arrival(rows: seq<Row<RString>>, store: map<RString, string>, sent: string)
    requires AllRefer(rows, store) && sent == Stream(Lines(rows, store).0)
    ensures Refers(Flat(rows), store)
    ensures ReadAll(sent) == Some(Original(rows, store)) <==>
            (forall i | 0 <= i < |rows| :: rows[i] != []) && SharingHarmless(Flat(rows), store)
    ensures ReadStrictly(sent) == Some(Original(rows, store)) <==>
            ReadAll(sent) == Some(Original(rows, store)) && !AnyReturn(rows, store)
  {
    TableArrives(rows, store);
    StreamReturns(rows, store);
  }

  /** One more line sent. */
  lemma {:induction false} OneLineMore(rows: seq<Row<RString>>, i: nat, store: map<RString, string>, sent: string)
    requires i < |rows| && AllRefer(rows[i..], store) && Refers(rows[i], store)
    requires AllRefer(rows[i + 1..], Line(rows[i], store).1)
    ensures sent + Joined(Lines(rows[i..], store).0)
            == (sent + Line(rows[i], store).0) + Joined(Lines(rows[i + 1..], Line(rows[i], store).1).0)
  {
    var rest := rows[i..];
    var (t, s) := Line(rows[i], store);
    assert rest[0] == rows[i] && rest[1..] == rows[i + 1..];
    var ts := Lines(rows[i + 1..], s).0;
    assert Lines(rest, store).0 == [t] + ts && ([t] + ts)[1..] == ts;
    Assoc(sent, t, Joined(ts));
  }

  /**
   The outer loop, and the terminator.  What is sent is read by the server as
   the caller's table exactly under the conditions of `TableArrives`, or, by a
   server that refuses carriage returns, of `TableArrivesStrictly`.
   */
  method InsertTable(rows: seq<Row<RString>>) returns (sent: string)
    modifies Cells(rows)
    ensures |sent| >= 3 && sent[|sent| - 3..] == "\\.\n"
    ensures AllRefer(rows, old(Store(Cells(rows)))) && sent == Stream(Lines(rows, old(Store(Cells(rows)))).0)
    ensures ReadAll(sent) == Some(Original(rows, old(Store(Cells(rows))))) <==>
            (forall i | 0 <= i < |rows| :: rows[i] != []) && Refers(Flat(rows), old(Store(Cells(rows)))) &&
            SharingHarmless(Flat(rows), old(Store(Cells(rows))))
    ensures ReadStrictly(sent) == Some(Original(rows, old(Store(Cells(rows))))) <==>
            ReadAll(sent) == Some(Original(rows, old(Store(Cells(rows))))) && !AnyReturn(rows, old(Store(Cells(rows))))
  {
    ghost var cells := Cells(rows);
    ghost var store := Store(cells);
    CellsRefer(rows, store);
    ghost var goal := Joined(Lines(rows, store).0);
    sent := "";
    var i := 0;
    assert rows[0..] == rows;
    while i < |rows|
      invariant 0 <= i <= |rows| && AllRefer(rows[i..], Store(cells))
      invariant goal == sent + Joined(Lines(rows[i..], Store(cells)).0)
    {
      assert rows[i..][0] == rows[i] && rows[i..][1..] == rows[i + 1..];
      ghost var now := Store(cells);
      var line := PutRow(rows[i], cells);
      assert AllRefer(rows[i + 1..], Store(cells));
      OneLineMore(rows, i, now, sent);
      sent := sent + line;
      i := i + 1;
    }
    assert rows[i..] == [] && sent + "" == sent;
    sent := sent + "\\.\n";
    Arrival(rows, store, sent);
  }
}
