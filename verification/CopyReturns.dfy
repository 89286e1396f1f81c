/**
 Carriage returns in the rows `insert_table` sends.  They are not escaped.  A
 server that knows several styles of line end refuses an unescaped one among
 lines that end in a newline; one that knows newlines only takes it as data.
 */
module CopyReturns {
  import opened Basics
  import opened CopyFormat

  /** An unescaped carriage return somewhere in s. */
  predicate BareReturn(s: string)
    decreases |s|
  {
    if s == "" then false
    else if s[0] == '\\' && |s| > 1 then BareReturn(s[2..])
    else s[0] == '\r' || BareReturn(s[1..])
  }

  /** The reader that knows several styles of line end. */
  function ReadStrictly(s: string): Option<seq<seq<Option<string>>>> {
    if BareReturn(s) then None else ReadAll(s)
  }

  ghost predicate ReturnIn<R>(row: Row<R>, store: map<R, string>)
    requires Refers(row, store)
  {
    exists j | 0 <= j < |row| && row[j].Some? :: '\r' in store[row[j].value]
  }

  ghost predicate AnyReturn<R>(rows: seq<Row<R>>, store: map<R, string>)
    requires AllRefer(rows, store)
  {
    exists i | 0 <= i < |rows| :: ReturnIn(rows[i], store)
  }

  // ---------------------------------------------------------------- what escaping does to them

  lemma {:induction false} BarePlain(c: char, t: string)
    requires c != '\\'
    ensures BareReturn([c] + t) <==> c == '\r' || BareReturn(t)
  {
    assert ([c] + t)[1..] == t;
  }

  lemma {:induction false} BareEscaped(c: char, t: string)
    ensures BareReturn(['\\', c] + t) <==> BareReturn(t)
  {
    assert (['\\', c] + t)[2..] == t;
  }

  lemma {:induction false} EscapeReturns(s: string, t: string)
    ensures BareReturn(Escape(s) + t) <==> '\r' in s || BareReturn(t)
    ensures '\r' in Escape(s) <==> '\r' in s
  {
    if s == "" {
      assert Escape(s) + t == t;
    } else {
      EscapeReturns(s[1..], t);
      assert '\r' in s <==> s[0] == '\r' || '\r' in s[1..];
      var rest := Escape(s[1..]) + t;
      if IsSpecial(s[0]) {
        Assoc(['\\', s[0]], Escape(s[1..]), t);
        BareEscaped(s[0], rest);
      } else {
        Assoc([s[0]], Escape(s[1..]), t);
        BarePlain(s[0], rest);
      }
    }
  }

  lemma {:induction false} CellReturns<R>(cell: Option<R>, store: map<R, string>, t: string)
    requires cell.Some? ==> cell.value in store
    ensures BareReturn(CellText(cell, store) + t) <==> (cell.Some? && '\r' in store[cell.value]) || BareReturn(t)
  {
    match cell
    case None => BareEscaped('N', t);
    case Some(r) => EscapeReturns(store[r], t);
  }

  /** Escaping a string again and again leaves it with or without carriage returns as it was. */
  lemma {:induction false} TouchReturns<R>(row: Row<R>, cell: Option<R>, store: map<R, string>)
    requires Refers(row, store) && (cell.Some? ==> cell.value in store)
    ensures ReturnIn(row, Touch(cell, store)) <==> ReturnIn(row, store)
  {
    if cell.Some? { EscapeReturns(store[cell.value], ""); }
  }

  lemma {:induction false} ReturnFirst<R>(row: Row<R>, store: map<R, string>)
    requires Refers(row, store) && row != []
    ensures ReturnIn(row, store) <==> (row[0].Some? && '\r' in store[row[0].value]) || ReturnIn(row[1..], store)
  {
    var rest := row[1..];
    if ReturnIn(rest, store) {
      var j :| 0 <= j < |rest| && rest[j].Some? && '\r' in store[rest[j].value];
      assert row[j + 1] == rest[j];
    }
    if ReturnIn(row, store) {
      var j :| 0 <= j < |row| && row[j].Some? && '\r' in store[row[j].value];
      assert j > 0 ==> rest[j - 1] == row[j];
    }
  }

  lemma {:induction false} RowReturns<R>(row: Row<R>, store: map<R, string>, t: string)
    requires Refers(row, store)
    ensures BareReturn(RowText(row, store).0 + t) <==> ReturnIn(row, store) || BareReturn(t)
    decreases |row|
  {
    if row == [] {
      assert "" + t == t;
    } else {
      var s := Touch(row[0], store);
      var rest := RowText(row[1..], s).0 + t;
      RowReturns(row[1..], s, t);
      TouchReturns(row[1..], row[0], store);
      ReturnFirst(row, store);
      RowTextSplit(row, store, t);
      if |row| == 1 {
        assert "" + t == t;
        BarePlain('\n', t);
        CellReturns(row[0], store, "\n" + t);
      } else {
        BarePlain('\t', rest);
        CellReturns(row[0], store, "\t" + rest);
      }
    }
  }

  lemma {:induction false} LineReturns<R>(row: Row<R>, store: map<R, string>, t: string)
    requires Refers(row, store)
    ensures BareReturn(Line(row, store).0 + t) <==> ReturnIn(row, store) || BareReturn(t)
  {
    if row == [] {
      BarePlain('\n', t);
    } else {
      RowReturns(row, store, t);
    }
  }

  lemma {:induction false} LineTouches<R>(rows: seq<Row<R>>, row: Row<R>, store: map<R, string>)
    requires AllRefer(rows, store) && Refers(row, store)
    ensures AnyReturn(rows, Line(row, store).1) <==> AnyReturn(rows, store)
    decreases |row|
  {
    if row != [] {
      var s := Touch(row[0], store);
      LineTouches(rows, row[1..], s);
      assert row[1..] == [] ==> RowText(row[1..], s) == ("", s);
      forall i | 0 <= i < |rows| ensures ReturnIn(rows[i], s) <==> ReturnIn(rows[i], store) {
        TouchReturns(rows[i], row[0], store);
      }
    }
  }

  /** The stream has a bare carriage return if and only if some cell's text has one. */
  lemma {:induction false} StreamReturns<R>(rows: seq<Row<R>>, store: map<R, string>)
    requires AllRefer(rows, store)
    ensures BareReturn(Stream(Lines(rows, store).0)) <==> AnyReturn(rows, store)
    decreases |rows|
  {
    if rows == [] {
      assert "" + "\\.\n" == ['\\', '.'] + ("\n" + "");
      BareEscaped('.', "\n" + "");
      BarePlain('\n', "");
    } else {
      var (t, s) := Line(rows[0], store);
      var ts := Lines(rows[1..], s).0;
      StreamReturns(rows[1..], s);
      StreamSplit(t, ts);
      LineReturns(rows[0], store, Stream(ts));
      LineTouches(rows[1..], rows[0], store);
      FirstRow(rows, store);
    }
  }

  lemma {:induction false} FirstRow<R>(rows: seq<Row<R>>, store: map<R, string>)
    requires AllRefer(rows, store) && rows != []
    ensures AnyReturn(rows, store) <==> ReturnIn(rows[0], store) || AnyReturn(rows[1..], store)
  {
    var rest := rows[1..];
    if AnyReturn(rest, store) {
      var i :| 0 <= i < |rest| && ReturnIn(rest[i], store);
      assert rows[i + 1] == rest[i];
    }
    if AnyReturn(rows, store) {
      var i :| 0 <= i < |rows| && ReturnIn(rows[i], store);
      assert i > 0 ==> rest[i - 1] == rows[i];
    }
  }

  /**
   Such a server reads the caller's table if and only if, besides what the
   other needs, no cell holds a carriage return.
   */
  lemma {:induction false} TableArrivesStrictly<R>(rows: seq<Row<R>>, store: map<R, string>)
    requires AllRefer(rows, store)
    ensures Refers(Flat(rows), store)
    ensures ReadStrictly(Stream(Lines(rows, store).0)) == Some(Original(rows, store))
            <==> (forall i | 0 <= i < |rows| :: rows[i] != []) && SharingHarmless(Flat(rows), store)
                 && !AnyReturn(rows, store)
  {
    TableArrives(rows, store);
    StreamReturns(rows, store);
  }

  // ---------------------------------------------------------------- tables that do not arrive

  lemma {:induction false} SentOnce<R>(r: R, store: map<R, string>)
    requires r in store
    ensures SentRow([Some(r)], store) == OriginalRow([Some(r)], store) == [Some(store[r])]
  {
    var row: Row<R> := [Some(r)];
    assert row[1..] == [];
    assert SentRow(row, store) == [Some(store[r])] + SentRow([], Touch(Some(r), store));
  }

  /** A string object in two cells of a row is sent the second time with its escapes. */
  lemma {:induction false} SentTwice<R>(r: R, store: map<R, string>)
    requires r in store
    ensures SentRow([Some(r), Some(r)], store) == [Some(store[r]), Some(Escape(store[r]))]
  {
    var row: Row<R> := [Some(r), Some(r)];
    var after := Touch(Some(r), store);
    assert row[1..] == [Some(r)];
    SentOnce(r, after);
    assert SentRow(row, store) == [Some(store[r])] + SentRow(row[1..], after);
  }

  lemma {:induction false} SentAlone<R>(row: Row<R>, store: map<R, string>)
    requires Refers(row, store) && row != []
    ensures AllRefer([row], store) && Padded(Sent([row], store)) == [SentRow(row, store)]
    ensures Original([row], store) == [OriginalRow(row, store)]
  {
    var rows: seq<Row<R>> := [row];
    assert rows[1..] == [];
    assert Sent(rows, store) == [SentRow(row, store)] + Sent([], Line(row, store).1);
    SentLength(row, store);
  }

  /** One string object holding a tab, in two cells: the second arrives with a backslash before the tab. */
  lemma {:induction false} SharedTab()
    ensures var rows, store := [[Some(0), Some(0)]], map[0 := "\t"];
      && AllRefer(rows, store)
      && Original(rows, store) == [[Some("\t"), Some("\t")]]
      && ReadAll(Stream(Lines(rows, store).0)) == Some([[Some("\t"), Some("\\\t")]])
  {
    var row: Row<int>, store := [Some(0), Some(0)], map[0 := "\t"];
    SentTwice(0, store);
    SentAlone(row, store);
    RowsArrive([row], store);
    assert Escape("\t") == "\\\t";
    assert OriginalRow(row, store) == [Some("\t"), Some("\t")];
  }

  /** One cell holding a carriage return: data to one server, refused by the other. */
  lemma {:induction false} OneReturn()
    ensures var rows, store := [[Some(0)]], map[0 := "\r"];
      && AllRefer(rows, store)
      && ReadAll(Stream(Lines(rows, store).0)) == Some(Original(rows, store))
      && ReadStrictly(Stream(Lines(rows, store).0)) == None
  {
    var row: Row<int>, store := [Some(0)], map[0 := "\r"];
    SentAlone(row, store);
    RowsArrive([row], store);
    SentOnce(0, store);
    assert row[0] == Some(0) && '\r' in store[row[0].value];
    assert [row][0] == row && ReturnIn(row, store);
    StreamReturns([row], store);
  }
}
