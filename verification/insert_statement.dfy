/** The INSERT statement builder `format_insert_values`: one multi-row
    `INSERT INTO t (cols)\nVALUES\n('a', 'b'),\n('c', 'd');` text per batch,
    each value quote-doubled and wrapped in single quotes. */
module InsertStatement {
  import opened SqlText

  /** One source row: the text `str(value)` of each of its values, in
      column order. */
  type Row = seq<string>

  /** The characters `rstrip(',\n')` removes. */
  const SeparatorChars: set<char> := {',', '\n'}

  /** The per-value comprehension `[str(value).replace("'", "''") for value in values]`. */
  function EscapeAll(row: Row): seq<string>
  {
    if row == [] then [] else [Escape(row[0])] + EscapeAll(row[1..])
  }

  /** `"('{}')".format("', '".join(...))`: one parenthesised tuple. */
  function TupleText(row: Row): string
  {
    "('" + Join(EscapeAll(row), "', '") + "')"
  }

  function Tuples(rows: seq<Row>): seq<string>
  {
    seq(|rows|, i requires 0 <= i < |rows| => TupleText(rows[i]))
  }

  /** The VALUES part as the statement should read: the tuples separated by
      `,\n`, then `;`. */
  function ValuesText(rows: seq<Row>): string
  {
    Join(Tuples(rows), ",\n") + ";"
  }

  /** The statement as a whole, without the accumulate-then-strip detour of
      the loop. */
  function InsertText(table: string, columns: seq<string>, rows: seq<Row>): string
  {
    "INSERT INTO " + table + " (" + Join(columns, ", ") + ")\nVALUES\n" + ValuesText(rows)
  }

  // ---------------------------------------------------------------------
  // The loop as written: accumulate `tuple + ",\n"`, then `rstrip(',\n')`
  // ---------------------------------------------------------------------

  /** `final_values` after the loop has appended the tuples `ts`, each
      followed by `,\n`. */
  function Accumulated(ts: seq<string>): string
  {
    if ts == [] then "" else ts[0] + ",\n" + Accumulated(ts[1..])
  }

  /** Python's `s.rstrip(chars)`: drops every trailing character that belongs
      to `chars`. */
  function RStrip(s: string, chars: set<char>): (r: string)
    ensures r <= s
    ensures r == [] || r[|r| - 1] !in chars
    ensures forall i :: |r| <= i < |s| ==> s[i] in chars
  {
    if s != [] && s[|s| - 1] in chars then RStrip(s[..|s| - 1], chars) else s
  }

  lemma {:induction false} AccumulatedSnoc(ts: seq<string>, t: string)
    ensures Accumulated(ts + [t]) == Accumulated(ts) + t + ",\n"
  {
    if ts != [] {
      AccumulatedSnoc(ts[1..], t);
      assert (ts + [t])[1..] == ts[1..] + [t];
    } else {
      assert [t][1..] == [];
    }
  }

  /** Every tuple ends with `)`. */
  lemma TupleEndsWithParen(row: Row)
    ensures |TupleText(row)| >= 4 && TupleText(row)[|TupleText(row)| - 1] == ')'
  {
  }

  /** Texts that all end with `)` joined by any separator end with `)`. */
  lemma {:induction false} JoinEndsWithParen(ts: seq<string>, sep: string)
    requires |ts| >= 1
    requires forall i :: 0 <= i < |ts| ==> ts[i] != [] && ts[i][|ts[i]| - 1] == ')'
    ensures var j := Join(ts, sep); j != [] && j[|j| - 1] == ')'
  {
    if |ts| > 1 {
      JoinEndsWithParen(ts[1..], sep);
      assert ts[1..][|ts| - 2] == ts[|ts| - 1];
    }
  }

  /** Before stripping, the accumulated text is the intended tuple list plus
      one trailing separator. */
  lemma {:induction false} AccumulatedIsJoinPlusSeparator(ts: seq<string>)
    requires |ts| >= 1
    ensures Accumulated(ts) == Join(ts, ",\n") + ",\n"
  {
    if |ts| > 1 {
      AccumulatedIsJoinPlusSeparator(ts[1..]);
    } else {
      assert ts[1..] == [];
    }
  }

  /** `rstrip(',\n')` removes exactly the final separator and nothing of the
      last tuple, because every tuple ends with `)`. */
  lemma StripRemovesOnlyLastSeparator(ts: seq<string>)
    requires forall i :: 0 <= i < |ts| ==> ts[i] != [] && ts[i][|ts[i]| - 1] == ')'
    ensures RStrip(Accumulated(ts), SeparatorChars) == Join(ts, ",\n")
  {
    if ts != [] {
      AccumulatedIsJoinPlusSeparator(ts);
      JoinEndsWithParen(ts, ",\n");
      var j := Join(ts, ",\n");
      var a := Accumulated(ts);
      assert a[..|a| - 1] == j + ",";
      assert (j + ",")[..|j|] == j;
    }
  }

  /** Every element of `Tuples(rows)` ends with `)`. */
  lemma TuplesEndWithParen(rows: seq<Row>)
    ensures forall i :: 0 <= i < |rows| ==> Tuples(rows)[i] != [] && Tuples(rows)[i][|Tuples(rows)[i]| - 1] == ')'
  {
    forall i | 0 <= i < |rows|
      ensures Tuples(rows)[i] != [] && Tuples(rows)[i][|Tuples(rows)[i]| - 1] == ')'
    {
      TupleEndsWithParen(rows[i]);
    }
  }

  /** `format_insert_values(table_name, column_list, value_lists)`. */
  method FormatInsertValues(table: string, columns: seq<string>, rows: seq<Row>) returns (sql: string)
    ensures sql == InsertText(table, columns, rows)
  {
    var columnList := Join(columns, ", ");
    var finalValues := "";
    for i := 0 to |rows|
      invariant finalValues == Accumulated(Tuples(rows[..i]))
    {
      var valuesStr := "('" + Join(EscapeAll(rows[i]), "', '") + "')";
      AccumulatedSnoc(Tuples(rows[..i]), valuesStr);
      assert Tuples(rows[..i + 1]) == Tuples(rows[..i]) + [valuesStr];
      valuesStr := valuesStr + ",\n";
      finalValues := finalValues + valuesStr;
    }
    assert rows[..|rows|] == rows;
    TuplesEndWithParen(rows);
    StripRemovesOnlyLastSeparator(Tuples(rows));
    finalValues := RStrip(finalValues, SeparatorChars) + ";";
    sql := "INSERT INTO " + table + " (" + columnList + ")\nVALUES\n" + finalValues;
  }

  // ---------------------------------------------------------------------
  // Reading the VALUES part back
  // ---------------------------------------------------------------------

  /** The literals of a tuple after its `('`: each literal is followed by
      `, '` (another literal) or `)` (end of tuple). */
  function ReadItems(t: string): (r: Option<(Row, string)>)
    ensures r.Some? ==> |r.value.1| < |t|
    decreases |t|
  {
    var lit := ReadLiteralBody(t);
    if lit.None? then None
    else
      var v, rest := lit.value.0, lit.value.1;
      if |rest| >= 3 && rest[0] == ',' && rest[1] == ' ' && rest[2] == Quote then
        var more := ReadItems(rest[3..]);
        if more.None? then None else Some(([v] + more.value.0, more.value.1))
      else if rest != [] && rest[0] == ')' then Some(([v], rest[1..]))
      else None
  }

  /** One parenthesised tuple of literals. */
  function ReadTuple(t: string): (r: Option<(Row, string)>)
    ensures r.Some? ==> |r.value.1| < |t|
  {
    if |t| >= 2 && t[0] == '(' && t[1] == Quote then ReadItems(t[2..]) else None
  }

  /** Tuples separated by `,\n` up to the closing `;`. */
  function ReadTuples(t: string): Option<seq<Row>>
    decreases |t|
  {
    var tuple := ReadTuple(t);
    if tuple.None? then None
    else
      var row, rest := tuple.value.0, tuple.value.1;
      if rest == [';'] then Some([row])
      else if |rest| >= 2 && rest[0] == ',' && rest[1] == '\n' then
        var more := ReadTuples(rest[2..]);
        if more.None? then None else Some([row] + more.value)
      else None
  }

  /** The VALUES part: no tuple at all, or a list of tuples. */
  function ReadValues(t: string): Option<seq<Row>>
  {
    if t == ";" then Some([]) else ReadTuples(t)
  }

  /** How `ReadItems` continues once the first literal has been read. */
  lemma ReadItemsAfterLiteral(t: string, v: string, after: string)
    requires ReadLiteralBody(t) == Some((v, after))
    ensures |after| >= 3 && after[0] == ',' && after[1] == ' ' && after[2] == Quote
            && ReadItems(after[3..]).Some? ==>
            ReadItems(t) == Some(([v] + ReadItems(after[3..]).value.0, ReadItems(after[3..]).value.1))
    ensures after != [] && after[0] == ')' ==> ReadItems(t) == Some(([v], after[1..]))
  {
  }

  lemma ReadItemsLast(v: string, rest: string)
    ensures ReadItems(Escape(v) + "')" + rest) == Some(([v], rest))
  {
    var after := ")" + rest;
    var t := Escape(v) + "')" + rest;
    assert t == Escape(v) + [Quote] + after;
    ReadEscaped(v, after);
    ReadItemsAfterLiteral(t, v, after);
    assert after[1..] == rest;
  }

  lemma ReadItemsNext(v: string, inner: string)
    requires ReadItems(inner).Some?
    ensures ReadItems(Escape(v) + "', '" + inner)
         == Some(([v] + ReadItems(inner).value.0, ReadItems(inner).value.1))
  {
    var after := ", '" + inner;
    var t := Escape(v) + "', '" + inner;
    assert t == Escape(v) + [Quote] + after;
    ReadEscaped(v, after);
    assert after[0] == ',' && after[1] == ' ' && after[2] == Quote;
    assert after[3..] == inner;
    ReadItemsAfterLiteral(t, v, after);
  }

  lemma {:induction false} ReadItemsRoundTrip(row: Row, rest: string)
    requires |row| >= 1
    ensures ReadItems(Join(EscapeAll(row), "', '") + "')" + rest) == Some((row, rest))
  {
    if |row| == 1 {
      assert EscapeAll(row) == [Escape(row[0])];
      assert Join(EscapeAll(row), "', '") == Escape(row[0]);
      ReadItemsLast(row[0], rest);
      assert [row[0]] == row;
    } else {
      var inner := Join(EscapeAll(row[1..]), "', '") + "')" + rest;
      ReadItemsRoundTrip(row[1..], rest);
      var es := EscapeAll(row);
      assert es == [Escape(row[0])] + EscapeAll(row[1..]);
      assert |es| >= 2 by { assert EscapeAll(row[1..]) != []; }
      assert es[1..] == EscapeAll(row[1..]);
      assert Join(es, "', '") + "')" + rest == Escape(row[0]) + "', '" + inner;
      ReadItemsNext(row[0], inner);
      assert [row[0]] + row[1..] == row;
    }
  }

  /** A tuple of a row with at least one value reads back as that row. */
  lemma TupleRoundTrip(row: Row, rest: string)
    requires |row| >= 1
    ensures ReadTuple(TupleText(row) + rest) == Some((row, rest))
  {
    var t := TupleText(row) + rest;
    var inner := Join(EscapeAll(row), "', '") + "')" + rest;
    assert t == "('" + inner;
    assert t[2..] == inner;
    ReadItemsRoundTrip(row, rest);
  }

  lemma ReadTuplesLast(row: Row)
    requires |row| >= 1
    ensures ReadTuples(TupleText(row) + ";") == Some([row])
  {
    TupleRoundTrip(row, ";");
  }

  lemma ReadTuplesNext(row: Row, inner: string)
    requires |row| >= 1 && ReadTuples(inner).Some?
    ensures ReadTuples(TupleText(row) + ",\n" + inner) == Some([row] + ReadTuples(inner).value)
  {
    var after := ",\n" + inner;
    TupleRoundTrip(row, after);
    assert TupleText(row) + ",\n" + inner == TupleText(row) + after;
    assert after[0] == ',' && after[1] == '\n';
    assert after[2..] == inner;
  }

  lemma TuplesCons(rows: seq<Row>)
    requires |rows| >= 2
    ensures Join(Tuples(rows), ",\n") + ";"
         == TupleText(rows[0]) + ",\n" + (Join(Tuples(rows[1..]), ",\n") + ";")
  {
    var ts := Tuples(rows);
    assert ts[0] == TupleText(rows[0]);
    assert ts[1..] == Tuples(rows[1..]);
    assert Join(ts, ",\n") == ts[0] + ",\n" + Join(ts[1..], ",\n");
  }

  lemma {:induction false} TuplesRoundTrip(rows: seq<Row>)
    requires |rows| >= 1
    requires forall i :: 0 <= i < |rows| ==> |rows[i]| >= 1
    ensures ReadTuples(Join(Tuples(rows), ",\n") + ";") == Some(rows)
  {
    if |rows| == 1 {
      assert Tuples(rows) == [TupleText(rows[0])];
      ReadTuplesLast(rows[0]);
      assert [rows[0]] == rows;
    } else {
      var inner := Join(Tuples(rows[1..]), ",\n") + ";";
      TuplesRoundTrip(rows[1..]);
      TuplesCons(rows);
      ReadTuplesNext(rows[0], inner);
      assert [rows[0]] + rows[1..] == rows;
    }
  }

  /** The VALUES part holds exactly one tuple per row, in row order: reading
      it back gives the rows themselves (for rows with at least one value). */
  lemma ValuesRoundTrip(rows: seq<Row>)
    requires forall i :: 0 <= i < |rows| ==> |rows[i]| >= 1
    ensures ReadValues(ValuesText(rows)) == Some(rows)
  {
    if rows != [] {
      TuplesRoundTrip(rows);
      TuplesEndWithParen(rows);
      JoinEndsWithParen(Tuples(rows), ",\n");
    }
  }

  /** The edge cases of the code as written: no rows give an empty VALUES
      list closed by `;`, and a row with no values gives the tuple `('')`,
      which reads back as one empty value. */
  lemma InsertEdgeCases(table: string, columns: seq<string>, rest: string)
    ensures InsertText(table, columns, [])
         == "INSERT INTO " + table + " (" + Join(columns, ", ") + ")\nVALUES\n;"
    ensures TupleText([]) == "('')"
    ensures ReadTuple(TupleText([]) + rest) == Some(([""], rest))
  {
    ReadItemsRoundTrip([""], rest);
    assert EscapeAll([""]) == [""];
    assert Join(EscapeAll([""]), "', '") + "')" + rest == "')" + rest;
    assert (TupleText([]) + rest)[2..] == "')" + rest;
  }

  /** The column list of the INSERT is the select list of the SELECT, so the
      two name the columns in the same order. */
  lemma ColumnOrderMatchesSelect(table: string, columns: seq<string>, whereClause: string, rows: seq<Row>)
    ensures var list := Join(columns, ", ");
            var start := |"INSERT INTO "| + |table| + |" ("|;
            InsertText(table, columns, rows)[start..start + |list|]
              == SelectText(table, columns, whereClause)[7..7 + |list|]
  {
    var list := Join(columns, ", ");
    var start := |"INSERT INTO "| + |table| + |" ("|;
    assert InsertText(table, columns, rows)[start..start + |list|] == list;
    assert SelectText(table, columns, whereClause)[7..7 + |list|] == list;
  }
}
