/** The destination side of the migration (`create_sql_server_table`) and
    the batch transfer engine (`copy_data_postgresql_to_sql_server_batch`).
    The source cursor and the destination connection are modelled by what
    they are asked to do: the cursor records the queries it executes and
    hands out the rows of its result set, and the destination keeps the log
    of executed statements and commits. */
module Transfer {
  import opened SqlText
  import opened InsertStatement

  function Min(a: nat, b: nat): nat
  {
    if a <= b then a else b
  }

  /** One thing the destination was asked to do. */
  datatype DbOp = Executed(sql: string) | Committed

  /** The destination connection with its cursor. */
  class Destination {
    var log: seq<DbOp>

    constructor ()
      ensures log == []
    {
      log := [];
    }

    /** `cursor.execute(sql)` */
    method Execute(sql: string)
      modifies this
      ensures log == old(log) + [Executed(sql)]
    {
      log := log + [Executed(sql)];
    }

    /** `conn.commit()` */
    method Commit()
      modifies this
      ensures log == old(log) + [Committed]
    {
      log := log + [Committed];
    }
  }

  /** The source cursor: the queries it has executed, the result set of the
      last one and the read position in it. What the source database answers
      to a query is not part of the model: it is handed to `Execute`. */
  class SourceCursor {
    var queries: seq<string>
    var rows: seq<Row>
    var pos: nat

    ghost predicate Valid()
      reads this
    {
      pos <= |rows|
    }

    constructor ()
      ensures Valid() && queries == [] && rows == [] && pos == 0
    {
      queries, rows, pos := [], [], 0;
    }

    /** `cursor.execute(query)`, the source answering with `answer`. */
    method Execute(query: string, answer: seq<Row>)
      modifies this
      ensures Valid()
      ensures queries == old(queries) + [query] && rows == answer && pos == 0
    {
      queries := queries + [query];
      rows, pos := answer, 0;
    }

    /** `cursor.fetchmany(size)`: the next `size` rows, fewer at the end of
        the result set, none once it is exhausted. */
    method FetchMany(size: nat) returns (batch: seq<Row>)
      requires Valid()
      modifies this
      ensures Valid() && queries == old(queries) && rows == old(rows)
      ensures pos == Min(old(pos) + size, |rows|)
      ensures batch == rows[old(pos)..pos]
    {
      var next := Min(pos + size, |rows|);
      batch := rows[pos..next];
      pos := next;
    }
  }

  // ---------------------------------------------------------------------
  // Table provisioning
  // ---------------------------------------------------------------------

  /** `create_sql_server_table(conn, table_name, columns)`: drop, create,
      commit, and nothing else. */
  method CreateTable(dst: Destination, table: string, columnDefinitions: string)
    modifies dst
    ensures dst.log == old(dst.log)
                       + [ Executed("DROP TABLE IF EXISTS " + table + ";"),
                           Executed("CREATE TABLE " + table + " (" + columnDefinitions + ");"),
                           Committed ]
  {
    dst.Execute("DROP TABLE IF EXISTS " + table + ";");
    dst.Execute("CREATE TABLE " + table + " (" + columnDefinitions + ");");
    dst.Commit();
  }

  // ---------------------------------------------------------------------
  // Batching, as a specification
  // ---------------------------------------------------------------------

  /** The batches successive `fetchmany(size)` calls hand out over `rows`,
      up to the first empty one. */
  function Batches(rows: seq<Row>, size: nat): seq<seq<Row>>
    decreases |rows|
  {
    if size == 0 || rows == [] then []
    else
      var n := Min(size, |rows|);
      [rows[..n]] + Batches(rows[n..], size)
  }

  function Flatten(batches: seq<seq<Row>>): seq<Row>
  {
    if batches == [] then [] else batches[0] + Flatten(batches[1..])
  }

  lemma {:induction false} FlattenSnoc(batches: seq<seq<Row>>, batch: seq<Row>)
    ensures Flatten(batches + [batch]) == Flatten(batches) + batch
  {
    if batches != [] {
      FlattenSnoc(batches[1..], batch);
      assert (batches + [batch])[1..] == batches[1..] + [batch];
    } else {
      assert [batch][1..] == [];
    }
  }

  /** The batches concatenate to exactly the source rows, in cursor order. */
  lemma {:induction false} BatchesCoverRows(rows: seq<Row>, size: nat)
    requires size >= 1
    ensures Flatten(Batches(rows, size)) == rows
    decreases |rows|
  {
    if rows != [] {
      var n := Min(size, |rows|);
      BatchesCoverRows(rows[n..], size);
      assert Batches(rows, size)[1..] == Batches(rows[n..], size);
      assert rows[..n] + rows[n..] == rows;
    }
  }

  /** Every batch holds between 1 and `size` rows, and only the last one may
      hold fewer than `size`. */
  lemma {:induction false} BatchSizes(rows: seq<Row>, size: nat)
    requires size >= 1
    ensures forall i :: 0 <= i < |Batches(rows, size)| ==> 1 <= |Batches(rows, size)[i]| <= size
    ensures forall i :: 0 <= i < |Batches(rows, size)| - 1 ==> |Batches(rows, size)[i]| == size
    decreases |rows|
  {
    if rows != [] {
      var n := Min(size, |rows|);
      var b := Batches(rows, size);
      BatchSizes(rows[n..], size);
      assert b[1..] == Batches(rows[n..], size);
      if |b| > 1 {
        assert rows[n..] != [];
        assert n == size;
      }
      forall i | 0 <= i < |b|
        ensures 1 <= |b[i]| <= size
      {
        if i > 0 { assert b[i] == b[1..][i - 1]; }
      }
      forall i | 0 <= i < |b| - 1
        ensures |b[i]| == size
      {
        if i > 0 { assert b[i] == b[1..][i - 1]; }
      }
    }
  }

  lemma BatchesUnfold(rows: seq<Row>, size: nat)
    requires size >= 1 && rows != []
    ensures Batches(rows, size)[0] == rows[..Min(size, |rows|)]
    ensures Batches(rows, size)[1..] == Batches(rows[Min(size, |rows|)..], size)
    ensures |Batches(rows, size)| > 1 ==> size < |rows|
  {
  }

  /** The i-th batch is the slice `[i * size, min((i + 1) * size, n))` of
      the rows. */
  lemma {:induction false} BatchesAreSlices(rows: seq<Row>, size: nat, i: nat)
    requires size >= 1
    requires i < |Batches(rows, size)|
    ensures i * size < |rows|
    ensures Batches(rows, size)[i] == rows[i * size .. Min((i + 1) * size, |rows|)]
    decreases |rows|
  {
    BatchesUnfold(rows, size);
    if i > 0 {
      var tail := rows[size..];
      assert Batches(rows, size)[i] == Batches(tail, size)[i - 1];
      BatchesAreSlices(tail, size, i - 1);
      SliceShift(rows, size, i);
    }
  }

  /** Batch i - 1 of the rows after the first batch is batch i of all rows. */
  lemma SliceShift(rows: seq<Row>, size: nat, i: nat)
    requires 1 <= size < |rows| && i >= 1
    requires (i - 1) * size < |rows| - size
    ensures i * size < |rows|
    ensures rows[size..][(i - 1) * size .. Min(i * size, |rows| - size)]
         == rows[i * size .. Min((i + 1) * size, |rows|)]
  {
    var lo, mid, hi := (i - 1) * size, i * size, (i + 1) * size;
    MulDistributes(i, size);
    assert lo + size == mid && mid + size == hi;
    var end := Min(mid, |rows| - size);
    assert end + size == Min(hi, |rows|);
    assert rows[size..][lo..end] == rows[size + lo..size + end];
  }

  lemma BatchRowsAreSourceRows(rows: seq<Row>, size: nat, i: nat)
    requires size >= 1
    requires i < |Batches(rows, size)|
    ensures forall r :: r in Batches(rows, size)[i] ==> r in rows
  {
    BatchesAreSlices(rows, size, i);
    var lo := i * size;
    var b := rows[lo..Min((i + 1) * size, |rows|)];
    forall r | r in b ensures r in rows {
      var j :| 0 <= j < |b| && b[j] == r;
      assert rows[lo + j] == r;
    }
  }

  /** The number of batches is the ceiling of `n / size`: zero rows give no
      batch at all, and every started `size` rows give one. */
  lemma {:induction false} BatchCount(rows: seq<Row>, size: nat)
    requires size >= 1
    ensures (|Batches(rows, size)| - 1) * size < |rows| <= |Batches(rows, size)| * size
    ensures |Batches(rows, size)| == (|rows| + size - 1) / size
  {
    BatchBounds(rows, size);
    CeilingDiv(|rows|, size, |Batches(rows, size)|);
  }

  lemma {:induction false} BatchBounds(rows: seq<Row>, size: nat)
    requires size >= 1
    ensures (|Batches(rows, size)| - 1) * size < |rows| <= |Batches(rows, size)| * size
    decreases |rows|
  {
    if rows != [] {
      BatchesUnfold(rows, size);
      var n := Min(size, |rows|);
      BatchBounds(rows[n..], size);
      var c := |Batches(rows[n..], size)|;
      assert |Batches(rows, size)| == c + 1;
      MulDistributes(c + 1, size);
      if |rows| <= size {
        assert rows[n..] == [];
        assert c == 0;
      }
    }
  }

  lemma CeilingDiv(n: nat, size: nat, c: nat)
    requires size >= 1
    requires (c - 1) * size < n <= c * size
    ensures c == (n + size - 1) / size
  {
    var q := (n + size - 1) / size;
    var r := (n + size - 1) % size;
    assert q * size + r == n + size - 1;
    MulDistributes(c, size);
    MulDistributes(q, size);
    assert q * size < (c + 1) * size;
    LessFromMul(q, c + 1, size);
    assert c * size < (q + 1) * size;
    LessFromMul(c, q + 1, size);
  }

  lemma MulDistributes(a: int, k: int)
    ensures (a - 1) * k + k == a * k && a * k + k == (a + 1) * k
  {
  }

  lemma LessFromMul(a: int, b: int, k: nat)
    requires k >= 1 && a * k < b * k
    ensures a < b
  {
  }

  /** The boundary cases: one row per batch when `size` is 1, and a single
      batch holding every row when `size` covers them all. */
  lemma BatchesBoundaries(rows: seq<Row>, size: nat)
    requires size >= 1
    ensures size == 1 ==> (|Batches(rows, size)| == |rows|
                           && forall i :: 0 <= i < |rows| ==> Batches(rows, size)[i] == [rows[i]])
    ensures 1 <= |rows| <= size ==> Batches(rows, size) == [rows]
  {
    BatchCount(rows, size);
    if size == 1 {
      forall i | 0 <= i < |rows|
        ensures Batches(rows, size)[i] == [rows[i]]
      {
        BatchesAreSlices(rows, size, i);
      }
    }
    if 1 <= |rows| <= size {
      assert Batches(rows, size) == [rows[..|rows|]] + Batches(rows[|rows|..], size);
      assert rows[|rows|..] == [];
      assert rows[..|rows|] == rows;
    }
  }

  // ---------------------------------------------------------------------
  // The batch transfer
  // ---------------------------------------------------------------------

  /** One INSERT execution per batch, in batch order. */
  function InsertOps(table: string, columns: seq<string>, batches: seq<seq<Row>>): seq<DbOp>
  {
    seq(|batches|, i requires 0 <= i < |batches| => Executed(InsertText(table, columns, batches[i])))
  }

  function CommitCount(ops: seq<DbOp>): nat
  {
    if ops == [] then 0 else (if ops[0] == Committed then 1 else 0) + CommitCount(ops[1..])
  }

  /** What one transfer appends to the destination's log: one INSERT per
      batch and then exactly one commit, whatever the number of batches. */
  lemma {:induction false} CommitOnceAfterInserts(table: string, columns: seq<string>, batches: seq<seq<Row>>)
    ensures var ops := InsertOps(table, columns, batches) + [Committed];
            && |ops| == |batches| + 1
            && CommitCount(ops) == 1
            && ops[|ops| - 1] == Committed
            && forall i :: 0 <= i < |ops| - 1 ==> ops[i] == Executed(InsertText(table, columns, batches[i]))
  {
    var ops := InsertOps(table, columns, batches) + [Committed];
    if batches == [] {
      assert ops == [Committed];
      assert ops[1..] == [];
    } else {
      CommitOnceAfterInserts(table, columns, batches[1..]);
      assert ops[1..] == InsertOps(table, columns, batches[1..]) + [Committed];
    }
  }

  /** The step of the loop: a non-empty fetch at `pos` is the first of the
      batches that remain. */
  lemma BatchesStep(rows: seq<Row>, size: nat, pos: nat)
    requires size >= 1 && pos < |rows|
    ensures Batches(rows[pos..], size)
         == [rows[pos..Min(pos + size, |rows|)]] + Batches(rows[Min(pos + size, |rows|)..], size)
  {
    var rest := rows[pos..];
    var n := Min(size, |rest|);
    assert rest[..n] == rows[pos..Min(pos + size, |rows|)];
    assert rest[n..] == rows[Min(pos + size, |rows|)..];
  }

  lemma InsertOpsSnoc(table: string, columns: seq<string>, batches: seq<seq<Row>>, batch: seq<Row>)
    ensures InsertOps(table, columns, batches + [batch])
         == InsertOps(table, columns, batches) + [Executed(InsertText(table, columns, batch))]
  {
  }

  /** One turn of the transfer loop on a non-empty fetch keeps both loop
      invariants: the batches handed out so far concatenate to the rows
      before the read position, and with the batches still to come they make
      up all the batches. */
  lemma TransferStep(answer: seq<Row>, size: nat, done: seq<seq<Row>>, before: nat, after: nat)
    requires size >= 1 && before < |answer| && after == Min(before + size, |answer|)
    requires Flatten(done) == answer[..before]
    requires Batches(answer, size) == done + Batches(answer[before..], size)
    ensures Flatten(done + [answer[before..after]]) == answer[..after]
    ensures Batches(answer, size) == (done + [answer[before..after]]) + Batches(answer[after..], size)
  {
    BatchesStep(answer, size, before);
    FlattenSnoc(done, answer[before..after]);
    assert answer[..after] == answer[..before] + answer[before..after];
  }

  /** `values_list = []; for row in batch: values_list.append(row)` */
  method CollectRows(batch: seq<Row>) returns (valuesList: seq<Row>)
    ensures valuesList == batch
  {
    valuesList := [];
    for j := 0 to |batch|
      invariant valuesList == batch[..j]
    {
      valuesList := valuesList + [batch[j]];
    }
    assert batch[..|batch|] == batch;
  }

  /** `copy_data_postgresql_to_sql_server_batch(conn_pg, conn_sql_server,
      table_name, selected_columns, batch_size, where_clause)`; `answer` is
      what the source returns for the SELECT. */
  method CopyBatch(src: SourceCursor, dst: Destination, table: string, columns: seq<string>,
                   answer: seq<Row>, batchSize: nat := 1000, whereClause: string := "")
    modifies src, dst
    ensures src.Valid() && src.rows == answer
    ensures src.queries == old(src.queries) + [SelectText(table, columns, whereClause)]
    ensures batchSize >= 1 ==> src.pos == |answer|
    ensures dst.log == old(dst.log) + InsertOps(table, columns, Batches(answer, batchSize)) + [Committed]
  {
    var selectColumns := Join(columns, ", ");
    src.Execute("SELECT " + selectColumns + " FROM " + table + " " + whereClause + ";", answer);
    ghost var done: seq<seq<Row>> := [];
    while true
      invariant src.Valid() && src.rows == answer
      invariant src.queries == old(src.queries) + [SelectText(table, columns, whereClause)]
      invariant Flatten(done) == answer[..src.pos]
      invariant Batches(answer, batchSize) == done + Batches(answer[src.pos..], batchSize)
      invariant dst.log == old(dst.log) + InsertOps(table, columns, done)
      decreases |answer| - src.pos
    {
      ghost var before := src.pos;
      var batch := src.FetchMany(batchSize);
      if batch == [] {
        break;
      }
      var valuesList := CollectRows(batch);
      var insertSql := FormatInsertValues(table, columns, valuesList);
      dst.Execute(insertSql);
      TransferStep(answer, batchSize, done, before, src.pos);
      InsertOpsSnoc(table, columns, done, batch);
      done := done + [batch];
    }
    assert batchSize >= 1 ==> answer[src.pos..] == [];
    assert Batches(answer[src.pos..], batchSize) == [];
    assert done + [] == done;
    dst.Commit();
  }

  /** End to end: the INSERT statements a transfer executes hold, in order,
      exactly the source rows: each batch's VALUES part reads back as that
      batch, and the batches concatenate to the rows. */
  lemma TransferCopiesEveryRow(rows: seq<Row>, size: nat)
    requires size >= 1
    requires forall r :: r in rows ==> |r| >= 1
    ensures Flatten(Batches(rows, size)) == rows
    ensures forall i :: 0 <= i < |Batches(rows, size)| ==>
              ReadValues(ValuesText(Batches(rows, size)[i])) == Some(Batches(rows, size)[i])
  {
    BatchesCoverRows(rows, size);
    forall i | 0 <= i < |Batches(rows, size)|
      ensures ReadValues(ValuesText(Batches(rows, size)[i])) == Some(Batches(rows, size)[i])
    {
      BatchRowsAreSourceRows(rows, size, i);
      ValuesRoundTrip(Batches(rows, size)[i]);
    }
  }
}
