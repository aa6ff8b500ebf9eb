/** The stock rules that decide which catalogue rows are imported. */
module Stock {
  import opened Wrappers
  import opened Csv

  /** The rows `keep` accepts, in their original order. */
  function Filter(rows: seq<Row>, keep: Row -> bool): (kept: seq<Row>)
    ensures |kept| <= |rows|
  {
    if rows == [] then []
    else Filter(rows[..|rows| - 1], keep) + if keep(rows[|rows| - 1]) then [rows[|rows| - 1]] else []
  }

  /** Filtering distributes over concatenation: the kept rows of a list are the kept
      rows of its first part followed by those of its second, so order is kept. */
  lemma {:induction false} FilterAppend(a: seq<Row>, b: seq<Row>, keep: Row -> bool)
    ensures Filter(a + b, keep) == Filter(a, keep) + Filter(b, keep)
    decreases |b|
  {
    if b == [] {
      assert a + b == a;
    } else {
      var b' := b[..|b| - 1];
      assert (a + b)[..|a + b| - 1] == a + b';
      assert (a + b)[|a + b| - 1] == b[|b| - 1];
      FilterAppend(a, b', keep);
    }
  }

  /** Exactly the accepted rows are kept. */
  lemma {:induction false} FilterMembers(rows: seq<Row>, keep: Row -> bool)
    ensures forall r | r in Filter(rows, keep) :: r in rows && keep(r)
    ensures forall i | 0 <= i < |rows| && keep(rows[i]) :: rows[i] in Filter(rows, keep)
    decreases |rows|
  {
    if rows != [] {
      var init := rows[..|rows| - 1];
      FilterMembers(init, keep);
      assert forall i | 0 <= i < |init| :: init[i] == rows[i];
      assert forall r | r in init :: r in rows;
    }
  }

  /** How many rows `keep` rejects. */
  function Rejected(rows: seq<Row>, keep: Row -> bool): nat
  {
    if rows == [] then 0
    else Rejected(rows[..|rows| - 1], keep) + if keep(rows[|rows| - 1]) then 0 else 1
  }

  /** The kept and the rejected rows add up to the input. */
  lemma {:induction false} FilterPartition(rows: seq<Row>, keep: Row -> bool)
    ensures |Filter(rows, keep)| + Rejected(rows, keep) == |rows|
    decreases |rows|
  {
    if rows != [] {
      FilterPartition(rows[..|rows| - 1], keep);
    }
  }

  /** Filtering twice keeps the same rows. */
  lemma {:induction false} FilterIdempotent(rows: seq<Row>, keep: Row -> bool)
    ensures Filter(Filter(rows, keep), keep) == Filter(rows, keep)
    decreases |rows|
  {
    if rows != [] {
      var init := rows[..|rows| - 1];
      var last := rows[|rows| - 1];
      FilterIdempotent(init, keep);
      FilterAppend(Filter(init, keep), if keep(last) then [last] else [], keep);
      if keep(last) {
        assert [last][..0] == [];
      }
    }
  }

  /** `float(producto.get('Variant Inventory Qty', 0))`: a missing column reads as
      zero, an unparsable value as `None`. */
  function ImporterStock(row: Row, parse: string -> Option<real>): Option<real>
  {
    if "Variant Inventory Qty" in row then parse(row["Variant Inventory Qty"]) else Some(0.0)
  }

  /** The importer keeps a row whose stock reads as a positive number. */
  predicate ImporterKeeps(row: Row, parse: string -> Option<real>) {
    ImporterStock(row, parse).Some? && ImporterStock(row, parse).value > 0.0
  }

  /** The importer's rule as `Filter` applies it. */
  function ImporterRule(parse: string -> Option<real>): Row -> bool {
    row => ImporterKeeps(row, parse)
  }

  /** The importer's rule: a missing column or an unparsable value is never kept. */
  lemma ImporterRejects(row: Row, parse: string -> Option<real>)
    ensures "Variant Inventory Qty" !in row ==> !ImporterKeeps(row, parse)
    ensures "Variant Inventory Qty" in row && parse(row["Variant Inventory Qty"]).None? ==> !ImporterKeeps(row, parse)
  {
  }

  /** The splitter's stock: the value of the first listed column that is present,
      non-empty and parsable, zero when there is none. */
  function SplitterStockFrom(fields: seq<string>, row: Row, parse: string -> Option<real>): real
  {
    if fields == [] then 0.0
    else if fields[0] in row && row[fields[0]] != "" && parse(row[fields[0]]).Some? then parse(row[fields[0]]).value
    else SplitterStockFrom(fields[1..], row, parse)
  }

  /** Column `f` is one the splitter reads its stock from. */
  predicate Readable(row: Row, f: string, parse: string -> Option<real>) {
    f in row && row[f] != "" && parse(row[f]).Some?
  }

  /** The splitter reads its stock from the first readable column, even when that
      value is not positive; with no readable column the stock is zero. */
  lemma SplitterStockFirst(fields: seq<string>, row: Row, parse: string -> Option<real>)
    ensures (forall f | f in fields :: !Readable(row, f, parse)) ==> SplitterStockFrom(fields, row, parse) == 0.0
    ensures forall i | 0 <= i < |fields| && Readable(row, fields[i], parse)
                       && (forall j | 0 <= j < i :: !Readable(row, fields[j], parse)) ::
      SplitterStockFrom(fields, row, parse) == parse(row[fields[i]]).value
  {
    SplitterStockNone(fields, row, parse);
    forall i | 0 <= i < |fields| && Readable(row, fields[i], parse)
               && (forall j | 0 <= j < i :: !Readable(row, fields[j], parse))
      ensures SplitterStockFrom(fields, row, parse) == parse(row[fields[i]]).value
    {
      SplitterStockAt(fields, row, parse, i);
    }
  }

  lemma {:induction false} SplitterStockNone(fields: seq<string>, row: Row, parse: string -> Option<real>)
    ensures (forall f | f in fields :: !Readable(row, f, parse)) ==> SplitterStockFrom(fields, row, parse) == 0.0
  {
    if fields != [] && forall f | f in fields :: !Readable(row, f, parse) {
      assert fields[0] in fields;
      assert forall f | f in fields[1..] :: f in fields;
      SplitterStockNone(fields[1..], row, parse);
    }
  }

  lemma {:induction false} SplitterStockAt(fields: seq<string>, row: Row, parse: string -> Option<real>, i: nat)
    requires i < |fields| && Readable(row, fields[i], parse)
    requires forall j | 0 <= j < i :: !Readable(row, fields[j], parse)
    ensures SplitterStockFrom(fields, row, parse) == parse(row[fields[i]]).value
  {
    if i > 0 {
      assert !Readable(row, fields[0], parse);
      assert fields[1..][i - 1] == fields[i];
      assert forall j | 0 <= j < i - 1 :: fields[1..][j] == fields[j + 1];
      SplitterStockAt(fields[1..], row, parse, i - 1);
    }
  }

  predicate SplitterKeeps(row: Row, parse: string -> Option<real>) {
    SplitterStockFrom(StockFields, row, parse) > 0.0
  }

  /** The splitter's rule as the test `Filter` applies. */
  function SplitterRule(parse: string -> Option<real>): Row -> bool {
    row => SplitterKeeps(row, parse)
  }

  /** The splitter and the verifier read different stock from the same row: a
      readable zero in an earlier column hides a positive value in a later one from
      the splitter, not from the verifier. */
  lemma RulesDiffer(parse: string -> Option<real>)
    requires parse("0") == Some(0.0) && parse("5") == Some(5.0)
    ensures var row := map["Stock" := "0", "Quantity" := "5"];
      !SplitterKeeps(row, parse) && exists f | f in StockFields :: f in row && parse(row[f]).Some? && parse(row[f]).value > 0.0
  {
    var row := map["Stock" := "0", "Quantity" := "5"];
    assert StockFields[2] == "Stock" && StockFields[3] == "Quantity";
    assert !Readable(row, StockFields[0], parse) && !Readable(row, StockFields[1], parse);
    SplitterStockAt(StockFields, row, parse, 2);
  }

  /** `int(x)` on a float: truncation toward zero. */
  function Trunc(x: real): (n: int)
    ensures x >= 0.0 ==> n as real <= x < n as real + 1.0
    ensures x < 0.0 ==> n as real - 1.0 < x <= n as real
  {
    if x >= 0.0 then x.Floor else -((-x).Floor)
  }

  /** A truncated value is positive exactly when the value is at least one. */
  lemma TruncPositive(x: real)
    ensures Trunc(x) > 0 <==> x >= 1.0
  {
  }
}
