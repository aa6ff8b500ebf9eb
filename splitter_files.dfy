/** How `dividir_csv_en_archivos` lays the rows out in files: one header for all
    files, fixed-size chunks and numbered file names. */
module SplitterFiles {
  import opened Csv
  import Dicts
  import Order
  import Decimal
  import SplitterRows
  import Chunks

  /** Rows per output file. */
  const LinesPerFile: nat := 2000

  const OutputDir: string := "csv_shopify_split"

  /** The columns that open the header, in this order, when some row has them. */
  const PriorityFields: seq<string> := ["Handle", "Title", "Body (HTML)", "Vendor", "Product Category", "Type", "Tags"]

  /** The union of the rows' columns. */
  function KeysOf(rows: seq<Row>): set<string>
  {
    if rows == [] then {} else KeysOf(rows[..|rows| - 1]) + rows[|rows| - 1].Keys
  }

  lemma {:induction false} KeysOfSpec(rows: seq<Row>)
    ensures forall k :: k in KeysOf(rows) <==> exists i | 0 <= i < |rows| :: k in rows[i]
    decreases |rows|
  {
    if rows != [] {
      var init := rows[..|rows| - 1];
      KeysOfSpec(init);
      assert forall i | 0 <= i < |init| :: init[i] == rows[i];
    }
  }

  /** The listed fields that are keys, in list order. */
  function Present(fields: seq<string>, keys: set<string>): (r: seq<string>)
    ensures forall x :: x in r <==> x in fields && x in keys
  {
    if fields == [] then []
    else (if fields[0] in keys then [fields[0]] else []) + Present(fields[1..], keys)
  }

  /** Checking one more field appends it when it is a key. */
  lemma {:induction false} PresentSnoc(fields: seq<string>, x: string, keys: set<string>)
    ensures Present(fields + [x], keys) == Present(fields, keys) + (if x in keys then [x] else [])
    decreases |fields|
  {
    if fields == [] {
      assert [x][1..] == [];
    } else {
      assert (fields + [x])[0] == fields[0] && (fields + [x])[1..] == fields[1..] + [x];
      PresentSnoc(fields[1..], x, keys);
    }
  }

  /** A list without repetitions. */
  predicate NoRepeats(s: seq<string>) {
    forall i, j | 0 <= i < j < |s| :: s[i] != s[j]
  }

  lemma {:induction false} PresentNoRepeats(fields: seq<string>, keys: set<string>)
    requires NoRepeats(fields)
    ensures NoRepeats(Present(fields, keys))
  {
    if fields != [] {
      assert NoRepeats(fields[1..]) by {
        forall i, j | 0 <= i < j < |fields[1..]| ensures fields[1..][i] != fields[1..][j] {
          assert fields[1..][i] == fields[i + 1] && fields[1..][j] == fields[j + 1];
        }
      }
      PresentNoRepeats(fields[1..], keys);
      assert fields[0] !in fields[1..] by {
        forall j | 0 <= j < |fields[1..]| ensures fields[1..][j] != fields[0] {
          assert fields[1..][j] == fields[j + 1];
        }
      }
    }
  }

  /** The header: the priority fields present, then every other key in sorted order. */
  ghost function Header(keys: set<string>): seq<string>
  {
    HeaderOf(PriorityFields, keys)
  }

  /** The header for an arbitrary list of priority fields. */
  ghost function HeaderOf(priority: seq<string>, keys: set<string>): seq<string>
  {
    Present(priority, keys) + Order.Sorted(keys - Order.Elements(priority))
  }

  lemma PriorityNoRepeats()
    ensures NoRepeats(PriorityFields)
  {
  }

  /** The header holds exactly the keys. */
  lemma HeaderOfElements(priority: seq<string>, keys: set<string>)
    ensures Order.Elements(HeaderOf(priority, keys)) == keys
  {
    var p := Present(priority, keys);
    var rest := keys - Order.Elements(priority);
    var s := Order.Sorted(rest);
    Order.SortedSpec(rest);
    var h := HeaderOf(priority, keys);
    assert h == p + s;
    forall x ensures x in Order.Elements(h) <==> x in keys {
      assert x in h <==> x in p || x in s;
      assert x in s <==> x in Order.Elements(s);
      assert x in Order.Elements(priority) <==> x in priority;
    }
  }

  /** The header begins with the priority fields present, in priority order, and
      the keys after them are in ascending order and none of them a priority field. */
  lemma HeaderOfParts(priority: seq<string>, keys: set<string>)
    ensures var p := Present(priority, keys);
      HeaderOf(priority, keys)[..|p|] == p
      && Order.StrictlySorted(HeaderOf(priority, keys)[|p|..])
      && forall x | x in HeaderOf(priority, keys)[|p|..] :: x !in priority
  {
    var p := Present(priority, keys);
    var rest := keys - Order.Elements(priority);
    var s := Order.Sorted(rest);
    Order.SortedSpec(rest);
    var h := p + s;
    assert h == HeaderOf(priority, keys);
    assert h[..|p|] == p;
    assert h[|p|..] == s;
    assert forall x | x in s :: x in rest;
  }

  /** With priority fields listed once each, no column appears twice in the header. */
  lemma HeaderOfNoRepeats(priority: seq<string>, keys: set<string>)
    requires NoRepeats(priority)
    ensures NoRepeats(HeaderOf(priority, keys))
  {
    var p := Present(priority, keys);
    var rest := keys - Order.Elements(priority);
    var s := Order.Sorted(rest);
    Order.SortedSpec(rest);
    PresentNoRepeats(priority, keys);
    var h := p + s;
    forall i, j | 0 <= i < j < |h| ensures h[i] != h[j] {
      if j < |p| {
        assert h[i] == p[i] && h[j] == p[j];
      } else if i >= |p| {
        assert h[i] == s[i - |p|] && h[j] == s[j - |p|];
        assert Order.Less(s[i - |p|], s[j - |p|]);
        Order.LessIrreflexive(h[i]);
      } else {
        assert h[i] == p[i] && h[j] == s[j - |p|];
        assert h[i] in p && h[j] in s;
        assert h[j] in rest;
      }
    }
  }

  /** The header lists every key exactly once, the priority fields present first
      in priority order and the remaining keys after them in ascending order. */
  lemma HeaderSpec(keys: set<string>)
    ensures Order.Elements(Header(keys)) == keys
    ensures NoRepeats(Header(keys))
    ensures var p := Present(PriorityFields, keys);
      Header(keys)[..|p|] == p
      && Order.StrictlySorted(Header(keys)[|p|..])
      && forall x | x in Header(keys)[|p|..] :: x !in PriorityFields
  {
    PriorityNoRepeats();
    HeaderOfElements(PriorityFields, keys);
    HeaderOfParts(PriorityFields, keys);
    HeaderOfNoRepeats(PriorityFields, keys);
  }

  /** `os.path.join("csv_shopify_split", f"shopify_productos_parte_{k:03d}_de_{total:03d}.csv")` */
  function FileName(k: nat, total: nat): string {
    FilePrefix + Decimal.Pad3(k) + FileSuffix(total)
  }

  const FilePrefix: string := OutputDir + "/shopify_productos_parte_"

  function FileSuffix(total: nat): string {
    "_de_" + Decimal.Pad3(total) + ".csv"
  }

  /** Two strings framed by the same prefix and suffix are equal when the framed
      strings are. */
  lemma MiddleInjective(pre: string, x: string, y: string, post: string)
    requires pre + x + post == pre + y + post
    ensures x == y
  {
    assert |x| == |y|;
    assert x == (pre + x + post)[|pre|..|pre| + |x|];
  }

  /** Files of one run have distinct names. */
  lemma FileNameInjective(a: nat, b: nat, total: nat)
    requires FileName(a, total) == FileName(b, total)
    ensures a == b
  {
    MiddleInjective(FilePrefix, Decimal.Pad3(a), Decimal.Pad3(b), FileSuffix(total));
    Decimal.Pad3Injective(a, b);
  }

  /** `csv.DictWriter.writerow` with its default `extrasaction='raise'` accepts a
      row only when every key of the row is a header column. */
  predicate Fits(header: seq<string>, row: Row) {
    forall k | k in row :: k in header
  }

  /** The output file names for `total` chunks, by file number. */
  function FileNames(total: nat): nat -> string {
    (n: nat) => FileName(n, total)
  }

  /** The names `name(j + 1)` of the chunks `j < k` that pass `ok`, in order. */
  function NamesWith(name: nat -> string, ok: nat -> bool, k: nat): seq<string>
  {
    if k == 0 then []
    else NamesWith(name, ok, k - 1) + (if ok(k - 1) then [name(k)] else [])
  }

  /** The names of the files among the first `k` of `total` whose chunk passes
      `ok`, in order. */
  function Names(total: nat, ok: nat -> bool, k: nat): seq<string> {
    NamesWith(FileNames(total), ok, k)
  }

  /** `Names` one chunk at a time. */
  lemma NamesStep(total: nat, ok: nat -> bool, k: nat)
    requires k > 0
    ensures Names(total, ok, k) == Names(total, ok, k - 1) + (if ok(k - 1) then [FileName(k, total)] else [])
  {
  }

  /** At most one name per chunk, each of a chunk that passes. */
  lemma {:induction false} NamesFrom(total: nat, ok: nat -> bool, k: nat)
    ensures |Names(total, ok, k)| <= k
    ensures forall name | name in Names(total, ok, k) ::
      exists j | 0 <= j < k :: name == FileName(j + 1, total) && ok(j)
  {
    if k > 0 {
      NamesFrom(total, ok, k - 1);
      NamesStep(total, ok, k);
    }
  }

  /** The name of a later file `j + 1` is not among those of the first `k`. */
  lemma {:induction false} NameNotEarlier(total: nat, ok: nat -> bool, j: nat, k: nat)
    requires k <= j
    ensures FileName(j + 1, total) !in Names(total, ok, k)
  {
    if k > 0 {
      NameNotEarlier(total, ok, j, k - 1);
      NamesStep(total, ok, k);
      if FileName(j + 1, total) == FileName(k, total) {
        FileNameInjective(j + 1, k, total);
      }
    }
  }

  /** The names are distinct. */
  lemma {:induction false} NamesDistinct(total: nat, ok: nat -> bool, k: nat)
    ensures NoRepeats(Names(total, ok, k))
  {
    if k > 0 {
      NamesDistinct(total, ok, k - 1);
      NamesStep(total, ok, k);
      if ok(k - 1) {
        NameNotEarlier(total, ok, k - 1, k - 1);
        NoRepeatsSnoc(Names(total, ok, k - 1), FileName(k, total));
      }
    }
  }

  lemma NoRepeatsSnoc(s: seq<string>, x: string)
    requires NoRepeats(s) && x !in s
    ensures NoRepeats(s + [x])
  {
    var l := s + [x];
    forall i, j | 0 <= i < j < |l| ensures l[i] != l[j] {
      if j == |s| {
        assert l[i] == s[i];
      } else {
        assert l[i] == s[i] && l[j] == s[j];
      }
    }
  }

  /** Tests that agree on the first `k` chunks give the same names. */
  lemma {:induction false} NamesAgree(total: nat, ok1: nat -> bool, ok2: nat -> bool, k: nat)
    requires forall j | 0 <= j < k :: ok1(j) == ok2(j)
    ensures Names(total, ok1, k) == Names(total, ok2, k)
  {
    if k > 0 {
      NamesAgree(total, ok1, ok2, k - 1);
      NamesStep(total, ok1, k);
      NamesStep(total, ok2, k);
    }
  }

  /** When none of the first `k` chunks passes, no name is given. */
  lemma {:induction false} NamesNone(total: nat, ok: nat -> bool, k: nat)
    requires forall j | 0 <= j < k :: !ok(j)
    ensures Names(total, ok, k) == []
  {
    if k > 0 {
      NamesNone(total, ok, k - 1);
      NamesStep(total, ok, k);
    }
  }

  /** Every row of the chunk, cleaned by `clean`, is accepted by the writer. */
  predicate ChunkFitsWith(header: seq<string>, chunk: seq<Row>, clean: Row -> Row) {
    forall i | 0 <= i < |chunk| :: Fits(header, clean(chunk[i]))
  }

  /** Every cleaned row of the chunk is accepted by the writer. */
  predicate ChunkFits(header: seq<string>, chunk: seq<Row>) {
    ChunkFitsWith(header, chunk, SplitterRows.CleanRow)
  }

  /** A chunk whose first `j` rows fit and whose next row fits has its first
      `j + 1` rows fit. */
  lemma ChunkFitsNext(header: seq<string>, chunk: seq<Row>, clean: Row -> Row, j: nat)
    requires j < |chunk| && ChunkFitsWith(header, chunk[..j], clean)
    requires Fits(header, clean(chunk[j]))
    ensures ChunkFitsWith(header, chunk[..j + 1], clean)
  {
    assert forall i | 0 <= i < j :: chunk[..j + 1][i] == chunk[..j][i];
  }

  /** A row that does not fit keeps its chunk from fitting. */
  lemma ChunkFitsAt(header: seq<string>, chunk: seq<Row>, clean: Row -> Row, j: nat)
    requires j < |chunk| && !Fits(header, clean(chunk[j]))
    ensures !ChunkFitsWith(header, chunk, clean)
  {
  }

  /** Whether chunk `j` ends up as a listed file: its file can be written
      (`writeOk`) and the writer accepts all its rows once `clean` has been
      applied to them. */
  predicate KeptWith(rows: seq<Row>, header: seq<string>, writeOk: nat -> bool, clean: Row -> Row, j: nat) {
    writeOk(j) && j < Chunks.Count(|rows|, LinesPerFile) && ChunkFitsWith(header, Chunks.Chunk(rows, LinesPerFile, j), clean)
  }

  /** `KeptWith` as a test on chunk numbers. */
  function KeptTestWith(rows: seq<Row>, header: seq<string>, writeOk: nat -> bool, clean: Row -> Row): nat -> bool {
    (j: nat) => KeptWith(rows, header, writeOk, clean, j)
  }

  /** Chunk `j` is kept when its file opens and each of its cleaned rows fits. */
  function KeptTest(rows: seq<Row>, header: seq<string>, writeOk: nat -> bool): nat -> bool {
    KeptTestWith(rows, header, writeOk, SplitterRows.CleanRow)
  }

  /** The names of the files written for the rows under `header`. */
  function Listed(rows: seq<Row>, header: seq<string>, writeOk: nat -> bool): seq<string>
  {
    Names(Chunks.Count(|rows|, LinesPerFile), KeptTest(rows, header, writeOk), Chunks.Count(|rows|, LinesPerFile))
  }

  /** When every chunk fits, exactly the writable chunks are listed. */
  lemma ListedWhenFits(rows: seq<Row>, header: seq<string>, writeOk: nat -> bool)
    requires forall j | 0 <= j < Chunks.Count(|rows|, LinesPerFile) :: ChunkFits(header, Chunks.Chunk(rows, LinesPerFile, j))
    ensures Listed(rows, header, writeOk) == Names(Chunks.Count(|rows|, LinesPerFile), writeOk, Chunks.Count(|rows|, LinesPerFile))
  {
    NamesAgree(Chunks.Count(|rows|, LinesPerFile), KeptTest(rows, header, writeOk), writeOk, Chunks.Count(|rows|, LinesPerFile));
  }

  /** When no chunk fits, nothing is listed. */
  lemma ListedWhenNoneFits(rows: seq<Row>, header: seq<string>, writeOk: nat -> bool)
    requires forall j | 0 <= j < Chunks.Count(|rows|, LinesPerFile) :: !ChunkFits(header, Chunks.Chunk(rows, LinesPerFile, j))
    ensures Listed(rows, header, writeOk) == []
  {
    NamesNone(Chunks.Count(|rows|, LinesPerFile), KeptTest(rows, header, writeOk), Chunks.Count(|rows|, LinesPerFile));
  }

  /** The rows as the writer receives them. */
  function CleanRows(rows: seq<Row>): (r: seq<Row>)
    ensures |r| == |rows| && forall i | 0 <= i < |rows| :: r[i] == SplitterRows.CleanRow(rows[i])
  {
    seq(|rows|, i requires 0 <= i < |rows| => SplitterRows.CleanRow(rows[i]))
  }

  /** `dividir_csv_en_archivos` as written: the header is built from the rows it
      receives, while the writer is given their cleaned versions. */
  ghost function DividirAsWritten(rows: seq<Row>, writeOk: nat -> bool): seq<string> {
    Listed(rows, Header(KeysOf(rows)), writeOk)
  }

  /** `dividir_csv_en_archivos` with the header built from the cleaned rows. */
  ghost function Dividir(rows: seq<Row>, writeOk: nat -> bool): seq<string> {
    Listed(rows, Header(KeysOf(CleanRows(rows))), writeOk)
  }

  /** A header holding every column of every row accepts every chunk. */
  lemma CoveringHeaderFits(rows: seq<Row>, header: seq<string>)
    requires forall i, key | 0 <= i < |rows| && key in SplitterRows.CleanRow(rows[i]) :: key in header
    ensures forall j | 0 <= j < Chunks.Count(|rows|, LinesPerFile) :: ChunkFits(header, Chunks.Chunk(rows, LinesPerFile, j))
  {
    Chunks.CountSpec(|rows|, LinesPerFile);
    forall j | 0 <= j < Chunks.Count(|rows|, LinesPerFile) ensures ChunkFits(header, Chunks.Chunk(rows, LinesPerFile, j)) {
      var c := Chunks.Chunk(rows, LinesPerFile, j);
      forall i | 0 <= i < |c| ensures Fits(header, SplitterRows.CleanRow(c[i])) {
        assert c[i] == rows[j * LinesPerFile + i];
      }
    }
  }

  /** The header built from the cleaned rows holds every column of every cleaned row. */
  lemma CleanedHeaderCovers(rows: seq<Row>)
    ensures forall i, key | 0 <= i < |rows| && key in SplitterRows.CleanRow(rows[i]) ::
      key in Header(KeysOf(CleanRows(rows)))
  {
    var cleaned := CleanRows(rows);
    HeaderSpec(KeysOf(cleaned));
    KeysOfSpec(cleaned);
    forall i, key | 0 <= i < |rows| && key in SplitterRows.CleanRow(rows[i])
      ensures key in Header(KeysOf(cleaned))
    {
      assert key in cleaned[i];
      assert key in Order.Elements(Header(KeysOf(cleaned)));
    }
  }

  /** With the header built from the cleaned rows, the writer accepts every chunk,
      so a chunk is listed exactly when its file can be written, and the listed
      names are distinct. */
  lemma DividirListsWritable(rows: seq<Row>, writeOk: nat -> bool)
    ensures Dividir(rows, writeOk) == Names(Chunks.Count(|rows|, LinesPerFile), writeOk, Chunks.Count(|rows|, LinesPerFile))
    ensures NoRepeats(Dividir(rows, writeOk))
  {
    var header := Header(KeysOf(CleanRows(rows)));
    CleanedHeaderCovers(rows);
    CoveringHeaderFits(rows, header);
    ListedWhenFits(rows, header, writeOk);
    NamesDistinct(Chunks.Count(|rows|, LinesPerFile), writeOk, Chunks.Count(|rows|, LinesPerFile));
  }

  /** As written, when some default column is missing from every row none of the
      chunks is listed, whatever the file system does: each cleaned row carries
      that column and the header does not. */
  lemma AsWrittenMissingDefault(rows: seq<Row>, writeOk: nat -> bool, d: string)
    requires d in Dicts.Keys(SplitterRows.Defaults) && d !in KeysOf(rows)
    ensures DividirAsWritten(rows, writeOk) == []
  {
    var header := Header(KeysOf(rows));
    HeaderSpec(KeysOf(rows));
    Chunks.CountSpec(|rows|, LinesPerFile);
    forall j | 0 <= j < Chunks.Count(|rows|, LinesPerFile) ensures !ChunkFits(header, Chunks.Chunk(rows, LinesPerFile, j)) {
      Chunks.ChunkSize(rows, LinesPerFile, j);
      var c := Chunks.Chunk(rows, LinesPerFile, j);
      SplitterRows.CleanRowSpec(c[0]);
      assert d in SplitterRows.CleanRow(c[0]);
      assert d !in Order.Elements(header);
    }
    ListedWhenNoneFits(rows, header, writeOk);
  }

  /** One native row with only the columns Handle, Title, Variant Price and Variant
      Inventory Qty: as written no file is listed even when every write succeeds,
      while the corrected header lists the single file. */
  lemma AsWrittenExample(row: Row, writeOk: nat -> bool)
    requires row.Keys == {"Handle", "Title", "Variant Price", "Variant Inventory Qty"}
    requires forall k :: writeOk(k)
    ensures DividirAsWritten([row], writeOk) == []
    ensures Dividir([row], writeOk) == [FileName(1, 1)]
  {
    KeysOfSpec([row]);
    assert "Status" !in KeysOf([row]);
    SplitterRows.DefaultKeysFacts();
    AsWrittenMissingDefault([row], writeOk, "Status");
    DividirListsWritable([row], writeOk);
    assert Chunks.Count(1, LinesPerFile) == 1;
  }
}
