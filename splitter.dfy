/** `CSVSplitterShopify` (csv_shopify_split/csv_splitter_shopify.py): the
    offline splitter as an object with cumulative statistics, and the loops of
    its download, parse, conversion, stock filter, cleanup and file division. */
module Splitter {
  import opened Wrappers
  import opened Strings
  import opened Csv
  import Encoding
  import Handles
  import Decimal
  import Order
  import Chunks
  import Retry
  import Stock
  import SplitterRows
  import SplitterFiles
  import SplitterFlow

  /** The stock loop of `filtrar_productos_con_stock` over `fields`: the value of
      the first field present, non-empty and parsable, zero when there is none. */
  method StockFrom(fields: seq<string>, row: Row, parse: string -> Option<real>) returns (stock: real)
    ensures stock == Stock.SplitterStockFrom(fields, row, parse)
  {
    var j := 0;
    while j < |fields|
      invariant 0 <= j <= |fields|
      invariant Stock.SplitterStockFrom(fields, row, parse) == Stock.SplitterStockFrom(fields[j..], row, parse)
    {
      assert fields[j..][1..] == fields[j + 1..];
      var campo := fields[j];
      if campo in row && row[campo] != "" {
        match parse(row[campo]) {
          case Some(v) => return v;
          case None =>
        }
      }
      j := j + 1;
    }
    return 0.0;
  }

  /** The mapping loop of `convertir_a_formato_shopify` over `pairs`: each vendor
      cell that strips to something fills its Shopify column. */
  method MapColumns(raw: Row, pairs: seq<(string, string)>) returns (m: Row)
    ensures m == SplitterRows.MapInto(raw, pairs, map[])
  {
    m := map[];
    var j := 0;
    while j < |pairs|
      invariant 0 <= j <= |pairs|
      invariant m == SplitterRows.MapInto(raw, pairs[..j], map[])
    {
      assert pairs[..j + 1] == pairs[..j] + [pairs[j]];
      SplitterRows.MapIntoSnoc(raw, pairs[..j], pairs[j], map[]);
      var (original, shopify) := pairs[j];
      if original in raw && raw[original] != "" {
        var valor := Strip(raw[original]);
        if valor != "" {
          m := m[shopify := valor];
        }
      }
      j := j + 1;
    }
    assert pairs[..j] == pairs;
  }

  /** The title search of `convertir_a_formato_shopify` for row `i`: the first
      truthy source cell cut to 100 characters, else "Producto {i+1}". */
  method TitleFrom(raw: Row, sources: seq<string>, i: nat) returns (t: string)
    ensures t == SplitterRows.FallbackTitle(raw, sources, i)
  {
    var j := 0;
    while j < |sources|
      invariant 0 <= j <= |sources|
      invariant SplitterRows.FallbackTitle(raw, sources, i) == SplitterRows.FallbackTitle(raw, sources[j..], i)
    {
      assert sources[j..][1..] == sources[j + 1..];
      var campo := sources[j];
      if campo in raw && raw[campo] != "" {
        return SliceTo(raw[campo], 100);
      }
      j := j + 1;
    }
    return "Producto " + Decimal.Text(i + 1);
  }

  /** One vendor row, the `i`-th of its file, in Shopify form. */
  method ConvertirProducto(raw: Row, i: nat) returns (producto: Row)
    ensures producto == SplitterRows.ConvertRow(raw, i)
  {
    producto := MapColumns(raw, SplitterRows.ConvertMap);
    if "Title" !in producto {
      var titulo := TitleFrom(raw, SplitterRows.TitleSources, i);
      producto := producto["Title" := titulo];
    }
    producto := producto["Handle" := Handles.Handle(producto["Title"], 100)];
    producto := SplitterRows.WithDefaults(producto);
  }

  /** `convertir_a_formato_shopify(productos_raw, columnas)`: one converted row
      per vendor row, in order. */
  method ConvertirAFormatoShopify(rows: seq<Row>) returns (productos: seq<Row>)
    ensures productos == SplitterRows.ConvertRows(rows)
  {
    productos := [];
    var i := 0;
    while i < |rows|
      invariant 0 <= i <= |rows|
      invariant |productos| == i
      invariant forall j | 0 <= j < i :: productos[j] == SplitterRows.ConvertRow(rows[j], j)
    {
      var producto := ConvertirProducto(rows[i], i);
      productos := productos + [producto];
      i := i + 1;
    }
  }

  /** The copying loop of `limpiar_producto_para_shopify` over `names`. */
  method CopyColumns(row: Row, names: seq<string>, fix: string -> string) returns (m: Row)
    ensures m == SplitterRows.CopyFixed(row, names, fix)
  {
    m := map[];
    var j := 0;
    while j < |names|
      invariant 0 <= j <= |names|
      invariant m == SplitterRows.CopyFixed(row, names[..j], fix)
    {
      assert names[..j + 1][..j] == names[..j];
      var campo := names[j];
      if campo in row && row[campo] != "" {
        m := m[campo := fix(row[campo])];
      }
      j := j + 1;
    }
    assert names[..j] == names;
  }

  /** `limpiar_producto_para_shopify(producto)`. */
  method LimpiarProductoParaShopify(row: Row) returns (limpio: Row)
    ensures limpio == SplitterRows.CleanRow(row)
  {
    limpio := CopyColumns(row, SplitterRows.CleanNames, Encoding.SplitterFix);
    limpio := SplitterRows.WithDefaults(SplitterRows.WithHandle255(limpio));
  }

  /** Reading the file in encoding `e` as `parsear_csv` does. */
  method TryEncoding(e: string, open: string -> Call<string>, read: (string, char) -> Call<Sheet>)
    returns (r: Option<seq<Row>>)
    ensures r == SplitterFlow.TryParse(e, open, read)
  {
    match open(e) {
      case Raises => return None;
      case Returns(text) =>
        var sample := SliceTo(text, 2048);
        if HtmlSample(sample) {
          return None;
        }
        match read(text, Delimiter(sample)) {
          case Raises => return None;
          case Returns(sheet) =>
            if sheet.fieldnames == [] {
              return None;
            }
            match Classify(sheet.fieldnames) {
              case Native => return Some(sheet.rows);
              case Convertible =>
                var productos := ConvertirAFormatoShopify(sheet.rows);
                return Some(productos);
              case Unrecognized => return None;
            }
        }
    }
  }

  /** The encoding loop of `parsear_csv` over `encs`. */
  method ParseWith(encs: seq<string>, open: string -> Call<string>, read: (string, char) -> Call<Sheet>)
    returns (rows: seq<Row>)
    ensures rows == Parse(encs, SplitterFlow.Attempts(open, read))
  {
    ghost var attempt := SplitterFlow.Attempts(open, read);
    var i := 0;
    while i < |encs|
      invariant 0 <= i <= |encs|
      invariant Parse(encs, attempt) == Parse(encs[i..], attempt)
    {
      assert encs[i..][1..] == encs[i + 1..];
      var r := TryEncoding(encs[i], open, read);
      if r.Some? {
        return r.value;
      }
      i := i + 1;
    }
    return [];
  }

  /** The header loops of `dividir_csv_en_archivos`: the priority fields that are
      keys, taken out of the key set in order, then the remaining keys sorted. */
  method HeaderFrom(priority: seq<string>, keys: set<string>) returns (header: seq<string>)
    requires SplitterFiles.NoRepeats(priority)
    ensures header == SplitterFiles.HeaderOf(priority, keys)
  {
    var campos: seq<string> := [];
    var todos := keys;
    var j := 0;
    while j < |priority|
      invariant 0 <= j <= |priority|
      invariant campos == SplitterFiles.Present(priority[..j], keys)
      invariant todos == keys - Order.Elements(priority[..j])
    {
      var campo := priority[j];
      assert priority[..j + 1] == priority[..j] + [campo];
      assert Order.Elements(priority[..j + 1]) == Order.Elements(priority[..j]) + {campo};
      assert campo !in Order.Elements(priority[..j]);
      SplitterFiles.PresentSnoc(priority[..j], campo, keys);
      if campo in todos {
        campos := campos + [campo];
        todos := todos - {campo};
      }
      j := j + 1;
    }
    assert priority[..j] == priority;
    var resto := Order.SortSet(todos);
    header := campos + resto;
  }

  /** The union of the rows' columns, row by row. */
  method AllKeys(rows: seq<Row>) returns (keys: set<string>)
    ensures keys == SplitterFiles.KeysOf(rows)
  {
    keys := {};
    var i := 0;
    while i < |rows|
      invariant 0 <= i <= |rows|
      invariant keys == SplitterFiles.KeysOf(rows[..i])
    {
      assert rows[..i + 1][..i] == rows[..i];
      keys := keys + rows[i].Keys;
      i := i + 1;
    }
    assert rows[..i] == rows;
  }

  /** Writing one chunk: each row is cleaned by `clean` and handed to the
      writer, which refuses a row with a column outside the header. */
  method WriteChunk(header: seq<string>, lote: seq<Row>, clean: Row -> Row) returns (written: bool)
    ensures written == SplitterFiles.ChunkFitsWith(header, lote, clean)
  {
    var j := 0;
    while j < |lote|
      invariant 0 <= j <= |lote|
      invariant SplitterFiles.ChunkFitsWith(header, lote[..j], clean)
    {
      var limpio := clean(lote[j]);
      if !SplitterFiles.Fits(header, limpio) {
        SplitterFiles.ChunkFitsAt(header, lote, clean, j);
        return false;
      }
      SplitterFiles.ChunkFitsNext(header, lote, clean, j);
      j := j + 1;
    }
    assert lote[..j] == lote;
    return true;
  }

  /** Every row cleaned by `clean`, in order. */
  method CleanAll(rows: seq<Row>, clean: Row -> Row) returns (limpios: seq<Row>)
    ensures |limpios| == |rows| && forall j | 0 <= j < |rows| :: limpios[j] == clean(rows[j])
  {
    limpios := [];
    var i := 0;
    while i < |rows|
      invariant 0 <= i <= |rows|
      invariant |limpios| == i
      invariant forall j | 0 <= j < i :: limpios[j] == clean(rows[j])
    {
      var limpio := clean(rows[i]);
      limpios := limpios + [limpio];
      i := i + 1;
    }
  }

  /** The splitter and its cumulative statistics. */
  class CSVSplitterShopify {
    /** `CSV_URL`, empty when unset. */
    const csvUrl: string
    var archivosGenerados: nat
    var productosConStock: nat
    var productosSinStock: nat

    /** `__init__`: every counter at zero. */
    constructor (csvUrl: string)
      ensures this.csvUrl == csvUrl
      ensures archivosGenerados == 0 && productosConStock == 0 && productosSinStock == 0
    {
      this.csvUrl := csvUrl;
      archivosGenerados, productosConStock, productosSinStock := 0, 0, 0;
    }

    /** `descargar_csv()`: up to three GETs when a URL is set, the saved file when
        one settles, else the first usable local file. */
    method DescargarCsv(get: nat -> Call<Response>, saveOk: nat -> bool,
                        isFile: string -> bool, read: string -> Call<string>) returns (r: Option<string>)
      ensures r == SplitterFlow.Descarga(csvUrl, get, saveOk, isFile, read)
    {
      var run := Retry.Run(false, 0, 0);
      if csvUrl != "" {
        run := Retry.RunRetries(SplitterFlow.MaxRetries, SplitterFlow.Steps(get, saveOk));
      }
      if run.done {
        return Some(SplitterFlow.DownloadFile);
      }
      r := FindFirstFile(SplitterFlow.LocalFiles, SplitterFlow.UsableTest(isFile, read));
    }

    /** `parsear_csv(archivo_csv)`: the rows of the first encoding whose reading
        is recognised, converted when only vendor columns are present; no rows
        when no encoding gives any. */
    method ParsearCsv(open: string -> Call<string>, read: (string, char) -> Call<Sheet>) returns (rows: seq<Row>)
      ensures rows == Parse(Encodings, SplitterFlow.Attempts(open, read))
    {
      rows := ParseWith(Encodings, open, read);
    }

    /** `filtrar_productos_con_stock(productos)`: the rows with positive stock, in
        order; the kept and the dropped rows are added to the counters. */
    method FiltrarProductosConStock(rows: seq<Row>, parse: string -> Option<real>) returns (kept: seq<Row>)
      modifies this`productosConStock, this`productosSinStock
      ensures kept == Stock.Filter(rows, Stock.SplitterRule(parse))
      ensures productosConStock == old(productosConStock) + |kept|
      ensures productosSinStock == old(productosSinStock) + Stock.Rejected(rows, Stock.SplitterRule(parse))
    {
      ghost var keep := Stock.SplitterRule(parse);
      kept := [];
      var i := 0;
      while i < |rows|
        invariant 0 <= i <= |rows|
        invariant kept == Stock.Filter(rows[..i], keep)
        invariant productosConStock == old(productosConStock) + |kept|
        invariant productosSinStock == old(productosSinStock) + Stock.Rejected(rows[..i], keep)
      {
        assert rows[..i + 1][..i] == rows[..i];
        var stock := StockFrom(StockFields, rows[i], parse);
        if stock > 0.0 {
          kept := kept + [rows[i]];
          productosConStock := productosConStock + 1;
        } else {
          productosSinStock := productosSinStock + 1;
        }
        i := i + 1;
      }
      assert rows[..i] == rows;
    }

    /** The chunk loop of `dividir_csv_en_archivos` under `header`: chunk `k`
        goes to the file `name(k + 1)`, each row passed through `clean`, and the
        file is listed and counted when it opens and the writer accepts all its
        rows. */
    method WriteFiles(rows: seq<Row>, header: seq<string>, writeOk: nat -> bool, clean: Row -> Row,
                      name: nat -> string)
      returns (files: seq<string>)
      modifies this`archivosGenerados
      ensures files == SplitterFiles.NamesWith(name, SplitterFiles.KeptTestWith(rows, header, writeOk, clean),
                                               Chunks.Count(|rows|, SplitterFiles.LinesPerFile))
      ensures archivosGenerados == old(archivosGenerados) + |files|
    {
      var total := Chunks.Count(|rows|, SplitterFiles.LinesPerFile);
      ghost var ok := SplitterFiles.KeptTestWith(rows, header, writeOk, clean);
      files := [];
      var k := 0;
      while k < total
        invariant 0 <= k <= total
        invariant files == SplitterFiles.NamesWith(name, ok, k)
        invariant archivosGenerados == old(archivosGenerados) + |files|
      {
        var written := false;
        if writeOk(k) {
          written := WriteChunk(header, Chunks.Chunk(rows, SplitterFiles.LinesPerFile, k), clean);
        }
        assert written == ok(k);
        if written {
          files := files + [name(k + 1)];
          archivosGenerados := archivosGenerados + 1;
        }
        k := k + 1;
      }
    }

    /** `dividir_csv_en_archivos(productos)`, with the header built from the
        cleaned rows: one file per chunk of 2000 rows, listed and counted when it
        was written. */
    method DividirCsvEnArchivos(rows: seq<Row>, writeOk: nat -> bool) returns (files: seq<string>)
      modifies this`archivosGenerados
      ensures files == SplitterFiles.Dividir(rows, writeOk)
      ensures archivosGenerados == old(archivosGenerados) + |files|
    {
      var limpios := CleanAll(rows, SplitterRows.CleanRow);
      assert limpios == SplitterFiles.CleanRows(rows);
      var keys := AllKeys(limpios);
      SplitterFiles.PriorityNoRepeats();
      var header := HeaderFrom(SplitterFiles.PriorityFields, keys);
      var total := Chunks.Count(|rows|, SplitterFiles.LinesPerFile);
      files := WriteFiles(rows, header, writeOk, SplitterRows.CleanRow, SplitterFiles.FileNames(total));
    }
  }
}
