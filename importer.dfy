/** `SyscomShopifyImporter` (csv_to_shopify.py): its settings, the location it
    chose, its permissions and its statistics, updated in place by the download,
    filter, create, inventory and batch operations. */
module Importer {
  import opened Wrappers
  import opened Csv
  import opened ImporterRules
  import Encoding
  import Stock
  import Retry
  import Chunks
  import Locations

  /** What the permission probes of `verificar_permisos_shopify` answer: whether
      reading the shop and the products succeeds, what saving the test product
      gives, the store's locations, and whether reading inventory levels succeeds. */
  datatype Probes = Probes(shop: bool, productsRead: bool, testSave: Call<bool>,
                           locations: Call<seq<Locations.Location>>, inventory: bool)

  /** The permissions dict `verificar_permisos_shopify` returns. */
  datatype Permisos = Permisos(shopRead: bool, productsRead: bool, productsWrite: bool,
                               locationsRead: bool, inventoryRead: bool, inventoryWrite: bool)

  const NoPermisos := Permisos(false, false, false, false, false, false)

  class SyscomImporter {
    /** `CSV_URL`, empty when unset. */
    var csvUrl: string
    var maxProductsPerBatch: int
    var location: Option<Locations.Location>
    var hasLocationPermissions: bool
    var hasInventoryPermissions: bool
    var maxRetries: nat
    var stats: Stats
    /** The importer's `fix_encoding_issues`. */
    const fix: string -> string

    /** `__init__`: no location or permission yet, three retries, counters at zero. */
    constructor (csvUrl: string, maxProductsPerBatch: int)
      ensures this.csvUrl == csvUrl && this.maxProductsPerBatch == maxProductsPerBatch
      ensures location.None? && !hasLocationPermissions && !hasInventoryPermissions
      ensures maxRetries == 3 && stats == NoStats
      ensures fix == Encoding.ImporterFix
    {
      fix := Encoding.ImporterFix;
      this.csvUrl := csvUrl;
      this.maxProductsPerBatch := maxProductsPerBatch;
      location := None;
      hasLocationPermissions := false;
      hasInventoryPermissions := false;
      maxRetries := 3;
      stats := NoStats;
    }

    /** The settings `crear_producto_shopify` reads. */
    function Settings(): Setup
      reads this`hasInventoryPermissions, this`location, this`maxRetries
    {
      Setup(fix, hasInventoryPermissions, location, maxRetries)
    }

    /** `verificar_permisos_shopify()`: without the shop nothing is granted and
        nothing changes; a readable location list grants location permission and,
        when non-empty, sets the location by the OTANCAHUI rule; inventory is probed
        only when the location is set to a non-zero id. */
    method VerificarPermisosShopify(p: Probes) returns (perm: Permisos)
      modifies this`location, this`hasLocationPermissions, this`hasInventoryPermissions
      ensures !p.shop ==>
                perm == NoPermisos && location == old(location)
                && hasLocationPermissions == old(hasLocationPermissions)
                && hasInventoryPermissions == old(hasInventoryPermissions)
      ensures p.shop ==>
                perm.shopRead && perm.productsRead == p.productsRead
                && perm.productsWrite == (p.testSave == Returns(true))
                && perm.locationsRead == p.locations.Returns?
                && hasLocationPermissions == (old(hasLocationPermissions) || p.locations.Returns?)
                && location == (if p.locations.Returns? && p.locations.value != []
                                then Locations.MainLocation(p.locations.value) else old(location))
                && perm.inventoryRead == (Truthy(location) && p.inventory)
                && perm.inventoryWrite == perm.inventoryRead
                && hasInventoryPermissions == (old(hasInventoryPermissions) || perm.inventoryRead)
    {
      perm := NoPermisos;
      if !p.shop {
        return;
      }
      perm := perm.(shopRead := true, productsRead := p.productsRead,
                    productsWrite := p.testSave == Returns(true));
      match p.locations {
        case Raises =>
        case Returns(locs) =>
          perm := perm.(locationsRead := true);
          hasLocationPermissions := true;
          if locs != [] {
            location := Locations.FindMainLocation(locs);
          }
      }
      if Truthy(location) && p.inventory {
        perm := perm.(inventoryRead := true, inventoryWrite := true);
        hasInventoryPermissions := true;
      }
    }

    /** `descargar_csv(usar_local_si_falla)` */
    method DescargarCsv(usarLocal: bool, src: Source) returns (r: Option<string>)
      ensures r == Descarga(csvUrl, maxRetries, usarLocal, src)
    {
      var run := Retry.Run(false, 0, 0);
      if csvUrl != "" {
        run := Retry.RunRetries(maxRetries, DownloadSteps(src));
      }
      if run.done {
        return Some(TempFile(src.stamp));
      }
      if usarLocal {
        r := FindFirstFile(LocalFiles, src.isFile);
        return;
      }
      return None;
    }

    /** `filtrar_productos_con_stock(productos)`: the rows in stock, in order; the
        number of the others is assigned to the counter of rows without stock. */
    method FiltrarProductosConStock(rows: seq<Row>, parse: string -> Option<real>) returns (kept: seq<Row>)
      modifies this`stats
      ensures kept == Stock.Filter(rows, Stock.ImporterRule(parse))
      ensures stats == old(stats).(sinStock := |rows| - |kept|)
    {
      ghost var rule := Stock.ImporterRule(parse);
      kept := [];
      var sinStock := 0;
      for i := 0 to |rows|
        invariant kept == Stock.Filter(rows[..i], rule)
        invariant sinStock == Stock.Rejected(rows[..i], rule)
      {
        assert rows[..i + 1][..i] == rows[..i];
        var stock := Stock.ImporterStock(rows[i], parse);
        if stock.Some? && stock.value > 0.0 {
          kept := kept + [rows[i]];
        } else {
          sinStock := sinStock + 1;
        }
      }
      assert rows[..|rows|] == rows;
      Stock.FilterPartition(rows, rule);
      stats := stats.(sinStock := sinStock);
    }

    /** `_actualizar_inventario_con_retry(variant_id, cantidad)` */
    method ActualizarInventarioConRetry(store: Store, variantId: int, cantidad: int) returns (run: InvRun)
      modifies this`stats
      ensures run == InvRetries(maxRetries, InvSteps(store, location, variantId, cantidad), 0)
      ensures stats == InvTally(old(stats), run)
    {
      ghost var steps := InvSteps(store, location, variantId, cantidad);
      var i, waits := 0, 0;
      var failed := false;
      while i < maxRetries
        invariant i <= maxRetries
        invariant failed ==> i == maxRetries
        invariant InvRetries(maxRetries, steps, 0) ==
          if failed then InvRun(false, true, i, waits)
          else
            var rest := InvRetries(maxRetries, steps, i);
            rest.(attempts := rest.attempts + i, waits := rest.waits + waits)
        invariant stats == old(stats).(erroresInventario := old(stats).erroresInventario + if failed then 1 else 0)
      {
        if !Truthy(location) {
          return InvRun(false, false, i + 1, waits);
        }
        var raised := false;
        var variant := store.variant(i, variantId);
        if variant.Raises? {
          raised := true;
        } else if variant.value.None? {
          return InvRun(false, false, i + 1, waits);
        } else {
          var result := store.level(i, LevelSet(location.value.id, variant.value.value, cantidad));
          if result.Raises? {
            raised := true;
          } else if result.value {
            stats := stats.(inventarioActualizado := stats.inventarioActualizado + 1);
            return InvRun(true, false, i + 1, waits);
          }
        }
        if raised {
          if i < maxRetries - 1 {
            waits := waits + 1;
          } else {
            stats := stats.(erroresInventario := stats.erroresInventario + 1);
            failed := true;
          }
        }
        i := i + 1;
      }
      return InvRun(false, failed, i, waits);
    }

    /** `crear_producto_shopify(producto_data)` */
    method CrearProductoShopify(row: Row, parse: string -> Option<real>, store: Store) returns (o: Outcome)
      modifies this`stats
      ensures o == Crear(row, parse, store, Settings())
      ensures stats == Tally(old(stats), o)
    {
      var stock := Stock.ImporterStock(row, parse);
      if stock.None? {
        stats := stats.(conError := stats.conError + 1);
        return Failed;
      }
      if stock.value <= 0.0 {
        stats := stats.(sinStock := stats.sinStock + 1);
        return NoStock;
      }
      var handle := Strings.Strip(Cell(row, "Handle", ""));
      if handle != "" {
        var found := store.find(handle);
        if found.Raises? {
          stats := stats.(conError := stats.conError + 1);
          return Failed;
        }
        if found.value {
          stats := stats.(duplicados := stats.duplicados + 1);
          return Duplicate;
        }
      }
      o := SaveProduct(row, parse, store, stock.value);
    }

    /** The save and inventory step of `crear_producto_shopify` (lines 405-420). */
    method SaveProduct(row: Row, parse: string -> Option<real>, store: Store, stock: real) returns (o: Outcome)
      modifies this`stats
      ensures o == Save(row, parse, store, Settings(), stock)
      ensures stats == Tally(old(stats), o)
    {
      var saved := store.save(Payload(row, parse, fix));
      if saved.Raises? || saved.value.None? {
        stats := stats.(conError := stats.conError + 1);
        return Failed;
      }
      var v := saved.value.value;
      stats := stats.(creados := stats.creados + 1);
      if hasInventoryPermissions && Truthy(location) {
        var run := ActualizarInventarioConRetry(store, v, Stock.Trunc(stock));
        return Created(v, Some(run));
      }
      return Created(v, None);
    }

    /** One product of a batch: counted as processed, then created. */
    method ImportOne(items: seq<Row>, k: nat, parse: string -> Option<real>, stores: nat -> Store,
                     ghost crear: (Row, Store) -> Outcome, ghost start: Stats, ghost before: seq<Outcome>)
      returns (o: Outcome)
      requires k < |items| && Creates(crear, parse, Settings())
      requires before == Outcomes(items, stores, crear, k)
      requires stats == ImportTally(start, before)
      modifies this`stats
      ensures before + [o] == Outcomes(items, stores, crear, k + 1)
      ensures stats == ImportTally(start, before + [o])
    {
      ghost var setup := Settings();
      var counted := stats.(procesados := stats.procesados + 1);
      stats := counted;
      o := CrearProductoShopify(items[k], parse, stores(k));
      assert o == Crear(items[k], parse, stores(k), setup);
      TallyCounted(start, before, o, counted, stats);
    }

    /** One batch of `importar_productos`: the rows `items[from..to]`, each counted
        as processed and then created. */
    method ImportLote(items: seq<Row>, from: nat, to: nat, parse: string -> Option<real>, stores: nat -> Store,
                      ghost crear: (Row, Store) -> Outcome, ghost start: Stats, ghost done: seq<Outcome>)
      returns (added: seq<Outcome>)
      requires from <= to <= |items| && Creates(crear, parse, Settings())
      requires done == Outcomes(items, stores, crear, from)
      requires stats == ImportTally(start, done)
      modifies this`stats
      ensures done + added == Outcomes(items, stores, crear, to)
      ensures stats == ImportTally(start, done + added)
    {
      added := [];
      var k := from;
      while k < to
        invariant from <= k <= to && Creates(crear, parse, Settings())
        invariant done + added == Outcomes(items, stores, crear, k)
        invariant stats == ImportTally(start, done + added)
      {
        var o := ImportOne(items, k, parse, stores, crear, start, done + added);
        assert done + (added + [o]) == (done + added) + [o];
        added := added + [o];
        k := k + 1;
      }
    }

    /** One turn of the batch loop: `lote = productos[i:i + batch_size]`, its
        products, and the pause when rows remain. */
    method ImportBatch(items: seq<Row>, size: nat, i: nat, parse: string -> Option<real>, stores: nat -> Store,
                       ghost crear: (Row, Store) -> Outcome, ghost start: Stats, ghost b: nat,
                       batches: seq<seq<Row>>, outcomes: seq<Outcome>, pauses: nat)
      returns (batches': seq<seq<Row>>, outcomes': seq<Outcome>, pauses': nat)
      requires size > 0 && i < |items| && Creates(crear, parse, Settings())
      requires Chunks.Partial(items, size, i, b, batches, pauses)
      requires outcomes == Outcomes(items, stores, crear, i)
      requires stats == ImportTally(start, outcomes)
      modifies this`stats
      ensures Chunks.Partial(items, size, i + size, b + 1, batches', pauses')
      ensures outcomes' == Outcomes(items, stores, crear, Chunks.Min(i + size, |items|))
      ensures stats == ImportTally(start, outcomes')
    {
      var end := Chunks.Min(i + size, |items|);
      var lote := items[i .. end];
      var added := ImportLote(items, i, end, parse, stores, crear, start, outcomes);
      outcomes' := outcomes + added;
      Chunks.PartialNext(items, size, i, b, batches, pauses);
      batches' := batches + [lote];
      pauses' := if i + size < |items| then pauses + 1 else pauses;
    }

    /** The batch loop of `importar_productos`: each batch of
        `max_products_per_batch` rows, and a pause after every batch but the last;
        `crear` stands for the creation of one product. */
    method ImportBatches(items: seq<Row>, parse: string -> Option<real>, stores: nat -> Store,
                         ghost crear: (Row, Store) -> Outcome)
      returns (batches: seq<seq<Row>>, outcomes: seq<Outcome>, pauses: nat)
      requires maxProductsPerBatch > 0 && Creates(crear, parse, Settings())
      modifies this`stats
      ensures batches == Chunks.Batches(items, maxProductsPerBatch, Chunks.Count(|items|, maxProductsPerBatch))
      ensures pauses == Chunks.Pauses(|items|, maxProductsPerBatch)
      ensures outcomes == Outcomes(items, stores, crear, |items|)
      ensures stats == ImportTally(old(stats), outcomes)
    {
      var size: nat := maxProductsPerBatch;
      batches, outcomes, pauses := [], [], 0;
      var i: nat := 0;
      ghost var b: nat := 0;
      Chunks.PartialStart(items, size);
      while i < |items|
        invariant Chunks.Partial(items, size, i, b, batches, pauses) && Creates(crear, parse, Settings())
        invariant outcomes == Outcomes(items, stores, crear, Chunks.Min(i, |items|))
        invariant stats == ImportTally(old(stats), outcomes)
        decreases |items| - i
      {
        batches, outcomes, pauses := ImportBatch(items, size, i, parse, stores, crear, old(stats), b, batches, outcomes, pauses);
        i, b := i + size, b + 1;
      }
      Chunks.PartialEnd(items, size, i, b, batches, pauses);
    }

    /** `importar_productos(archivo_csv, limite)` once the rows are read: filter,
        keep the first `limite` rows when `limite` is set and not zero, then import
        them batch by batch. */
    method ProcesarFilas(file: string, rows: seq<Row>, limite: Option<int>, parse: string -> Option<real>,
                         stores: nat -> Store) returns (r: ImportRun)
      modifies this`stats
      ensures (r, stats) == ImportarFilas(file, rows, limite, parse, stores, Settings(), maxProductsPerBatch, old(stats))
    {
      var kept := FiltrarProductosConStock(rows, parse);
      var items := kept;
      if limite.Some? && limite.value != 0 {
        items := Strings.SliceTo(kept, limite.value);
      }
      if maxProductsPerBatch == 0 {
        return StepZero(file, rows, items);
      }
      if maxProductsPerBatch < 0 {
        return Imported(file, rows, items, [], [], 0);
      }
      CrearWithCreates(parse, Settings());
      var batches, outcomes, pauses := ImportBatches(items, parse, stores, CrearWith(parse, Settings()));
      return Imported(file, rows, items, batches, outcomes, pauses);
    }

    /** `importar_productos(archivo_csv, limite)`: download when no file is given,
        parse, then import the rows. */
    method ImportarProductos(archivo: string, limite: Option<int>, src: Source,
                             parse: string -> Option<real>, stores: nat -> Store) returns (r: ImportRun)
      modifies this`stats
      ensures (r, stats) == Importar(archivo, limite, src, parse, stores, Settings(), csvUrl, maxProductsPerBatch, old(stats))
    {
      var file := archivo;
      if file == "" {
        var downloaded := DescargarCsv(true, src);
        if downloaded.None? {
          return NoFile;
        }
        file := downloaded.value;
      }
      var rows := ParseLoop(Encodings, ImporterAttempt(file, src.read));
      if rows == [] {
        return NoRows(file);
      }
      r := ProcesarFilas(file, rows, limite, parse, stores);
    }
  }
}
