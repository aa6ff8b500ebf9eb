/** The decisions `SyscomShopifyImporter` (csv_to_shopify.py) takes, as functions of
    its configuration and of what the network, the files and the store answer: the
    download attempts, the encoding order, the product it sends, the outcome of one
    product, the inventory retries and the statistics they add up to. */
module ImporterRules {
  import opened Wrappers
  import opened Strings
  import opened Csv
  import Stock
  import Retry
  import Chunks
  import Locations

  // ---------------------------------------------------------------- download

  /** The local files tried when the download fails, in order. */
  const LocalFiles: seq<string> := ["productos_ociostock.csv", "productos_shopify.csv", "ProductosHora.csv"]

  /** What the importer's surroundings answer: `get(i)` is the response to GET
      number `i`, `saveOk(i)` whether writing its file succeeds, `isFile` whether a
      local file exists, `stamp` the time stamp in the download's file name, and
      `read(file, e)` the header and rows `csv.DictReader` reads from `file` opened
      with encoding `e`. */
  datatype Source = Source(get: nat -> Call<Response>, saveOk: nat -> bool, isFile: string -> bool,
                           stamp: string, read: (string, string) -> Call<Sheet>)

  /** The name a download is saved under. */
  function TempFile(stamp: string): string {
    "productos_descargado_" + stamp + ".csv"
  }

  /** One download attempt: an exception or a status other than 200 leads to the
      next attempt; a 200 response whose `content-type` mentions csv or whose text
      passes `_es_contenido_csv` settles the download once the file is written (a
      failed write raises, so the next attempt follows); any other 200 response
      abandons the loop. */
  function DownloadStep(r: Call<Response>, saveOk: bool): Retry.Step {
    match r
    case Raises => Retry.Again
    case Returns(resp) =>
      if resp.status != 200 then Retry.Again
      else if Contains(Lower(resp.contentType), "csv") || LooksLikeCsv(resp.text) then
        (if saveOk then Retry.Done else Retry.Again)
      else Retry.Abandon
  }

  function DownloadSteps(src: Source): nat -> Retry.Step {
    (i: nat) => DownloadStep(src.get(i), src.saveOk(i))
  }

  /** The retry loop as `descargar_csv` runs it: no GET at all without a URL. */
  function DownloadRun(url: string, maxRetries: nat, src: Source): Retry.Run {
    if url != "" then Retry.Retries(maxRetries, DownloadSteps(src), 0) else Retry.Run(false, 0, 0)
  }

  /** `descargar_csv(usar_local_si_falla)`: the saved download, else the first
      existing local file when the fallback is allowed, else nothing. */
  function Descarga(url: string, maxRetries: nat, usarLocal: bool, src: Source): Option<string> {
    if DownloadRun(url, maxRetries, src).done then Some(TempFile(src.stamp))
    else if usarLocal then FirstFile(LocalFiles, src.isFile)
    else None
  }

  /** At most `maxRetries` GETs, none without a URL, and a pause between two
      attempts but never after the last. */
  lemma DownloadBounds(url: string, maxRetries: nat, src: Source)
    ensures DownloadRun(url, maxRetries, src).attempts <= maxRetries
    ensures url == "" ==> DownloadRun(url, maxRetries, src).attempts == 0
    ensures DownloadRun(url, maxRetries, src).attempts >= 1 ==>
      DownloadRun(url, maxRetries, src).waits == DownloadRun(url, maxRetries, src).attempts - 1
  {
    if url != "" {
      Retry.RetriesBounds(maxRetries, DownloadSteps(src), 0);
    }
  }

  /** A 200 response that fails the CSV test ends the loop at once: attempt `j`
      is the last one made and nothing is downloaded. */
  lemma NonCsvEndsLoop(url: string, maxRetries: nat, src: Source, j: nat)
    requires url != "" && j < maxRetries
    requires forall k | 0 <= k < j :: DownloadSteps(src)(k) == Retry.Again
    requires src.get(j).Returns? && src.get(j).value.status == 200
    requires !Contains(Lower(src.get(j).value.contentType), "csv") && !LooksLikeCsv(src.get(j).value.text)
    ensures DownloadRun(url, maxRetries, src).attempts == j + 1
    ensures !DownloadRun(url, maxRetries, src).done
  {
    Retry.RetriesEndAt(maxRetries, DownloadSteps(src), 0, j);
  }

  /** When the download is not settled, the result is the first existing local
      file if the fallback is allowed, nothing when none exists, and nothing at all
      without the fallback. */
  lemma DescargaFallback(url: string, maxRetries: nat, usarLocal: bool, src: Source)
    requires !DownloadRun(url, maxRetries, src).done
    ensures !usarLocal ==> Descarga(url, maxRetries, usarLocal, src).None?
    ensures usarLocal ==> (Descarga(url, maxRetries, usarLocal, src).None? <==>
      forall i | 0 <= i < |LocalFiles| :: !src.isFile(LocalFiles[i]))
    ensures usarLocal && Descarga(url, maxRetries, usarLocal, src).Some? ==>
      exists i | 0 <= i < |LocalFiles| :: LocalFiles[i] == Descarga(url, maxRetries, usarLocal, src).value
        && src.isFile(LocalFiles[i]) && forall j | 0 <= j < i :: !src.isFile(LocalFiles[j])
  {
    FirstFileSpec(LocalFiles, src.isFile);
  }

  // ---------------------------------------------------------------- parse

  /** One encoding as `parsear_csv` tries it: a file that cannot be read, an empty
      header or a header without `Handle` moves on to the next encoding. */
  function ImporterAttempt(file: string, read: (string, string) -> Call<Sheet>): string -> Option<seq<Row>> {
    e =>
      match read(file, e)
      case Raises => None
      case Returns(sheet) =>
        if sheet.fieldnames == [] || "Handle" !in sheet.fieldnames then None else Some(sheet.rows)
  }

  /** `parsear_csv(archivo_csv)` */
  function ImporterParse(file: string, read: (string, string) -> Call<Sheet>): seq<Row> {
    Parse(Encodings, ImporterAttempt(file, read))
  }

  /** Rows come from the first encoding, in listed order, that reads a header with
      `Handle`; when none does there are no rows. */
  lemma ImporterParseSpec(file: string, read: (string, string) -> Call<Sheet>)
    ensures ImporterParse(file, read) != [] ==>
      exists i | 0 <= i < |Encodings| ::
        read(file, Encodings[i]).Returns? && "Handle" in read(file, Encodings[i]).value.fieldnames
        && ImporterParse(file, read) == read(file, Encodings[i]).value.rows
        && forall j | 0 <= j < i :: ImporterAttempt(file, read)(Encodings[j]).None?
    ensures (forall i | 0 <= i < |Encodings| :: read(file, Encodings[i]).Raises?) ==> ImporterParse(file, read) == []
  {
    var attempt := ImporterAttempt(file, read);
    ParseFirst(Encodings, attempt);
    if ImporterParse(file, read) != [] {
      ParseFrom(Encodings, attempt);
    }
  }

  // ---------------------------------------------------------------- one product

  /** The variant the importer sends: title, SKU, price, inventory tracking and
      policy, and weight in grams. */
  datatype NewVariant = NewVariant(title: string, sku: string, price: real, inventoryManagement: string,
                                   inventoryPolicy: string, grams: Option<int>)

  /** The product the importer sends; `tags` and `image` are left unset (`None`)
      when the row has none. */
  datatype NewProduct = NewProduct(title: string, handle: string, bodyHtml: string, vendor: string,
                                   productType: string, status: string, tags: Option<string>,
                                   variant: NewVariant, image: Option<string>)

  /** `float(producto_data.get('Variant Price', 0))`, zero when it does not parse. */
  function Price(row: Row, parse: string -> Option<real>): real {
    if "Variant Price" !in row then 0.0
    else match parse(row["Variant Price"])
      case Some(p) => p
      case None => 0.0
  }

  /** `int(float(peso))` for a non-empty weight, unset otherwise or when it does not parse. */
  function Grams(row: Row, parse: string -> Option<real>): Option<int> {
    var peso := Cell(row, "Variant Grams", "");
    if peso == "" then None
    else match parse(peso)
      case Some(g) => Some(Stock.Trunc(g))
      case None => None
  }

  /** The image is sent only for a URL starting with `http`. */
  function Image(row: Row): Option<string> {
    var url := Cell(row, "Image Src", "");
    if url != "" && StartsWith(url, "http") then Some(url) else None
  }

  /** What every product the importer sends carries: status `active`, and one
      variant titled "Default Title" whose inventory the store tracks
      (`shopify`) with overselling refused (`deny`). */
  predicate StandardSettings(p: NewProduct) {
    p.status == "active" && p.variant.title == "Default Title"
    && p.variant.inventoryManagement == "shopify" && p.variant.inventoryPolicy == "deny"
  }

  /** The product `crear_producto_shopify` builds from a row, `fix` being the
      importer's `fix_encoding_issues`: text fields repaired,
      the title cut to 255 characters, the handle stripped, the product always
      active, one "Default Title" variant tracked by the store with overselling
      refused, tags only when non-empty, the image only for an `http` URL. */
  function Payload(row: Row, parse: string -> Option<real>, fix: string -> string): (p: NewProduct)
    ensures |p.title| <= 255 && |p.title| <= |fix(Cell(row, "Title", ""))|
    ensures p.title == fix(Cell(row, "Title", ""))[..|p.title|]
    ensures |fix(Cell(row, "Title", ""))| >= 255 ==> |p.title| == 255
    ensures p.handle == Strip(Cell(row, "Handle", ""))
    ensures StandardSettings(p) && p.variant.sku == Cell(row, "Variant SKU", "")
    ensures p.tags.Some? <==> Cell(row, "Tags", "") != ""
    ensures p.image.Some? ==> StartsWith(p.image.value, "http")
  {
    var tags := Cell(row, "Tags", "");
    NewProduct(
      SliceTo(fix(Cell(row, "Title", "")), 255),
      Strip(Cell(row, "Handle", "")),
      fix(Cell(row, "Body (HTML)", "")),
      fix(Cell(row, "Vendor", "")),
      fix(Cell(row, "Product Category", "General")),
      "active",
      if tags != "" then Some(fix(tags)) else None,
      NewVariant("Default Title", Cell(row, "Variant SKU", ""), Price(row, parse), "shopify", "deny", Grams(row, parse)),
      Image(row))
  }

  /** An unparsable or missing price is sent as zero, and a parsable one as is. */
  lemma PriceSpec(row: Row, parse: string -> Option<real>, fix: string -> string)
    ensures "Variant Price" in row && parse(row["Variant Price"]).Some? ==>
      Payload(row, parse, fix).variant.price == parse(row["Variant Price"]).value
    ensures ("Variant Price" !in row || parse(row["Variant Price"]).None?) ==> Payload(row, parse, fix).variant.price == 0.0
  {
  }

  /** The inventory change the importer asks for. */
  datatype LevelSet = LevelSet(locationId: int, inventoryItemId: int, available: int)

  /** What the store answers while one product is handled: `find(h)` whether a
      product with handle `h` exists, `save(p)` the id of the new product's variant
      (`None` when saving returns false), and for inventory attempt `i`
      `variant(i, id)` the variant's inventory item (`None` when none is found) and
      `level(i, s)` the result of setting the level. */
  datatype Store = Store(find: string -> Call<bool>, save: NewProduct -> Call<Option<int>>,
                         variant: (nat, int) -> Call<Option<int>>, level: (nat, LevelSet) -> Call<bool>)

  /** Python truthiness of `location_id`: set and not zero. */
  predicate Truthy(location: Option<Locations.Location>) {
    location.Some? && location.value.id != 0
  }

  // ---------------------------------------------------------------- inventory

  /** How one inventory attempt ends: no location or no variant returns at once;
      an exception leads to the next attempt (after a pause unless it was the
      last); a set level returns; a refused one leads to the next attempt with no
      pause. */
  datatype InvStep = NoLocation | NoVariant | Raised | Updated | NotUpdated

  /** Inventory attempt `i` for variant `variantId` and quantity `cantidad`. */
  function InvStepAt(store: Store, location: Option<Locations.Location>, variantId: int, cantidad: int, i: nat): InvStep {
    if !Truthy(location) then NoLocation
    else match store.variant(i, variantId)
      case Raises => Raised
      case Returns(None) => NoVariant
      case Returns(Some(item)) =>
        match store.level(i, LevelSet(location.value.id, item, cantidad))
        case Raises => Raised
        case Returns(ok) => if ok then Updated else NotUpdated
  }

  function InvSteps(store: Store, location: Option<Locations.Location>, variantId: int, cantidad: int): nat -> InvStep {
    (i: nat) => InvStepAt(store, location, variantId, cantidad, i)
  }

  /** How the inventory loop went: whether the level was set, whether an error was
      counted, how many attempts were made and how many pauses taken. */
  datatype InvRun = InvRun(updated: bool, failed: bool, attempts: nat, waits: nat)

  /** The inventory loop from attempt `i` on, with at most `max` attempts; an error
      is counted only when the last allowed attempt raises. */
  function InvRetries(max: nat, step: nat -> InvStep, i: nat): InvRun
    decreases max - i
  {
    if i >= max then InvRun(false, false, 0, 0)
    else match step(i)
      case NoLocation => InvRun(false, false, 1, 0)
      case NoVariant => InvRun(false, false, 1, 0)
      case Updated => InvRun(true, false, 1, 0)
      case NotUpdated =>
        var rest := InvRetries(max, step, i + 1);
        rest.(attempts := rest.attempts + 1)
      case Raised =>
        if i == max - 1 then InvRun(false, true, 1, 0)
        else
          var rest := InvRetries(max, step, i + 1);
          rest.(attempts := rest.attempts + 1, waits := rest.waits + 1)
  }

  /** At most `max - i` attempts; the level is never both set and counted as an
      error; the last attempt is never followed by a pause. */
  lemma {:induction false} InvBounds(max: nat, step: nat -> InvStep, i: nat)
    requires i <= max
    ensures InvRetries(max, step, i).attempts <= max - i
    ensures !(InvRetries(max, step, i).updated && InvRetries(max, step, i).failed)
    ensures InvRetries(max, step, i).attempts >= 1 ==> InvRetries(max, step, i).waits < InvRetries(max, step, i).attempts
    decreases max - i
  {
    if i < max && step(i) in {NotUpdated, Raised} && !(step(i) == Raised && i == max - 1) {
      InvBounds(max, step, i + 1);
    }
  }

  /** An error is counted only when every allowed attempt was made and the last
      one raised. */
  lemma {:induction false} InvFailedLast(max: nat, step: nat -> InvStep, i: nat)
    requires i <= max
    requires InvRetries(max, step, i).failed
    ensures InvRetries(max, step, i).attempts == max - i
    ensures step(max - 1) == Raised
    decreases max - i
  {
    if step(i) != Raised || i != max - 1 {
      InvFailedLast(max, step, i + 1);
    }
  }

  /** A set level ends the loop: when the attempts before `j` were refused or
      raised and attempt `j` sets the level, it is counted once and `j - i + 1`
      attempts are made. */
  lemma {:induction false} InvUpdatedAt(max: nat, step: nat -> InvStep, i: nat, j: nat)
    requires i <= j < max
    requires forall k | i <= k < j :: step(k) == NotUpdated || step(k) == Raised
    requires step(j) == Updated
    ensures InvRetries(max, step, i) == InvRetries(max, step, i).(updated := true, failed := false)
    ensures InvRetries(max, step, i).attempts == j - i + 1
    decreases j - i
  {
    if i < j {
      assert step(i) == NotUpdated || step(i) == Raised;
      InvUpdatedAt(max, step, i + 1, j);
    }
  }

  /** When every attempt is refused, all are made, without pauses, and neither
      counter moves. */
  lemma {:induction false} InvAllRefused(max: nat, step: nat -> InvStep, i: nat)
    requires i <= max
    requires forall k | i <= k < max :: step(k) == NotUpdated
    ensures InvRetries(max, step, i) == InvRun(false, false, max - i, 0)
    decreases max - i
  {
    if i < max {
      InvAllRefused(max, step, i + 1);
    }
  }

  /** Without a location the loop returns after its first attempt and counts
      nothing. */
  lemma InvNoLocation(max: nat, store: Store, location: Option<Locations.Location>, variantId: int, cantidad: int)
    requires !Truthy(location)
    ensures InvRetries(max, InvSteps(store, location, variantId, cantidad), 0) ==
      InvRun(false, false, if max == 0 then 0 else 1, 0)
  {
  }

  // ---------------------------------------------------------------- outcome and statistics

  /** The importer's settings `crear_producto_shopify` reads: its text repair,
      whether inventory can be updated (`has_inventory_permissions`), the location
      and `max_retries`. */
  datatype Setup = Setup(fix: string -> string, canUpdate: bool, location: Option<Locations.Location>, maxRetries: nat)

  /** What `crear_producto_shopify` did with one row. `Created` carries the new
      variant and, when the importer could update inventory, how that went. */
  datatype Outcome = NoStock | Duplicate | Failed | Created(variantId: int, inventory: Option<InvRun>)

  /** `crear_producto_shopify(producto_data)`: a stock that does not parse is an
      error; a stock not above zero skips the row; a non-empty handle already in
      the store skips it as a duplicate; otherwise the product is saved and, with
      inventory permissions and a location, its stock (truncated) is set. */
  function Crear(row: Row, parse: string -> Option<real>, store: Store, setup: Setup): Outcome
  {
    match Stock.ImporterStock(row, parse)
    case None => Failed
    case Some(stock) =>
      if stock <= 0.0 then NoStock
      else
        var handle := Strip(Cell(row, "Handle", ""));
        var found := if handle != "" then store.find(handle) else Returns(false);
        match found
        case Raises => Failed
        case Returns(known) =>
          if known then Duplicate
          else Save(row, parse, store, setup, stock)
  }

  /** The last step of `crear_producto_shopify`, for a row in stock that is not a
      duplicate: save the product; a save that raises or returns false is an
      error; otherwise the product is created and, with inventory permissions and
      a location, its stock (truncated) is set. */
  function Save(row: Row, parse: string -> Option<real>, store: Store, setup: Setup, stock: real): Outcome {
    match store.save(Payload(row, parse, setup.fix))
    case Raises => Failed
    case Returns(saved) =>
      match saved
      case None => Failed
      case Some(v) =>
        Created(v, if setup.canUpdate && Truthy(setup.location)
                   then Some(InvRetries(setup.maxRetries, InvSteps(store, setup.location, v, Stock.Trunc(stock)), 0))
                   else None)
  }

  /** A row without stock makes no call to the store: its outcome is the same
      whatever the store answers. */
  lemma CrearNoStock(row: Row, parse: string -> Option<real>, s1: Store, s2: Store, setup: Setup)
    requires Stock.ImporterStock(row, parse).Some? && Stock.ImporterStock(row, parse).value <= 0.0
    ensures Crear(row, parse, s1, setup) == NoStock
    ensures Crear(row, parse, s2, setup) == NoStock
  {
  }

  /** A row with stock is never settled as without stock. */
  lemma CrearInStock(row: Row, parse: string -> Option<real>, store: Store, setup: Setup)
    requires Stock.ImporterStock(row, parse).Some? && Stock.ImporterStock(row, parse).value > 0.0
    ensures !Crear(row, parse, store, setup).NoStock?
  {
  }

  /** An empty (stripped) handle skips the lookup: the outcome does not depend on
      what `find` answers. */
  lemma CrearNoHandle(row: Row, parse: string -> Option<real>, store: Store, find: string -> Call<bool>, setup: Setup)
    requires Strip(Cell(row, "Handle", "")) == ""
    ensures Crear(row, parse, store, setup) ==
            Crear(row, parse, store.(find := find), setup)
  {
    var other := store.(find := find);
    var stock := Stock.ImporterStock(row, parse);
    if stock.Some? && stock.value > 0.0 && store.save(Payload(row, parse, setup.fix)).Returns?
       && store.save(Payload(row, parse, setup.fix)).value.Some?
    {
      var v := store.save(Payload(row, parse, setup.fix)).value.value;
      var q := Stock.Trunc(stock.value);
      InvRetriesSame(setup.maxRetries, InvSteps(store, setup.location, v, q), InvSteps(other, setup.location, v, q), 0);
    }
  }

  /** The inventory loop depends only on how each attempt ends. */
  lemma {:induction false} InvRetriesSame(max: nat, s1: nat -> InvStep, s2: nat -> InvStep, i: nat)
    requires forall k: nat :: s1(k) == s2(k)
    ensures InvRetries(max, s1, i) == InvRetries(max, s2, i)
    decreases max - i
  {
    if i < max {
      InvRetriesSame(max, s1, s2, i + 1);
    }
  }

  /** A row in stock whose handle the store already has is a duplicate, and
      nothing is saved: the outcome does not depend on what `save` would do. */
  lemma CrearDuplicate(row: Row, parse: string -> Option<real>, store: Store, save: NewProduct -> Call<Option<int>>, setup: Setup)
    requires Stock.ImporterKeeps(row, parse)
    requires Strip(Cell(row, "Handle", "")) != "" && store.find(Strip(Cell(row, "Handle", ""))) == Returns(true)
    ensures Crear(row, parse, store, setup) == Duplicate
    ensures Crear(row, parse, store.(save := save), setup) == Duplicate
  {
  }

  /** The importer's statistics (`self.stats`, without the time stamps). */
  datatype Stats = Stats(procesados: nat, creados: nat, duplicados: nat, conError: nat, sinStock: nat,
                         inventarioActualizado: nat, erroresInventario: nat)

  const NoStats := Stats(0, 0, 0, 0, 0, 0, 0)

  /** The counters an inventory run moves. */
  function InvTally(s: Stats, r: InvRun): Stats {
    s.(inventarioActualizado := s.inventarioActualizado + (if r.updated then 1 else 0),
       erroresInventario := s.erroresInventario + (if r.failed then 1 else 0))
  }

  /** The counters `crear_producto_shopify` moves for an outcome. */
  function Tally(s: Stats, o: Outcome): Stats {
    match o
    case NoStock => s.(sinStock := s.sinStock + 1)
    case Duplicate => s.(duplicados := s.duplicados + 1)
    case Failed => s.(conError := s.conError + 1)
    case Created(_, inv) =>
      var s' := s.(creados := s.creados + 1);
      if inv.Some? then InvTally(s', inv.value) else s'
  }

  /** The product counters taken together. */
  function Settled(s: Stats): nat {
    s.creados + s.duplicados + s.conError + s.sinStock
  }

  function Inventory(s: Stats): nat {
    s.inventarioActualizado + s.erroresInventario
  }

  /** The statistics after the products with outcomes `os` were processed in order:
      each one counted as processed, then its outcome. */
  function ImportTally(s: Stats, os: seq<Outcome>): Stats {
    if os == [] then s
    else
      var before := ImportTally(s, os[..|os| - 1]);
      Tally(before.(procesados := before.procesados + 1), os[|os| - 1])
  }

  /** One more product: counted as processed, then its outcome. */
  lemma ImportTallySnoc(s: Stats, os: seq<Outcome>, o: Outcome)
    ensures ImportTally(s, os + [o]) == var t := ImportTally(s, os); Tally(t.(procesados := t.procesados + 1), o)
  {
    assert (os + [o])[..|os + [o]| - 1] == os;
  }

  /** The statistics after one more product, counted and then tallied. */
  lemma TallyCounted(s: Stats, os: seq<Outcome>, o: Outcome, counted: Stats, after: Stats)
    requires counted == ImportTally(s, os).(procesados := ImportTally(s, os).procesados + 1)
    requires after == Tally(counted, o)
    ensures after == ImportTally(s, os + [o])
  {
    ImportTallySnoc(s, os, o);
  }

  /** Tallying two runs of products one after the other is tallying them together. */
  lemma {:induction false} ImportTallyAppend(s: Stats, a: seq<Outcome>, b: seq<Outcome>)
    ensures ImportTally(s, a + b) == ImportTally(ImportTally(s, a), b)
    decreases |b|
  {
    if b == [] {
      assert a + b == a;
    } else {
      var b' := b[..|b| - 1];
      assert (a + b)[..|a + b| - 1] == a + b';
      ImportTallyAppend(s, a, b');
    }
  }

  /** An outcome whose inventory run, if any, was not both set and failed; every
      outcome `Crear` gives is one. */
  predicate Consistent(o: Outcome) {
    o.Created? && o.inventory.Some? ==> !(o.inventory.value.updated && o.inventory.value.failed)
  }

  lemma CrearConsistent(row: Row, parse: string -> Option<real>, store: Store, setup: Setup)
    ensures Consistent(Crear(row, parse, store, setup))
  {
    var o := Crear(row, parse, store, setup);
    if o.Created? && o.inventory.Some? {
      var stock := Stock.ImporterStock(row, parse).value;
      InvBounds(setup.maxRetries, InvSteps(store, setup.location, o.variantId, Stock.Trunc(stock)), 0);
    }
  }

  /** Every product is counted as processed once and settled once; rows without
      stock are counted only through a `NoStock` outcome; inventory counters move
      at most once per created product. */
  lemma {:induction false} ImportTallyCounts(s: Stats, os: seq<Outcome>)
    requires forall k | 0 <= k < |os| :: Consistent(os[k])
    ensures ImportTally(s, os).procesados == s.procesados + |os|
    ensures Settled(ImportTally(s, os)) == Settled(s) + |os|
    ensures (forall k | 0 <= k < |os| :: !os[k].NoStock?) ==> ImportTally(s, os).sinStock == s.sinStock
    ensures ImportTally(s, os).creados >= s.creados && Inventory(ImportTally(s, os)) >= Inventory(s)
    ensures Inventory(ImportTally(s, os)) - Inventory(s) <= ImportTally(s, os).creados - s.creados
    decreases |os|
  {
    if os != [] {
      var init := os[..|os| - 1];
      assert forall k | 0 <= k < |init| :: init[k] == os[k];
      ImportTallyCounts(s, init);
      assert Consistent(os[|os| - 1]);
    }
  }

  /** `if limite: productos_con_stock = productos_con_stock[:limite]` */
  function Selected(kept: seq<Row>, limite: Option<int>): (items: seq<Row>)
    ensures |items| <= |kept| && items == kept[..|items|]
  {
    if limite.Some? && limite.value != 0 then SliceTo(kept, limite.value) else kept
  }

  /** Every row the filter keeps passes the stock check of `crear_producto_shopify`:
      no selected row is counted as without stock, or as an error for its stock. */
  lemma KeptRowsInStock(rows: seq<Row>, parse: string -> Option<real>, limite: Option<int>, row: Row)
    requires row in Selected(Stock.Filter(rows, Stock.ImporterRule(parse)), limite)
    ensures Stock.ImporterStock(row, parse).Some? && Stock.ImporterStock(row, parse).value > 0.0
  {
    var kept := Stock.Filter(rows, Stock.ImporterRule(parse));
    var items := Selected(kept, limite);
    var k :| 0 <= k < |items| && items[k] == row;
    assert row == kept[k] && row in kept;
    Stock.FilterMembers(rows, Stock.ImporterRule(parse));
    assert Stock.ImporterRule(parse)(row);
  }

  // ---------------------------------------------------------------- batches


  /** Handling one product with the given reader and settings. */
  function CrearWith(parse: string -> Option<real>, setup: Setup): (Row, Store) -> Outcome {
    (row: Row, store: Store) => Crear(row, parse, store, setup)
  }

  /** `crear` creates products as `crear_producto_shopify` does under `setup`.
      The quantifier is only instantiated where a `Crear` term appears, which
      keeps the batch loops from unfolding the creation of every product. */
  ghost predicate Creates(crear: (Row, Store) -> Outcome, parse: string -> Option<real>, setup: Setup) {
    forall row: Row, store: Store {:trigger Crear(row, parse, store, setup)} ::
      crear(row, store) == Crear(row, parse, store, setup)
  }

  lemma CrearWithCreates(parse: string -> Option<real>, setup: Setup)
    ensures Creates(CrearWith(parse, setup), parse, setup)
  {
  }

  /** The outcomes of the first `n` items, in order, product `k` meeting store
      `stores(k)`. */
  function Outcomes(items: seq<Row>, stores: nat -> Store, crear: (Row, Store) -> Outcome, n: nat): (os: seq<Outcome>)
    requires n <= |items|
    ensures |os| == n
  {
    if n == 0 then [] else Outcomes(items, stores, crear, n - 1) + [crear(items[n - 1], stores(n - 1))]
  }

  /** Outcome `k` is what handling product `k` came to. */
  lemma {:induction false} OutcomesAt(items: seq<Row>, stores: nat -> Store, crear: (Row, Store) -> Outcome,
                                      n: nat, k: nat)
    requires k < n <= |items|
    ensures Outcomes(items, stores, crear, n)[k] == crear(items[k], stores(k))
  {
    if k < n - 1 {
      OutcomesAt(items, stores, crear, n - 1, k);
    }
  }

  /** The outcome of each item, in order. */
  predicate Processed(items: seq<Row>, parse: string -> Option<real>, stores: nat -> Store, setup: Setup,
                      outcomes: seq<Outcome>)
  {
    outcomes == Outcomes(items, stores, CrearWith(parse, setup), |items|)
  }

  /** The outcome of selected row `k` is consistent and never "without stock". */
  lemma SelectedOutcome(rows: seq<Row>, parse: string -> Option<real>, limite: Option<int>, stores: nat -> Store,
                        setup: Setup, outcomes: seq<Outcome>, k: nat)
    requires Processed(Selected(Stock.Filter(rows, Stock.ImporterRule(parse)), limite), parse, stores, setup, outcomes)
    requires k < |outcomes|
    ensures Consistent(outcomes[k]) && !outcomes[k].NoStock?
  {
    var items := Selected(Stock.Filter(rows, Stock.ImporterRule(parse)), limite);
    OutcomesAt(items, stores, CrearWith(parse, setup), |items|, k);
    assert outcomes[k] == Crear(items[k], parse, stores(k), setup);
    CrearConsistent(items[k], parse, stores(k), setup);
    KeptRowsInStock(rows, parse, limite, items[k]);
    CrearInStock(items[k], parse, stores(k), setup);
  }

  /** The import's balance: every selected row is counted once as processed and
      settled once as created, duplicate or error, never as without stock, since
      the filter only keeps rows that pass the stock check; inventory counters move
      at most once per created product. */
  lemma ImportBalance(rows: seq<Row>, parse: string -> Option<real>, limite: Option<int>, stores: nat -> Store,
                      setup: Setup, outcomes: seq<Outcome>, s: Stats)
    requires Processed(Selected(Stock.Filter(rows, Stock.ImporterRule(parse)), limite), parse, stores, setup, outcomes)
    ensures ImportTally(s, outcomes).procesados == s.procesados + |outcomes|
    ensures var t := ImportTally(s, outcomes);
      t.creados + t.duplicados + t.conError == s.creados + s.duplicados + s.conError + |outcomes|
    ensures ImportTally(s, outcomes).sinStock == s.sinStock
    ensures Inventory(ImportTally(s, outcomes)) - Inventory(s) <= ImportTally(s, outcomes).creados - s.creados
  {
    forall k | 0 <= k < |outcomes| ensures Consistent(outcomes[k]) && !outcomes[k].NoStock? {
      SelectedOutcome(rows, parse, limite, stores, setup, outcomes, k);
    }
    ImportTallyCounts(s, outcomes);
  }

  /** How `importar_productos` ended: no file, no rows, a batch size of zero (which
      makes `range` raise), or an import of the selected rows. */
  datatype ImportRun =
    | NoFile
    | NoRows(file: string)
    | StepZero(file: string, rows: seq<Row>, items: seq<Row>)
    | Imported(file: string, rows: seq<Row>, items: seq<Row>, batches: seq<seq<Row>>,
               outcomes: seq<Outcome>, pauses: nat)

  /** The file `importar_productos` reads: the one it is given, or else the
      download (with the local fallback). */
  function Archivo(archivo: string, url: string, maxRetries: nat, src: Source): Option<string> {
    if archivo != "" then Some(archivo) else Descarga(url, maxRetries, true, src)
  }

  /** `importar_productos` once the rows are read, with the statistics it leaves:
      filter (which sets the without-stock counter), select, and, for a positive
      batch size, every batch in order; a zero batch size stops before the loop and
      a negative one makes an empty loop. */
  function ImportarFilas(file: string, rows: seq<Row>, limite: Option<int>, parse: string -> Option<real>,
                         stores: nat -> Store, setup: Setup, size: int, s: Stats): (ImportRun, Stats)
  {
    var kept := Stock.Filter(rows, Stock.ImporterRule(parse));
    var filtered := s.(sinStock := |rows| - |kept|);
    var items := Selected(kept, limite);
    if size == 0 then (StepZero(file, rows, items), filtered)
    else if size < 0 then (Imported(file, rows, items, [], [], 0), filtered)
    else
      var outcomes := Outcomes(items, stores, CrearWith(parse, setup), |items|);
      (Imported(file, rows, items, Chunks.Batches(items, size, Chunks.Count(|items|, size)), outcomes,
                Chunks.Pauses(|items|, size)),
       ImportTally(filtered, outcomes))
  }

  /** `importar_productos(archivo_csv, limite)` with the statistics it leaves. */
  function Importar(archivo: string, limite: Option<int>, src: Source, parse: string -> Option<real>,
                    stores: nat -> Store, setup: Setup, url: string, size: int, s: Stats): (ImportRun, Stats)
  {
    match Archivo(archivo, url, setup.maxRetries, src)
    case None => (NoFile, s)
    case Some(file) =>
      var rows := ImporterParse(file, src.read);
      if rows == [] then (NoRows(file), s)
      else ImportarFilas(file, rows, limite, parse, stores, setup, size, s)
  }

  /** The run ends without a file exactly when none was given and the download
      (with its fallback) found none, and without rows exactly when the file parses
      to nothing; in both cases the statistics are untouched. Otherwise the rows are
      the parse of the file and the items the selection of those in stock, and the
      without-stock counter holds how many the filter dropped. */
  lemma ImportarSteps(archivo: string, limite: Option<int>, src: Source, parse: string -> Option<real>,
                      stores: nat -> Store, setup: Setup, url: string, size: int, s: Stats)
    ensures var (r, t) := Importar(archivo, limite, src, parse, stores, setup, url, size, s);
      && (r.NoFile? <==> archivo == "" && Descarga(url, setup.maxRetries, true, src).None?)
      && (!r.NoFile? ==> r.file == if archivo != "" then archivo else Descarga(url, setup.maxRetries, true, src).value)
      && (!r.NoFile? ==> (r.NoRows? <==> ImporterParse(r.file, src.read) == []))
      && (r.NoFile? || r.NoRows? ==> t == s)
      && (r.StepZero? <==> !r.NoFile? && !r.NoRows? && size == 0)
      && (r.StepZero? || r.Imported? ==>
            r.rows == ImporterParse(r.file, src.read)
            && r.items == Selected(Stock.Filter(r.rows, Stock.ImporterRule(parse)), limite))
      && (r.StepZero? ==> t == s.(sinStock := |r.rows| - |Stock.Filter(r.rows, Stock.ImporterRule(parse))|))
  {
  }

  /** A run with a positive batch size cuts the items into consecutive batches of
      `size` with a pause between two of them, handles every item once in order,
      and leaves the statistics balanced: every item counted once as processed and
      settled once as created, duplicate or error, none as without stock. A
      negative batch size imports nothing. */
  lemma ImportarBatches(archivo: string, limite: Option<int>, src: Source, parse: string -> Option<real>,
                        stores: nat -> Store, setup: Setup, url: string, size: int, s: Stats)
    ensures var (r, t) := Importar(archivo, limite, src, parse, stores, setup, url, size, s);
      && (r.Imported? && size < 0 ==> r.batches == [] && r.outcomes == [] && r.pauses == 0 && t.procesados == s.procesados)
      && (r.Imported? && size > 0 ==>
            && Chunks.Batched(r.items, size, r.batches, r.pauses)
            && Chunks.Flatten(r.batches) == r.items
            && Processed(r.items, parse, stores, setup, r.outcomes)
            && t.procesados == s.procesados + |r.items|
            && t.creados + t.duplicados + t.conError == s.creados + s.duplicados + s.conError + |r.items|
            && t.sinStock == |r.rows| - |Stock.Filter(r.rows, Stock.ImporterRule(parse))|)
  {
    match Archivo(archivo, url, setup.maxRetries, src)
    case None =>
    case Some(file) =>
      var rows := ImporterParse(file, src.read);
      if rows != [] && size > 0 {
        FilasBatches(file, rows, limite, parse, stores, setup, size, s);
      }
  }

  /** The rows of a file imported with a positive batch size, as
      `ImportarBatches` states it. */
  lemma FilasBatches(file: string, rows: seq<Row>, limite: Option<int>, parse: string -> Option<real>,
                     stores: nat -> Store, setup: Setup, size: int, s: Stats)
    requires size > 0
    ensures var (r, t) := ImportarFilas(file, rows, limite, parse, stores, setup, size, s);
      && r.Imported? && r.rows == rows
      && Chunks.Batched(r.items, size, r.batches, r.pauses)
      && Chunks.Flatten(r.batches) == r.items
      && Processed(r.items, parse, stores, setup, r.outcomes)
      && t.procesados == s.procesados + |r.items|
      && t.creados + t.duplicados + t.conError == s.creados + s.duplicados + s.conError + |r.items|
      && t.sinStock == |rows| - |Stock.Filter(rows, Stock.ImporterRule(parse))|
  {
    var kept := Stock.Filter(rows, Stock.ImporterRule(parse));
    var items := Selected(kept, limite);
    var outcomes := Outcomes(items, stores, CrearWith(parse, setup), |items|);
    var batches := Chunks.Batches(items, size, Chunks.Count(|items|, size));
    var filtered := s.(sinStock := |rows| - |kept|);
    Chunks.AllBatched(items, size);
    Chunks.BatchesCover(items, size, batches, Chunks.Pauses(|items|, size));
    ImportBalance(rows, parse, limite, stores, setup, outcomes, filtered);
    var t := ImportTally(filtered, outcomes);
    assert t.procesados == s.procesados + |items|;
    assert t.creados + t.duplicados + t.conError == s.creados + s.duplicados + s.conError + |items|;
    assert t.sinStock == |rows| - |kept|;
    assert ImportarFilas(file, rows, limite, parse, stores, setup, size, s)
      == (Imported(file, rows, items, batches, outcomes, Chunks.Pauses(|items|, size)), t);
  }
}