# Syscom to Shopify importer — a Dafny model

The repository moves a vendor's product catalogue (Syscom's CSV export) into a
Shopify store. This project models its core in Dafny and proves properties of
that model:

- **The importer** (`csv_to_shopify.py`, class `SyscomImporter`) downloads the CSV
  with retries and a local fallback. It parses the CSV with the first encoding
  that reads, keeps the products in stock, creates each product (payload, price,
  handle, image, duplicate check) and sets its inventory at the main location with
  retries. It works in batches with pauses between them and keeps statistics
  throughout. The text repair table (`fix_encoding_issues`) is part of it.
- **The offline splitter** (`csv_shopify_split/csv_splitter_shopify.py`, class
  `CSVSplitterShopify`) does the following:
  - it downloads or finds a CSV;
  - it sniffs the HTML, the delimiter and the format (Shopify-native or Syscom);
  - it converts Syscom columns to Shopify columns and filters by stock;
  - it cleans each product to the Shopify import columns;
  - it writes numbered files of at most 2000 products each.
- **Category mapping** (`category_mapping.py`) converts a Syscom category path to
  a Shopify category and reports statistics about the mapping table.
- **The encoding and stock fixer** (`fix_encoding_and_stock.py`) repairs
  mis-decoded text line by line and writes `*_fixed.csv` files.
- **The CSV verifier** (`verificar_csv.py`) reads a preview (the first six lines, cut
  at `\n`, `\r\n` or a bare `\r` as Python's universal newlines cut them), sniffs the delimiter,
  classifies the columns and counts the rows in stock.
- **The stock manager** (`stock_manager.py`) finds the main location and sends one
  inventory update per row with a SKU and a positive quantity.
- **The checkbox clicker** (`simple_checkbox_automator.py`) keeps a blacklist of
  screen positions. A position is bucketed to a 10-pixel grid and blacklisted
  after two clicks. Three cycles in a row with nothing to click make it scroll
  the page down and start a fresh blacklist.

Python dictionaries whose order matters (the repair tables, the column mapping
and the category table) are ordered association lists: insertion keeps the
first position, and a later value wins (module `Dicts`). CSV rows are maps from
column name to text; their key order is not modelled, and no modelled behaviour
depends on it, since the splitter's header goes through `set()` and `sorted()`. Everything outside the program becomes a
parameter of the model:

- the store's API;
- the HTTP responses;
- the files on disk;
- `float()` parsing;
- the screen.

Each such parameter is either a value or a function returning
`Raises | Returns(v)` (`Wrappers.Call`). Loops of the source are methods that
are proved against a recursive specification function. Objects whose fields
change become classes whose methods state the new state in terms of the old one.

Where the design description and the code disagree, the model follows the code:

- The description says a file whose columns are of neither kind fails with an
  unrecognised-schema error. In the splitter's `parsear_csv`, such a reading is
  skipped, the next encoding is tried, and after the last one the result is an
  empty list (`SplitterFlow.TryParseFormat`, `Csv.ParseFirst`).
- The description says no record is dropped silently. In the splitter, a chunk
  whose cleaned rows carry columns missing from the header is not written and not
  listed (see Findings).
- The importer's repair table has a duplicate key, and the later entry wins
  (`Encoding.ImporterDuplicateKey`).
- The splitter reads the first stock column that is present and parses
  (`Stock.RulesDiffer`).

## Model

| member | source | states |
|---|---|---|
| Strings.ContainsAt | csv_to_shopify.py:252-253 | `Contains(s, t)` holds iff `t` occurs in `s` at some index |
| Strings.ReplaceAbsent | csv_to_shopify.py:706-708 | replacing a text that does not occur leaves the string unchanged |
| Strings.Split | csv_to_shopify.py:256 | `str.split(sep)` always gives at least one piece |
| Strings.JoinSplit | fix_encoding_and_stock.py:214-228 | splitting and then joining with the same separator is the identity |
| Strings.SplitJoin | fix_encoding_and_stock.py:214-228 | joining pieces free of the separator and splitting again gives the pieces back |
| Strings.StripSlice | csv_to_shopify.py:333 | `strip()` gives a contiguous slice of its input with no leading or trailing whitespace, empty iff the input is all whitespace |
| Strings.StripTrimmed | csv_to_shopify.py:333 | text with no leading or trailing whitespace is unchanged by `strip()` |
| Strings.Lower | csv_to_shopify.py:252 | `lower()` keeps the length and maps each character to its lower-case form |
| Strings.Upper | stock_manager.py:32 | `upper()` keeps the length and maps each character to its upper-case form |
| Strings.SliceTo | category_mapping.py:327 | `s[:n]` is a prefix of `s`, as long as `n` allows, with Python's meaning for a negative `n` |
| Decimal.TextValue | csv_shopify_split/csv_splitter_shopify.py:293 | `str(n)` reads back as `n` |
| Decimal.Pad3Spec | csv_shopify_split/csv_splitter_shopify.py:477 | the `03d` format is all digits, at least three long, exactly three below 1000, and reads back as the number |
| Decimal.Pad3Injective | csv_shopify_split/csv_splitter_shopify.py:477 | different numbers get different `03d` texts |
| Dicts.GetFirst | csv_to_shopify.py:676-703 | a lookup succeeds iff the key is present, and gives the value of the first entry with that key |
| Dicts.InsertGet | csv_shopify_split/csv_splitter_shopify.py:279-283 | after `d[k] = v`, `k` maps to `v` and every other key keeps its value |
| Dicts.InsertKeys | csv_shopify_split/csv_splitter_shopify.py:279-283 | an assignment appends a new key at the end and keeps the order of the old keys |
| Dicts.InsertDistinct | csv_shopify_split/csv_splitter_shopify.py:279-283 | the keys stay pairwise distinct |
| Dicts.InsertAllGet | category_mapping.py:259 | `dict.update` gives each key its last value in the update, else its old value |
| Dicts.InsertAllKeys | category_mapping.py:259 | `dict.update` keeps the old keys first and appends the new ones in order |
| Dicts.LiteralRepeat | csv_to_shopify.py:694 | in a dict literal with a repeated key, the later value wins and the key keeps its first position |
| Encoding.StripControl | csv_to_shopify.py:712 | the result has no control character, keeps every other character, and leaves text without control characters unchanged |
| Encoding.CollapseSpaces | csv_to_shopify.py:713 | the result is single-spaced, and a leading whitespace character becomes one space |
| Encoding.CollapseIdentity | csv_to_shopify.py:713 | single-spaced text is unchanged |
| Encoding.Cleanup | csv_to_shopify.py:711-713 | the cleaned text is stripped, single-spaced and free of control characters |
| Encoding.CleanupIdempotent | csv_to_shopify.py:711-713 | cleaning twice is cleaning once |
| Encoding.CleanupIdentity | csv_to_shopify.py:711-713 | text that is already clean is unchanged |
| Encoding.ApplyTableAbsent | csv_to_shopify.py:706-708 | when no key of the table occurs, the replacement loop changes nothing |
| Encoding.FixEncoding | csv_to_shopify.py:672-715 | empty text is returned unchanged; otherwise the result is clean |
| Encoding.FixEncodingIdentity | csv_to_shopify.py:706-713 | clean text without any broken sequence is unchanged |
| Encoding.ImporterFix | csv_to_shopify.py:668-715 | the importer's repair: empty text unchanged, otherwise clean |
| Encoding.SplitterFix | csv_shopify_split/csv_splitter_shopify.py:56-81 | the splitter's repair: empty text unchanged, otherwise clean |
| Encoding.ImporterDuplicateKey | csv_to_shopify.py:694 | the literal has 70 entries; entries 51 and 52 share a key, and the table keeps the value of the later one |
| Encoding.LaterEntryFeedsEarlier | csv_to_shopify.py:678-686 | entry 27's replacement turns a text into entry 0's key, so the table's order matters |
| Fixer.FixerTableSame | fix_encoding_and_stock.py:62-89 | the fixer's table is entry for entry the importer's table |
| Fixer.FixerFixSpec | fix_encoding_and_stock.py:55-100 | empty text unchanged, otherwise clean, and always equal to the importer's repair |
| Fixer.MapKeptHas | fix_encoding_and_stock.py:214-220 | the repair of every non-blank input line is among the output lines |
| Fixer.MapKeptFrom | fix_encoding_and_stock.py:214-220 | no more output lines than input lines, each the repair of a non-blank input line |
| Fixer.FixedLinesSpec | fix_encoding_and_stock.py:214-220 | no more lines than the input; every output line is clean and free of line breaks; every non-blank line's repair is kept |
| Fixer.ReadBack | fix_encoding_and_stock.py:227-228 | the file written with `'\n'.join`, read back and split, gives exactly the repaired lines |
| Fixer.FixedLinesIdentity | fix_encoding_and_stock.py:214-228 | a file whose lines need no repair is written back unchanged |
| Fixer.ProcessLines | fix_encoding_and_stock.py:214-220 | the line loop produces the repaired lines |
| FixerFiles.RootExt | fix_encoding_and_stock.py:188 | `splitext` of a root followed by an extension gives the root back when its last path component has a name before the dot |
| FixerFiles.CsvRoot | fix_encoding_and_stock.py:188-189 | the root of a `.csv` name with a named last component is the name without its last four characters |
| FixerFiles.OutputNameSpec | fix_encoding_and_stock.py:187-189 | the output name is never selected for repair; for a selected file it is the name with `.csv` replaced by `_fixed.csv` |
| FixerFiles.FixedSuffix | fix_encoding_and_stock.py:383 | a file whose name ends in `_fixed.csv` is never selected for repair |
| FixerFiles.FirstReadSpec | fix_encoding_and_stock.py:193-205 | the text comes from the first encoding that decodes; a decode error iff no encoding decodes |
| FixerFiles.FixCsvSome | fix_encoding_and_stock.py:185-237 | a file is written iff some encoding decodes and the output is writable |
| FixerFiles.FixCsvContent | fix_encoding_and_stock.py:213-228 | the written file has the output name and holds the repaired lines joined by line breaks |
| FixerFiles.FixCsvEncoding | fix_encoding_and_stock.py:185-237 | the method returns what `fix_csv_encoding` returns |
| FixerFiles.SelectionSpec | fix_encoding_and_stock.py:380-383 | a file is selected iff it is listed, ends in `.csv` and does not end in `_fixed.csv` |
| FixerFiles.WrittenSpec | fix_encoding_and_stock.py:380-388 | no more files are written than selected, and each written name is the output name of a selected file and is not itself selected |
| FixerFiles.CorrectFiles | fix_encoding_and_stock.py:380-388 | the loop over the listing processes the selected files and writes those files |
| Csv.Classify | verificar_csv.py:85-100 | Native iff some Shopify column is present; Convertible iff there is no Shopify column but some Syscom column; Unrecognized otherwise |
| Csv.Delimiter | csv_shopify_split/csv_splitter_shopify.py:204-208 | `;` when it outnumbers `,`; tab when tabs outnumber commas; `,` otherwise |
| Csv.DelimiterDefault | verificar_csv.py:64-71 | text without `;` or tabs is read with `,` |
| Csv.LooksLikeCsv | csv_to_shopify.py:249-264 | content with an HTML tag is rejected; otherwise it is accepted iff one of its first 10 lines looks like a header |
| Csv.FirstHeaderLine | csv_to_shopify.py:256-262 | the first ten lines hold a header line iff a header line is among the first ten |
| Csv.ParseFirst | csv_to_shopify.py:273-299 | the rows come from the first encoding that reads; an empty result when none reads |
| Csv.ParseLoop | csv_to_shopify.py:271-299 | the loop over the encodings returns the first success |
| Csv.FirstFileSpec | csv_to_shopify.py:237-247 | the first listed file that exists; None iff none exists |
| Csv.FindFirstFile | csv_shopify_split/csv_splitter_shopify.py:155-179 | the search loop returns that first existing file |
| Retry.RetriesBounds | csv_to_shopify.py:193-232 | never more attempts than the maximum, at least one, and one wait less than attempts |
| Retry.RetriesEndAt | csv_to_shopify.py:193-232 | the loop stops at the first attempt that does not ask for another, and succeeds iff that attempt succeeded |
| Retry.RetriesExhausted | csv_to_shopify.py:193-232 | when every attempt fails, exactly the maximum number of attempts is made and the result is a failure |
| Retry.RunRetries | csv_shopify_split/csv_splitter_shopify.py:87-152 | the retry loop returns what the retry function describes |
| ImporterRules.DownloadBounds | csv_to_shopify.py:193-232 | at most `max_retries` requests, none without a URL, and one wait less than requests |
| ImporterRules.NonCsvEndsLoop | csv_to_shopify.py:203-218 | a 200 response that is not CSV ends the retries at once, without a download |
| ImporterRules.DescargaFallback | csv_to_shopify.py:235-247 | a failed download gives the first existing local file when the fallback is on, and None otherwise |
| ImporterRules.ImporterParseSpec | csv_to_shopify.py:266-299 | non-empty rows come from the first encoding whose file has a `Handle` column; nothing is read when every encoding raises |
| ImporterRules.Payload | csv_to_shopify.py:342-400 | the title is the repaired title cut to 255 characters and the handle is stripped; the status is `active`; the variant is titled `Default Title`, carries the row's SKU and has inventory management `shopify` and policy `deny`; tags appear iff present; an image only when it is an http URL |
| ImporterRules.PriceSpec | csv_to_shopify.py:374-378 | a price that parses is used; otherwise the price is 0 |
| ImporterRules.InvBounds | csv_to_shopify.py:427-463 | never more attempts than allowed, never both set and failed, and fewer waits than attempts |
| ImporterRules.InvFailedLast | csv_to_shopify.py:456-463 | a failed update used every attempt, and the last attempt raised |
| ImporterRules.InvUpdatedAt | csv_to_shopify.py:445-454 | the first attempt that sets the level ends the loop with success after that many attempts |
| ImporterRules.InvNoLocation | csv_to_shopify.py:431-433 | without a location, one attempt is made; the level is not set and no error is reported |
| ImporterRules.CrearNoStock | csv_to_shopify.py:326-330 | a product whose stock is at most zero is skipped as without stock, whatever the store answers |
| ImporterRules.CrearNoHandle | csv_to_shopify.py:333-339 | a product without a handle skips the duplicate lookup: its answer does not matter |
| ImporterRules.CrearDuplicate | csv_to_shopify.py:333-339 | a product in stock whose handle the store already has is a duplicate, whatever saving would do |
| ImporterRules.CrearConsistent | csv_to_shopify.py:322-425 | a created product's inventory run is never both set and failed |
| ImporterRules.ImportTallyAppend | csv_to_shopify.py:609-616 | the statistics of two runs of rows compose |
| ImporterRules.ImportTallyCounts | csv_to_shopify.py:609-616 | processed grows by the number of outcomes; each outcome settles in exactly one counter; inventory updates never exceed creations |
| ImporterRules.Selected | csv_to_shopify.py:595-596 | `limite` keeps a prefix of the kept products |
| ImporterRules.KeptRowsInStock | csv_to_shopify.py:301-330 | every selected product has a stock that parses to more than zero |
| ImporterRules.OutcomesAt | csv_to_shopify.py:602-616 | the i-th outcome is the creation of the i-th selected product |
| ImporterRules.ImportBalance | csv_to_shopify.py:575-627 | after the batches, processed, created, duplicate and failed counts account for every selected product, and the stock-less count is unchanged |
| ImporterRules.ImportarSteps | csv_to_shopify.py:575-599 | no file, no rows and a batch size of zero stop the import with the matching statistics; otherwise the selected products are the kept rows, cut by `limite` |
| ImporterRules.ImportarBatches | csv_to_shopify.py:601-627 | with a positive batch size the batches cover the selection in order, every product has its outcome and the counters balance; a negative size imports nothing |
| ImporterRules.FilasBatches | csv_to_shopify.py:591-627 | the import of rows equals the batch loop over the selected products |
| Importer.SyscomImporter.constructor | csv_to_shopify.py:37-74 | the URL, batch size, 3 retries and zeroed statistics are set; there is no location or permission yet |
| Importer.SyscomImporter.VerificarPermisosShopify | csv_to_shopify.py:97-187 | the permission flags follow the probes, and the location is the main one when the store lists any |
| Importer.SyscomImporter.DescargarCsv | csv_to_shopify.py:189-247 | the download follows the retry and fallback rules |
| Importer.SyscomImporter.FiltrarProductosConStock | csv_to_shopify.py:301-320 | keeps exactly the rows the importer's stock rule accepts, in order, and counts the others as without stock |
| Importer.SyscomImporter.ActualizarInventarioConRetry | csv_to_shopify.py:427-463 | the inventory update follows the retry rule and counts its outcome |
| Importer.SyscomImporter.CrearProductoShopify | csv_to_shopify.py:322-425 | the product is created or rejected as the creation rule says, and the statistics count the outcome |
| Importer.SyscomImporter.SaveProduct | csv_to_shopify.py:404-425 | a save that raises or returns false counts one error; a saved product counts as created and, with inventory permission and a location, has its stock set through the inventory retry |
| Importer.SyscomImporter.ImportBatches | csv_to_shopify.py:601-625 | batches of `max_products_per_batch`, pauses between them, one outcome per product and the matching statistics |
| Importer.SyscomImporter.ImportarProductos | csv_to_shopify.py:575-627 | the whole import is the import rule applied to the downloaded file |
| Locations.MainLocationChoice | csv_to_shopify.py:148-166 | None iff there are no locations; otherwise the first whose upper-cased name contains OTANCAHUI, else the first listed |
| Locations.FindMainLocation | stock_manager.py:25-43 | the search loop returns that location |
| Stock.Filter | csv_to_shopify.py:301-320 | never more rows kept than given |
| Stock.FilterMembers | csv_to_shopify.py:306-315 | a row is kept iff it is accepted |
| Stock.FilterPartition | csv_shopify_split/csv_splitter_shopify.py:336-355 | kept plus rejected is the number of input rows |
| Stock.FilterIdempotent | csv_shopify_split/csv_splitter_shopify.py:336-343 | filtering the kept rows again keeps them all |
| Stock.ImporterRejects | csv_to_shopify.py:308-315 | a row without the quantity column, or whose quantity does not parse, is rejected |
| Stock.SplitterStockAt | csv_shopify_split/csv_splitter_shopify.py:336-343 | the splitter reads the first stock column, in priority order, that is present and parses |
| Stock.SplitterStockNone | csv_shopify_split/csv_splitter_shopify.py:336-343 | without such a column, the stock is zero |
| Stock.RulesDiffer | csv_shopify_split/csv_splitter_shopify.py:328-343 | a row whose first stock column reads 0 is rejected even when a later stock column is positive |
| Stock.TruncPositive | stock_manager.py:89-90 | `int(float(q)) > 0` iff `q >= 1` |
| Chunks.ChunkSize | csv_to_shopify.py:602-603 | every batch has at most the batch size, and only the last one can be shorter |
| Chunks.ChunksCover | csv_shopify_split/csv_splitter_shopify.py:473-474 | the first k chunks, concatenated, are the rows up to k times the size |
| Chunks.CountSpec | csv_to_shopify.py:605 | the number of batches is the rounded-up quotient |
| Chunks.BatchesCover | csv_to_shopify.py:602-625 | the batches, flattened, are the rows |
| Order.LessTotal | csv_shopify_split/csv_splitter_shopify.py:468 | Python's string order is total |
| Order.LessTransitive | csv_shopify_split/csv_splitter_shopify.py:468 | Python's string order is transitive |
| Order.SortedUnique | csv_shopify_split/csv_splitter_shopify.py:468 | one sorted list per set of strings |
| Order.SortedSpec | csv_shopify_split/csv_splitter_shopify.py:468 | `sorted(set)` is strictly ascending and holds exactly the set |
| Order.SortSet | csv_shopify_split/csv_splitter_shopify.py:468 | the selection loop gives the sorted list |
| Handles.HandleShape | csv_shopify_split/csv_splitter_shopify.py:296-300 | a handle is lower-case letters, digits and `-`, within the limit, a prefix of the full handle, and has no leading `-` |
| Handles.FullHandleIdempotent | csv_shopify_split/csv_splitter_shopify.py:298-299 | making a handle of a handle changes nothing |
| Handles.HandleExample | csv_shopify_split/csv_splitter_shopify.py:296-300 | "Widget" becomes "widget" |
| Categories.ConvertirCases | category_mapping.py:261-299 | empty input is returned as is; a direct hit on the stripped input gives its value; with no primary prefix hit the original is returned; otherwise the prefix rule applies |
| Categories.FirstStartingFound | category_mapping.py:288-290 | the match found belongs to the first key that starts with the prefix |
| Categories.ConvertirRange | category_mapping.py:261-299 | the result is the original or a value of the table |
| Categories.ConvertirCategoria | category_mapping.py:261-299 | the loops give `convertir_categoria`'s result |
| Categories.SetsBound | category_mapping.py:308-319 | each set of levels is no larger than the table |
| Categories.TerciariasCount | category_mapping.py:318-319 | with distinct keys, the count of third-level keys is the number of keys with at least two separators |
| Categories.CollectLevels | category_mapping.py:308-319 | the loop collects the first, second and third levels of the keys |
| Categories.ObtenerEstadisticas | category_mapping.py:301-328 | the total is the table size; the counts are the sizes of the level sets, each at most the total; with distinct keys the third-level count is the number of keys with at least two separators; the example is the first five entries |
| Verifier.CountInStock | verificar_csv.py:116-128 | the number of rows in stock is at most the number of rows |
| Verifier.CountInStockExtremes | verificar_csv.py:116-131 | zero iff no row is in stock; the total iff every row is |
| Verifier.FileLinesJoin | verificar_csv.py:38-44 | the lines a file opened with `newline=''` yields, one after the other, are the whole text |
| Verifier.FileLinesShape | verificar_csv.py:38-44 | every line is non-empty, holds no line break before its terminator, and ends in `\n`, `\r\n` or a bare `\r` unless it is the last; a bare `\r` is never followed by the `\n` that would make it `\r\n` |
| Verifier.Preview | verificar_csv.py:38-44 | the first six of those lines, or all if fewer, each stripped (which drops its terminator) |
| Verifier.BareCrPreview | verificar_csv.py:38-55 | a file whose first six lines are one character each, ended by a bare `\r`, previews as those six characters, so an HTML tag on a later line is not seen |
| Verifier.ReadPreview | verificar_csv.py:40-44 | the preview loop keeps the first six lines, each stripped |
| Verifier.VerificationOutcome | verificar_csv.py:12-143 | Unreadable iff every encoding is skipped; never Missing; a valid report names a listed encoding and counts at most the total in stock |
| Verifier.RowInStock | verificar_csv.py:119-128 | the search over the stock columns finds one iff the row is in stock, going past missing, unparsable and non-positive columns |
| Verifier.CountStock | verificar_csv.py:116-128 | the counting loop gives that count |
| Verifier.VerificarArchivoCsv | verificar_csv.py:12-143 | a missing file is reported as missing; otherwise the verification rule applies |
| StockManagement.RequestSpec | stock_manager.py:84-93 | a row leads to an update iff its SKU strips to something and its quantity parses to at least 1; the quantity sent is positive |
| StockManagement.RequestsAppend | stock_manager.py:84-93 | the updates keep the file order |
| StockManagement.RequestsSpec | stock_manager.py:84-93 | at most one update per row, each with a non-empty SKU and a positive quantity |
| StockManagement.StockManager.constructor | stock_manager.py:15-23 | with credentials and a listing, the main location is chosen; otherwise there is none |
| StockManagement.StockManager.FindMainLocation | stock_manager.py:25-43 | sets the main location; a failing or empty listing changes nothing |
| StockManagement.StockManager.UpdateStock | stock_manager.py:45-74 | succeeds iff a variant is found and the store accepts the level for its first item |
| StockManagement.StockManager.BulkUpdate | stock_manager.py:76-96 | one update call per selected row, in file order |
| SplitterFlow.HtmlTypeStops | csv_shopify_split/csv_splitter_shopify.py:99-112 | a 200 response with an HTML content type abandons the download |
| SplitterFlow.TryParseFormat | csv_shopify_split/csv_splitter_shopify.py:213-236 | native files keep their rows as read; Syscom-only files give one converted row per row, each with a title; files of neither kind give nothing, so the next encoding is tried |
| SplitterRows.MapColumnsIn | csv_shopify_split/csv_splitter_shopify.py:250-283 | a Shopify column is filled iff some mapping pair fills it from a non-empty Syscom column |
| SplitterRows.MapColumnsLast | csv_shopify_split/csv_splitter_shopify.py:250-283 | the last pair that fills a column gives its value, stripped |
| SplitterRows.SkuOverCodigo | csv_shopify_split/csv_splitter_shopify.py:252-253 | when `SKU` has a value, `Variant SKU` is that value stripped |
| SplitterRows.FallbackTitle | csv_shopify_split/csv_splitter_shopify.py:286-293 | the fallback title is never empty |
| SplitterRows.ConvertTitle | csv_shopify_split/csv_splitter_shopify.py:286-293 | the mapped title is kept, otherwise the fallback title is used |
| SplitterRows.AddMissingSpec | csv_shopify_split/csv_splitter_shopify.py:303-314 | the keys are the row's plus the defaults'; present values are kept and missing ones get their default |
| SplitterRows.ConvertRowShape | csv_shopify_split/csv_splitter_shopify.py:275-316 | a converted row has a non-empty title, every default column, and the handle made from its title, at most 100 characters |
| SplitterRows.ConvertRows | csv_shopify_split/csv_splitter_shopify.py:245-318 | one converted row per input row, in order, each converted with its own position |
| SplitterRows.ConvertExample | csv_shopify_split/csv_splitter_shopify.py:250-300 | a row with only `Codigo` X1 and `Nombre` Widget converts to SKU X1, title Widget and handle widget |
| SplitterRows.CopyFixedGet | csv_shopify_split/csv_splitter_shopify.py:413-420 | a listed column is copied iff present and non-empty, and its value is repaired |
| SplitterRows.CleanWithHandle | csv_shopify_split/csv_splitter_shopify.py:423-428 | the handle is the repaired handle, else a handle made from the repaired title (at most 255 characters), else absent |
| SplitterRows.CleanWithDefaults | csv_shopify_split/csv_splitter_shopify.py:430-446 | every default column holds the repaired value when present, otherwise the default |
| SplitterRows.CleanRowSpec | csv_shopify_split/csv_splitter_shopify.py:360-448 | a cleaned row holds only Shopify import columns: repaired values when present, handle rule, defaults |
| SplitterFiles.KeysOfSpec | csv_shopify_split/csv_splitter_shopify.py:455-457 | the keys collected are exactly the keys of some row |
| SplitterFiles.HeaderOfElements | csv_shopify_split/csv_splitter_shopify.py:459-468 | the header holds exactly the collected keys |
| SplitterFiles.HeaderOfParts | csv_shopify_split/csv_splitter_shopify.py:459-468 | the present priority columns come first, then the other columns, strictly sorted |
| SplitterFiles.HeaderOfNoRepeats | csv_shopify_split/csv_splitter_shopify.py:459-468 | no column appears twice in the header |
| SplitterFiles.FileNameInjective | csv_shopify_split/csv_splitter_shopify.py:477 | different file numbers give different file names |
| SplitterFiles.NamesDistinct | csv_shopify_split/csv_splitter_shopify.py:473-490 | the listed files have distinct names |
| SplitterFiles.ListedWhenFits | csv_shopify_split/csv_splitter_shopify.py:480-495 | when every chunk fits the header, the files listed are the writable ones, numbered in order |
| SplitterFiles.ListedWhenNoneFits | csv_shopify_split/csv_splitter_shopify.py:480-495 | when no chunk fits the header, no file is listed |
| SplitterFiles.CleanedHeaderCovers | csv_shopify_split/csv_splitter_shopify.py:455-487 | a header built from the cleaned rows covers every cleaned row |
| SplitterFiles.DividirListsWritable | csv_shopify_split/csv_splitter_shopify.py:450-497 | with the corrected header every writable chunk is listed, and the names are distinct |
| SplitterFiles.AsWrittenMissingDefault | csv_shopify_split/csv_splitter_shopify.py:455-487 | as written, when the rows lack a default column, no file is listed |
| SplitterFiles.AsWrittenExample | csv_shopify_split/csv_splitter_shopify.py:455-487 | as written, a one-row input gives no file; with the corrected header it gives one |
| Splitter.ConvertirAFormatoShopify | csv_shopify_split/csv_splitter_shopify.py:245-318 | the conversion loop gives the converted rows |
| Splitter.LimpiarProductoParaShopify | csv_shopify_split/csv_splitter_shopify.py:360-448 | the cleaning gives the cleaned row |
| Splitter.ParseWith | csv_shopify_split/csv_splitter_shopify.py:184-243 | the encoding loop gives the first successful parse |
| Splitter.HeaderFrom | csv_shopify_split/csv_splitter_shopify.py:459-468 | the header loop gives the specified header |
| Splitter.AllKeys | csv_shopify_split/csv_splitter_shopify.py:455-457 | the key loop gives the keys of the rows |
| Splitter.StockFrom | csv_shopify_split/csv_splitter_shopify.py:336-343 | the stock loop gives the value of the first listed column that is present, non-empty and parses, else 0 |
| Splitter.MapColumns | csv_shopify_split/csv_splitter_shopify.py:279-283 | the mapping loop fills each Shopify column from the non-empty, stripped Syscom cells, the last pair for a column winning |
| Splitter.TitleFrom | csv_shopify_split/csv_splitter_shopify.py:286-293 | the fallback title is the first non-empty title source cut to 100 characters, else `Producto <i+1>`; it is never empty |
| Splitter.CopyColumns | csv_shopify_split/csv_splitter_shopify.py:413-420 | each listed column that is present and non-empty is copied with its text repaired; no other column is set |
| Splitter.WriteChunk | csv_shopify_split/csv_splitter_shopify.py:480-489 | a chunk is written iff every cleaned row fits the header |
| Splitter.CleanAll | csv_shopify_split/csv_splitter_shopify.py:485-487 | one cleaned row per row, in order |
| Splitter.CSVSplitterShopify.constructor | csv_shopify_split/csv_splitter_shopify.py:31-54 | the URL is set and the counters start at zero |
| Splitter.CSVSplitterShopify.DescargarCsv | csv_shopify_split/csv_splitter_shopify.py:83-182 | the download follows the splitter's download rule |
| Splitter.CSVSplitterShopify.ParsearCsv | csv_shopify_split/csv_splitter_shopify.py:184-243 | the rows come from the first encoding that reads |
| Splitter.CSVSplitterShopify.FiltrarProductosConStock | csv_shopify_split/csv_splitter_shopify.py:320-358 | keeps exactly the rows with positive stock, in order, and adds to the kept and rejected counters |
| Splitter.CSVSplitterShopify.DividirCsvEnArchivos | csv_shopify_split/csv_splitter_shopify.py:450-497 | lists the files the corrected division writes and adds their number to the counter |
| Clicker.RoundTenthsSpec | simple_checkbox_automator.py:213-214 | Python's `round` of `n/10` is the nearest integer with ties to even, and it is the only such integer |
| Clicker.Snap | simple_checkbox_automator.py:213 | the snapped coordinate is a multiple of 10 within 5 pixels of the original |
| Clicker.PositionKey | simple_checkbox_automator.py:210-215 | the key is on the 10-pixel grid, within tolerance of the position |
| Clicker.PositionKeyIdempotent | simple_checkbox_automator.py:210-215 | the key of a key is itself |
| Clicker.Initial | simple_checkbox_automator.py:25-49 | the initial state is valid, neither running nor paused |
| Clicker.RecordClickSpec | simple_checkbox_automator.py:222-242 | a click adds one to its position's count, and the second click blacklists the position |
| Clicker.ClickBlacklisted | simple_checkbox_automator.py:86-88 | a blacklisted position is not clicked and the state is unchanged |
| Clicker.ClickOutcome | simple_checkbox_automator.py:82-101 | a click happens iff the position is not blacklisted and the click does not raise; a click counts one more, and no click leaves the state unchanged |
| Clicker.ClickValid | simple_checkbox_automator.py:82-101 | a click keeps the counts and the blacklist consistent |
| Clicker.ClickAllSpec | simple_checkbox_automator.py:120-137 | the clicks made are at most the positions found and are counted; the state stays valid |
| Clicker.SearchSpec | simple_checkbox_automator.py:103-145 | a search keeps the state valid and counts each click it reports |
| Clicker.Clean | simple_checkbox_automator.py:169-180 | after scrolling, the counts and the blacklist are empty |
| Clicker.AdvanceValid | simple_checkbox_automator.py:147-167 | advancing the page keeps the state valid and, when the scroll succeeds, empties the counts and the blacklist |
| Clicker.EndCycleSpec | simple_checkbox_automator.py:299-316 | a cycle with clicks resets the empty-cycle counter; an empty cycle counts up, and the third in a row scrolls once and resets the counter |
| Clicker.IterationValid | simple_checkbox_automator.py:290-319 | an iteration of the main loop keeps the state valid |
| Clicker.Status | simple_checkbox_automator.py:244-250 | the number of positions clicked more than once never exceeds the number of positions tracked |
| Clicker.StatusValid | simple_checkbox_automator.py:244-250 | in a valid state, the positions with several clicks are the blacklist |
| Clicker.TogglePause | simple_checkbox_automator.py:193-197 | the pause flag is negated and every other field is unchanged |
| Clicker.TogglePauseTwice | simple_checkbox_automator.py:193-197 | toggling twice restores the state |
| Clicker.Automator.constructor | simple_checkbox_automator.py:25-49 | the fields hold the initial state |
| Clicker.Automator.RecordClickAt | simple_checkbox_automator.py:222-242 | the new state is the recorded click |
| Clicker.Automator.ClickAtPosition | simple_checkbox_automator.py:82-101 | the new state and the answer are those of a click |
| Clicker.Automator.SearchAndClick | simple_checkbox_automator.py:103-145 | the new state and the answer are those of a search |
| Clicker.Automator.CleanBlacklistAfterScroll | simple_checkbox_automator.py:169-180 | the new state is the cleaned state |
| Clicker.Automator.AdvancePageDown | simple_checkbox_automator.py:147-167 | the new state is the advanced page |
| Clicker.Automator.TogglePaused | simple_checkbox_automator.py:193-197 | the new state has the pause flag toggled |
| Clicker.Automator.RunIteration | simple_checkbox_automator.py:290-319 | the new state is one iteration of the main loop |

## Left out

- Network, store and file-system calls are parameters (`Call` values and functions): HTTP sessions, the Shopify API, `os.path.exists`, directory listings and file reading and writing. The CSV module's quoting and serialisation are also parameters; rows are dictionaries of text.
- Sleeps and backoff durations are left out; only the number of waits and pauses is modelled.
- `float()` is a `parse` parameter. Non-finite floats and `None` cells are not modelled, and cell values are always text.
- Strings.Lower: `lower()` maps only ASCII letters. Unicode lower-casing, which the HTML and CSV tests apply, is not modelled.
- Strings.Upper: `upper()` maps only ASCII letters. Unicode upper-casing is not modelled, for example a non-ASCII letter that upper-cases into part of `OTANCAHUI`.
- Python's `round` is modelled on integer coordinates. Float rounding of `x / 10` for coordinates beyond 2^53 is not.
- Logging, printing, time stamps and interactive menus are left out, as is `encoding_usado` in the fixer. So are `importar_productos_interactivo`, `mostrar_estadisticas_detalladas`, the `main` functions and `_crear_sesion_con_retry` / `_setup_shopify_api`.
- The contents of the category table (category_mapping.py:7-256) are not reproduced; the table is a parameter. The principal-category list of the statistics is a set, so its order is not modelled.
- In the fixer, `get_shop_info`, `get_locations_info`, `test_inventory_permissions` and the rest of `run_complete_analysis` are left out. These are store diagnostics and reporting.
- The embedded script in `create_stock_management_script` is a string and is not modelled. Its `StockManager` copy is the same as stock_manager.py, which is modelled.
- In the splitter, `crear_archivo_instrucciones`, `ejecutar_division`, `mostrar_estadisticas_finales` and the `lineas_totales` statistic are reporting and are left out. So is the backup copy made by the download.
- In the clicker, screen search (`find_checkbox_image`, `find_checkbox_by_color`), mouse and keyboard control, hotkeys, the pause wait loop, `stop`/`emergency_stop` and `show_stats` are left out. These are screen I/O; positions found are a parameter.
- Importer.SyscomImporter.CrearProductoShopify: an exception raised while attaching the image is not modelled separately. A payload with an image is sent as one save.
- Splitter.CSVSplitterShopify.DividirCsvEnArchivos: builds the header from the cleaned rows, the corrected behaviour. The code as written is SplitterFiles.DividirAsWritten; see Findings.
- Splitter.CSVSplitterShopify.WriteFiles: the writer and the cleaning are parameters. Only the file naming, the chunking and the header check are stated.

## Findings

| source | as written | input that shows it | evidently intended | confidence | as-written member | corrected member |
|---|---|---|---|---|---|---|
| csv_shopify_split/csv_splitter_shopify.py:455-487 | The file header is built from the keys of the uncleaned rows (455-468). The writer receives the cleaned rows (485-487), and cleaning adds default columns. `csv.DictWriter` raises on a key that is not in the header, so the file is not listed. | One row with only `Handle`, `Title`, `Variant Price` and `Variant Inventory Qty`: cleaning adds default columns such as `Status`, which are not in the header. | The header covers every column of the cleaned rows, so every chunk is written. | not executed | SplitterFiles.AsWrittenExample | SplitterFiles.DividirListsWritable |
