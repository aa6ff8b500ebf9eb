/** The download and parse flow of `CSVSplitterShopify`: which attempts are made,
    which local file is used, and which encoding's reading is kept. */
module SplitterFlow {
  import opened Wrappers
  import opened Strings
  import opened Csv
  import SplitterRows
  import Retry

  const MaxRetries: nat := 3

  /** Where a downloaded CSV is saved. */
  const DownloadFile: string := "ProductosHora.csv"

  /** The local files tried when the download fails, in priority order. */
  const LocalFiles: seq<string> :=
    ["ProductosHora.csv", "productos_ociostock.csv", "productos_shopify.csv", "productos.csv", "syscom.csv"]

  /** One attempt: `r` is what the GET gave, `saveOk` whether writing the file
      succeeds. An HTML page abandons the download, a saved CSV settles it, and any
      exception, a status other than 200, or a body that is neither HTML nor CSV
      leads to the next attempt. */
  function StepOf(r: Call<Response>, saveOk: bool): Retry.Step {
    match r
    case Raises => Retry.Again
    case Returns(resp) =>
      var ct := Lower(resp.contentType);
      if resp.status != 200 then Retry.Again
      else if HtmlResponse(resp.text, ct) then Retry.Abandon
      else if CsvResponse(resp.text, ct) && saveOk then Retry.Done
      else Retry.Again
  }

  /** How each attempt goes: `get(i)` is what GET number `i` gives and `saveOk(i)`
      whether saving its file succeeds. */
  function Steps(get: nat -> Call<Response>, saveOk: nat -> bool): nat -> Retry.Step {
    (i: nat) => StepOf(get(i), saveOk(i))
  }

  /** An HTML `content-type` ends the loop whatever the body says. */
  lemma HtmlTypeStops(resp: Response, saveOk: bool)
    requires resp.status == 200 && Contains(Lower(resp.contentType), "text/html")
    ensures StepOf(Returns(resp), saveOk) == Retry.Abandon
  {
  }

  /** The retry loop as the download runs it: no GET at all without a URL. */
  function DownloadRun(url: string, get: nat -> Call<Response>, saveOk: nat -> bool): Retry.Run {
    if url != "" then Retry.Retries(MaxRetries, Steps(get, saveOk), 0) else Retry.Run(false, 0, 0)
  }

  /** A local fallback file is used when it exists and its first 200 characters,
      stripped, do not open an HTML page; a file that cannot be read is used. */
  predicate Usable(f: string, isFile: string -> bool, read: string -> Call<string>) {
    isFile(f) && !(read(f).Returns? && StartsHtml(SliceTo(read(f).value, 200)))
  }

  /** `Usable` as a test on file names. */
  function UsableTest(isFile: string -> bool, read: string -> Call<string>): string -> bool {
    f => Usable(f, isFile, read)
  }

  /** `descargar_csv()`: the saved download, else the first usable local file. */
  function Descarga(url: string, get: nat -> Call<Response>, saveOk: nat -> bool,
                    isFile: string -> bool, read: string -> Call<string>): Option<string>
  {
    if DownloadRun(url, get, saveOk).done then Some(DownloadFile) else FirstFile(LocalFiles, UsableTest(isFile, read))
  }

  /** Without a URL the download makes no GET and falls back on the local files. */
  lemma NoUrl(get: nat -> Call<Response>, saveOk: nat -> bool, isFile: string -> bool, read: string -> Call<string>)
    ensures DownloadRun("", get, saveOk).attempts == 0
    ensures Descarga("", get, saveOk, isFile, read) == FirstFile(LocalFiles, UsableTest(isFile, read))
  {
  }

  /** Reading the file in one encoding, as `parsear_csv` does: the HTML check and
      the delimiter on the 2048-character sample, then the header decides between
      the rows as they are, the converted rows, and the next encoding. */
  function TryParse(e: string, open: string -> Call<string>, read: (string, char) -> Call<Sheet>): Option<seq<Row>>
  {
    match open(e)
    case Raises => None
    case Returns(text) =>
      var sample := SliceTo(text, 2048);
      if HtmlSample(sample) then None
      else match read(text, Delimiter(sample))
        case Raises => None
        case Returns(sheet) =>
          if sheet.fieldnames == [] then None
          else match Classify(sheet.fieldnames)
            case Native => Some(sheet.rows)
            case Convertible => Some(SplitterRows.ConvertRows(sheet.rows))
            case Unrecognized => None
  }

  /** What each encoding gives when the file is read with `open` and `read`. */
  function Attempts(open: string -> Call<string>, read: (string, char) -> Call<Sheet>): string -> Option<seq<Row>> {
    e => TryParse(e, open, read)
  }

  /** A native header keeps the rows as read, even when alternative columns are
      present too; a header with only alternative columns gives the converted rows,
      one per row read and each with a non-empty title. */
  lemma TryParseFormat(e: string, open: string -> Call<string>, read: (string, char) -> Call<Sheet>, sheet: Sheet)
    requires open(e).Returns? && !HtmlSample(SliceTo(open(e).value, 2048))
    requires read(open(e).value, Delimiter(SliceTo(open(e).value, 2048))) == Returns(sheet)
    ensures (exists c | c in NativeFields :: c in sheet.fieldnames) ==> TryParse(e, open, read) == Some(sheet.rows)
    ensures (forall c | c in NativeFields :: c !in sheet.fieldnames) && (exists c | c in AlternativeFields :: c in sheet.fieldnames) ==>
      TryParse(e, open, read).Some? && |TryParse(e, open, read).value| == |sheet.rows|
      && forall i | 0 <= i < |sheet.rows| ::
        "Title" in TryParse(e, open, read).value[i] && TryParse(e, open, read).value[i]["Title"] != ""
    ensures (forall c | c in NativeFields :: c !in sheet.fieldnames) && (forall c | c in AlternativeFields :: c !in sheet.fieldnames) ==>
      TryParse(e, open, read).None?
  {
    var f := Classify(sheet.fieldnames);
    if f == Convertible {
      forall i | 0 <= i < |sheet.rows| ensures "Title" in SplitterRows.ConvertRows(sheet.rows)[i]
        && SplitterRows.ConvertRows(sheet.rows)[i]["Title"] != ""
      {
        SplitterRows.ConvertRowShape(sheet.rows[i], i);
      }
    }
  }
}
