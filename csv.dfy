/** What the three CSV readers have in common: rows, the HTML and CSV sniffing
    rules, the delimiter choice and the schema classification. */
module Csv {
  import opened Strings
  import opened Wrappers

  /** A row as `csv.DictReader` yields it: column name to cell text. */
  type Row = map<string, string>

  /** `row.get(col, default)` */
  function Cell(row: Row, col: string, default: string): string {
    if col in row then row[col] else default
  }

  /** What `csv.DictReader` reads from a decoded text: the header (empty when there
      is none) and the rows. */
  datatype Sheet = Sheet(fieldnames: seq<string>, rows: seq<Row>)

  /** An HTTP response: status code, `content-type` header (empty when absent) and
      body text. */
  datatype Response = Response(status: int, contentType: string, text: string)

  /** The encodings the readers try, in order. */
  const Encodings: seq<string> := ["utf-8", "latin-1", "cp1252", "iso-8859-1"]

  /** Some field of `fields` is a column. */
  function AnyIn(fields: seq<string>, columns: seq<string>): (b: bool)
    ensures b <==> exists f | f in fields :: f in columns
  {
    if fields == [] then false else fields[0] in columns || AnyIn(fields[1..], columns)
  }

  /** The stock columns the splitter and the verifier consult, in order. */
  const StockFields: seq<string> := ["Variant Inventory Qty", "Inventory Qty", "Stock", "Quantity", "Available"]

  /** A column whose presence marks a file already in Shopify's layout. */
  const NativeFields: seq<string> := ["Handle", "Title", "Variant Price", "Variant Inventory Qty"]

  /** A column whose presence marks a vendor file that can be converted. */
  const AlternativeFields: seq<string> := ["Codigo", "Nombre", "Precio", "Stock", "Descripcion", "SKU"]

  datatype Format = Native | Convertible | Unrecognized

  /** The schema of a header: any native column wins over any alternative one. */
  function Classify(columns: seq<string>): (f: Format)
    ensures f == Native <==> exists c | c in NativeFields :: c in columns
    ensures f == Convertible <==>
      (forall c | c in NativeFields :: c !in columns) && exists c | c in AlternativeFields :: c in columns
  {
    if AnyIn(NativeFields, columns) then Native
    else if AnyIn(AlternativeFields, columns) then Convertible
    else Unrecognized
  }

  /** The delimiter guessed from a sample: ';' when it outnumbers ',', else a tab when
      tabs outnumber ',', else ','. */
  function Delimiter(sample: string): (d: char)
    ensures d == ',' || d == ';' || d == '\t'
    ensures Count(sample, d) >= Count(sample, ',')
    ensures d != ',' ==> Count(sample, d) > Count(sample, ',')
    ensures Count(sample, ';') > Count(sample, ',') ==> d == ';'
    ensures d == '\t' ==> Count(sample, ';') <= Count(sample, ',')
    ensures Count(sample, ';') <= Count(sample, ',') && Count(sample, '\t') > Count(sample, ',') ==> d == '\t'
  {
    if Count(sample, ';') > Count(sample, ',') then ';'
    else if Count(sample, '\t') > Count(sample, ',') then '\t'
    else ','
  }

  /** A sample with no ';' and no tab is read as comma-separated. */
  lemma {:induction false} CountAbsent(s: string, c: char)
    requires c !in s
    ensures Count(s, c) == 0
  {
    if s != [] {
      assert c !in s[1..] by { assert forall x | x in s[1..] :: x in s; }
      CountAbsent(s[1..], c);
    }
  }

  lemma DelimiterDefault(sample: string)
    requires ';' !in sample && '\t' !in sample
    ensures Delimiter(sample) == ','
  {
    CountAbsent(sample, ';');
    CountAbsent(sample, '\t');
  }

  /** `_es_contenido_csv`, first test: an HTML tag anywhere, in any case. */
  predicate HasHtmlTag(c: string) {
    var l := Lower(c);
    Contains(l, "<html") || Contains(l, "<body") || Contains(l, "<!doctype")
  }

  /** `_es_contenido_csv`, second test on one line: non-blank, with a comma and one of
      the importer's header names. */
  predicate HeaderLine(line: string) {
    Strip(line) != "" && ',' in line
    && (Contains(line, "Handle") || Contains(line, "Title") || Contains(line, "SKU"))
  }

  /** One of the lines with an index below `n` is a header line. */
  predicate HeaderAmong(lines: seq<string>, n: nat) {
    exists i | 0 <= i < n && i < |lines| :: HeaderLine(lines[i])
  }

  function AnyHeaderLine(lines: seq<string>): (b: bool)
    ensures b <==> HeaderAmong(lines, |lines|)
  {
    if lines == [] then false
    else
      assert forall i | 1 <= i < |lines| :: lines[i] == lines[1..][i - 1];
      HeaderLine(lines[0]) || AnyHeaderLine(lines[1..])
  }

  /** `SyscomShopifyImporter._es_contenido_csv`: never for text with an HTML tag;
      otherwise exactly when one of the first ten '\n'-pieces is a header line. */
  function LooksLikeCsv(c: string): (b: bool)
    ensures HasHtmlTag(c) ==> !b
    ensures !HasHtmlTag(c) ==> (b <==> HeaderAmong(Split(c, "\n"), 10))
  {
    var first := SliceTo(Split(c, "\n"), 10);
    FirstHeaderLine(Split(c, "\n"), first);
    !HasHtmlTag(c) && AnyHeaderLine(first)
  }

  /** The first ten lines hold a header line exactly when one of the lines with an
      index below ten is one. */
  lemma FirstHeaderLine(lines: seq<string>, first: seq<string>)
    requires first == SliceTo(lines, 10)
    ensures AnyHeaderLine(first) <==> HeaderAmong(lines, 10)
  {
    if AnyHeaderLine(first) {
      var i :| 0 <= i < |first| && HeaderLine(first[i]);
      assert first[i] == lines[i];
    }
    if HeaderAmong(lines, 10) {
      var i :| 0 <= i < 10 && i < |lines| && HeaderLine(lines[i]);
      assert first[i] == lines[i];
    }
  }

  /** The leading-marker test on stripped text, used on the splitter's fallback
      files and samples. */
  predicate StartsHtml(t: string) {
    StartsWith(Strip(t), "<!DOCTYPE html>") || StartsWith(Strip(t), "<html")
  }

  /** `CSVSplitterShopify.descargar_csv`: a 200 response is an HTML error page
      (`contentType` already lower-cased). */
  predicate HtmlResponse(text: string, contentType: string) {
    var t := Strip(text);
    StartsHtml(text) || Contains(SliceTo(t, 100), "<html") || Contains(contentType, "text/html")
  }

  /** `CSVSplitterShopify.descargar_csv`: a 200 response that is not HTML is a CSV. */
  predicate CsvResponse(text: string, contentType: string) {
    var t := Strip(text);
    Contains(contentType, "csv") || (Count(t, ',') > Count(t, ';') && '\n' in t && !StartsWith(t, "<"))
  }

  /** `CSVSplitterShopify.parsear_csv`: the 2048-character sample looks like HTML. */
  predicate HtmlSample(sample: string) {
    StartsHtml(sample) || Contains(SliceTo(sample, 200), "<html")
  }

  /** Reading a file over the encodings `encs` in order, encoding `e` giving
      `attempt(e)`: the rows of the first encoding that gives any, and no rows when
      none does. */
  function Parse(encs: seq<string>, attempt: string -> Option<seq<Row>>): seq<Row>
  {
    if encs == [] then []
    else match attempt(encs[0])
      case None => Parse(encs[1..], attempt)
      case Some(rows) => rows
  }

  /** Parsing keeps the reading of the first encoding that gives one, and gives no
      rows when none does. */
  lemma {:induction false} ParseFirst(encs: seq<string>, attempt: string -> Option<seq<Row>>)
    ensures (forall i | 0 <= i < |encs| :: attempt(encs[i]).None?) ==> Parse(encs, attempt) == []
    ensures forall i | 0 <= i < |encs| && attempt(encs[i]).Some? && (forall j | 0 <= j < i :: attempt(encs[j]).None?) ::
      Parse(encs, attempt) == attempt(encs[i]).value
  {
    if encs != [] {
      ParseFirst(encs[1..], attempt);
      assert forall i | 1 <= i < |encs| :: encs[i] == encs[1..][i - 1];
    }
  }

  /** The read loop: try the encodings in order and keep the first reading. */
  method ParseLoop(encs: seq<string>, attempt: string -> Option<seq<Row>>) returns (rows: seq<Row>)
    ensures rows == Parse(encs, attempt)
  {
    var i := 0;
    while i < |encs|
      invariant 0 <= i <= |encs|
      invariant Parse(encs, attempt) == Parse(encs[i..], attempt)
    {
      assert encs[i..][1..] == encs[i + 1..];
      match attempt(encs[i]) {
        case Some(r) => return r;
        case None =>
      }
      i := i + 1;
    }
    return [];
  }

  /** Whenever the parse gives rows, some encoding gave exactly those rows and
      every encoding before it gave nothing. */
  lemma {:induction false} ParseFrom(encs: seq<string>, attempt: string -> Option<seq<Row>>)
    requires Parse(encs, attempt) != []
    ensures exists i | 0 <= i < |encs| ::
              attempt(encs[i]) == Some(Parse(encs, attempt)) && forall j | 0 <= j < i :: attempt(encs[j]).None?
  {
    if attempt(encs[0]).None? {
      ParseFrom(encs[1..], attempt);
      var i :| 0 <= i < |encs[1..]| && attempt(encs[1..][i]) == Some(Parse(encs, attempt))
        && forall j | 0 <= j < i :: attempt(encs[1..][j]).None?;
      assert encs[i + 1] == encs[1..][i];
      assert forall j | 1 <= j < i + 1 :: encs[j] == encs[1..][j - 1];
    }
  }

  /** The first file of `files` that `ok` accepts. */
  function FirstFile(files: seq<string>, ok: string -> bool): Option<string>
  {
    if files == [] then None
    else if ok(files[0]) then Some(files[0])
    else FirstFile(files[1..], ok)
  }

  /** The fallback gives the first accepted file in list order, and nothing exactly
      when no file is accepted. */
  lemma {:induction false} FirstFileSpec(files: seq<string>, ok: string -> bool)
    ensures FirstFile(files, ok).None? <==> forall i | 0 <= i < |files| :: !ok(files[i])
    ensures FirstFile(files, ok).Some? ==>
      exists i | 0 <= i < |files| :: files[i] == FirstFile(files, ok).value
        && ok(files[i]) && forall j | 0 <= j < i :: !ok(files[j])
  {
    if files != [] {
      FirstFileSpec(files[1..], ok);
      assert forall i | 1 <= i < |files| :: files[i] == files[1..][i - 1];
      if !ok(files[0]) && FirstFile(files, ok).Some? {
        var i :| 0 <= i < |files[1..]| && files[1..][i] == FirstFile(files, ok).value
          && ok(files[1..][i]) && forall j | 0 <= j < i :: !ok(files[1..][j]);
        assert files[i + 1] == files[1..][i];
      }
    }
  }

  /** The fallback loop: return the first accepted file. */
  method FindFirstFile(files: seq<string>, ok: string -> bool) returns (r: Option<string>)
    ensures r == FirstFile(files, ok)
  {
    var i := 0;
    while i < |files|
      invariant 0 <= i <= |files|
      invariant FirstFile(files, ok) == FirstFile(files[i..], ok)
    {
      assert files[i..][1..] == files[i + 1..];
      if ok(files[i]) {
        return Some(files[i]);
      }
      i := i + 1;
    }
    return None;
  }
}
