/** `verificar_archivo_csv`: the diagnostic reader that reports what the importer
    would find in a catalogue file. */
module Verifier {
  import opened Strings
  import opened Wrappers
  import opened Csv
  import Chunks

  /** What one verification reports. `Missing` is the early `None` for a file that
      does not exist; `Valid` the diagnostics printed before `True`; `Unreadable` the
      final `False`. */
  datatype Report =
    | Missing
    | Valid(encoding: string, delimiter: char, format: Format, total: nat, withStock: nat)
    | Unreadable

  /** Column `f` of the row is present and parses to a positive number. */
  predicate StockAt(row: Row, f: string, parse: string -> Option<real>) {
    f in row && parse(row[f]).Some? && parse(row[f]).value > 0.0
  }

  /** Some stock column, in any position of the list, shows positive stock: a
      missing, unparsable or non-positive column does not end the search. */
  predicate InStock(row: Row, parse: string -> Option<real>) {
    exists f | f in StockFields :: StockAt(row, f, parse)
  }

  /** How many rows are in stock. */
  function CountInStock(rows: seq<Row>, parse: string -> Option<real>): (n: nat)
    ensures n <= |rows|
  {
    if rows == [] then 0
    else CountInStock(rows[..|rows| - 1], parse) + if InStock(rows[|rows| - 1], parse) then 1 else 0
  }

  /** No row counted means no row in stock; all rows counted means every row in
      stock. */
  lemma {:induction false} CountInStockExtremes(rows: seq<Row>, parse: string -> Option<real>)
    ensures CountInStock(rows, parse) == 0 <==> forall i | 0 <= i < |rows| :: !InStock(rows[i], parse)
    ensures CountInStock(rows, parse) == |rows| <==> forall i | 0 <= i < |rows| :: InStock(rows[i], parse)
  {
    if rows != [] {
      var init := rows[..|rows| - 1];
      CountInStockExtremes(init, parse);
      assert forall i | 0 <= i < |init| :: init[i] == rows[i];
    }
  }

  /** A line break as Python's universal newlines see it. */
  predicate IsBreak(c: char) {
    c == '\n' || c == '\r'
  }

  /** No line break in `s`. */
  predicate BreakFree(s: string) {
    forall j | 0 <= j < |s| :: !IsBreak(s[j])
  }

  /** Where the line that reaches index `i` ends, its terminator included: after
      the first '\n', the first "\r\n" or the first bare '\r' from `i` on, or at
      the end of the text. */
  function LineEnd(c: string, i: nat): (n: nat)
    requires i <= |c|
    ensures i <= n <= |c| && (i < |c| ==> i < n)
    decreases |c| - i
  {
    if i == |c| then i
    else if c[i] == '\n' then i + 1
    else if c[i] == '\r' then (if i + 1 < |c| && c[i + 1] == '\n' then i + 2 else i + 1)
    else LineEnd(c, i + 1)
  }

  /** The lines a text file opened with `newline=''` yields when iterated: each
      ends at a '\n', a "\r\n" or a bare '\r' and keeps that terminator; a last
      line without one is yielded as it is. */
  function FileLines(c: string): (lines: seq<string>)
    decreases |c|
  {
    if c == "" then []
    else
      var n := LineEnd(c, 0);
      [c[..n]] + FileLines(c[n..])
  }

  /** A line without its terminator. */
  function Body(l: string): string {
    if EndsWith(l, "\r\n") then l[..|l| - 2]
    else if |l| > 0 && IsBreak(l[|l| - 1]) then l[..|l| - 1]
    else l
  }

  /** Cutting `c` at `n` gives a well-formed first line: no break before its
      terminator, a terminator unless it runs to the end of the text, and a bare
      '\r' never followed by the '\n' that would have made it "\r\n". */
  predicate CutShaped(c: string, n: nat)
    requires n <= |c|
  {
    && BreakFree(Body(c[..n]))
    && (n < |c| ==> Body(c[..n]) != c[..n])
    && (0 < n < |c| && c[n - 1] == '\r' ==> c[n] != '\n')
  }

  /** A text without breaks is one whole line. */
  lemma CutAtEnd(c: string)
    requires BreakFree(c)
    ensures CutShaped(c, |c|)
  {
    assert c[..|c|] == c;
    if |c| > 0 {
      assert !IsBreak(c[|c| - 1]);
      assert !EndsWith(c, "\r\n");
    }
  }

  /** A "\r\n" after a break-free start ends the line. */
  lemma CutCrLf(c: string, i: nat)
    requires i + 1 < |c| && BreakFree(c[..i]) && c[i] == '\r' && c[i + 1] == '\n'
    ensures CutShaped(c, i + 2)
  {
    var l := c[..i + 2];
    assert l[|l| - 2..] == "\r\n";
    assert Body(l) == c[..i];
  }

  /** A '\n', or a '\r' not followed by '\n', after a break-free start ends the
      line. */
  lemma CutSingle(c: string, i: nat)
    requires i < |c| && BreakFree(c[..i]) && IsBreak(c[i])
    requires !(c[i] == '\r' && i + 1 < |c| && c[i + 1] == '\n')
    ensures CutShaped(c, i + 1)
  {
    var l := c[..i + 1];
    assert l[|l| - 1] == c[i];
    assert !EndsWith(l, "\r\n") by {
      if i > 0 {
        assert l[|l| - 2] == c[..i][i - 1];
      }
    }
    assert Body(l) == c[..i];
  }

  /** The first break after a break-free start ends the line. */
  lemma CutAtBreak(c: string, i: nat)
    requires i < |c| && BreakFree(c[..i]) && IsBreak(c[i])
    ensures CutShaped(c, LineEnd(c, i))
  {
    if c[i] == '\r' && i + 1 < |c| && c[i + 1] == '\n' {
      CutCrLf(c, i);
    } else {
      CutSingle(c, i);
    }
  }

  /** The line that reaches `i`, after a break-free start, is well formed. */
  lemma {:induction false} LineEndShape(c: string, i: nat)
    requires i <= |c| && BreakFree(c[..i])
    ensures CutShaped(c, LineEnd(c, i))
    decreases |c| - i
  {
    if i == |c| {
      assert c[..i] == c;
      CutAtEnd(c);
    } else if IsBreak(c[i]) {
      CutAtBreak(c, i);
    } else {
      assert c[..i + 1] == c[..i] + [c[i]];
      LineEndShape(c, i + 1);
    }
  }

  /** The lines, one after the other, are the text. */
  lemma {:induction false} FileLinesJoin(c: string)
    ensures Chunks.Flatten(FileLines(c)) == c
    decreases |c|
  {
    if c != "" {
      var n := LineEnd(c, 0);
      FileLinesJoin(c[n..]);
      Chunks.FlattenCons(c[..n], FileLines(c[n..]));
      assert c[..n] + c[n..] == c;
    }
  }

  /** Line `l` of a file, followed by the lines `after`: not empty, no break
      before its terminator, a terminator unless it is the last, and a bare '\r'
      never followed by the '\n' that would have made it "\r\n". */
  predicate LineShaped(l: string, after: seq<string>) {
    && l != ""
    && BreakFree(Body(l))
    && (after != [] ==> Body(l) != l)
    && (after != [] && l[|l| - 1] == '\r' && after[0] != "" ==> after[0][0] != '\n')
  }

  /** Every line is shaped as universal newlines cut it. */
  predicate AllShaped(lines: seq<string>) {
    forall k | 0 <= k < |lines| :: LineShaped(lines[k], lines[k + 1..])
  }

  /** A shaped line in front of shaped lines. */
  lemma ShapedCons(l: string, rest: seq<string>)
    requires LineShaped(l, rest)
    requires AllShaped(rest)
    ensures AllShaped([l] + rest)
  {
    var lines := [l] + rest;
    assert lines[0] == l && lines[1..] == rest;
    forall k | 1 <= k < |lines|
      ensures LineShaped(lines[k], lines[k + 1..])
    {
      assert lines[k] == rest[k - 1] && lines[k + 1..] == rest[k..];
    }
  }

  /** The lines of any text are shaped as universal newlines cut them. */
  lemma {:induction false} FileLinesShape(c: string)
    ensures AllShaped(FileLines(c))
    decreases |c|
  {
    if c != "" {
      var n := LineEnd(c, 0);
      var rest := FileLines(c[n..]);
      FileLinesShape(c[n..]);
      assert c[..0] == [];
      LineEndShape(c, 0);
      assert rest == [] <==> n == |c|;
      if rest != [] {
        var m := LineEnd(c[n..], 0);
        assert rest[0] == c[n..][..m] && rest[0][0] == c[n];
      }
      ShapedCons(c[..n], rest);
    }
  }

  /** A character in neither the pieces nor the separator is not in their join. */
  lemma {:induction false} JoinAvoids(parts: seq<string>, sep: string, ch: char)
    requires ch !in sep && forall k | 0 <= k < |parts| :: ch !in parts[k]
    ensures ch !in Join(parts, sep)
    decreases |parts|
  {
    if |parts| > 1 {
      JoinAvoids(parts[1..], sep, ch);
      assert ch !in parts[0];
    }
  }

  /** A one-character line ended by a bare '\r' is cut off on its own. */
  lemma CrLine(x: char, r: string)
    requires !IsBreak(x) && (r == [] || r[0] != '\n')
    ensures FileLines([x, '\r'] + r) == [[x, '\r']] + FileLines(r)
  {
    var c := [x, '\r'] + r;
    assert LineEnd(c, 1) == 2;
    assert LineEnd(c, 0) == 2;
    assert c[..2] == [x, '\r'] && c[2..] == r;
  }

  /** A one-character line ended by a bare '\r' strips to its character. */
  lemma StripCr(x: char)
    requires !IsSpace(x)
    ensures Strip([x, '\r']) == [x]
  {
    assert StripLeft([x, '\r']) == [x, '\r'];
    assert [x, '\r'][..1] == [x];
  }

  /** One-character lines, each ended by a bare '\r'. */
  function CrText(xs: seq<char>): (t: string)
    ensures |t| == 2 * |xs|
  {
    seq(2 * |xs|, i requires 0 <= i < 2 * |xs| => if i % 2 == 0 then xs[i / 2] else '\r')
  }

  /** The text of those lines starts with the first one. */
  lemma CrTextUnfold(xs: seq<char>, tail: string)
    requires xs != []
    ensures CrText(xs) + tail == [xs[0], '\r'] + (CrText(xs[1..]) + tail)
    ensures |xs| == 1 ==> CrText(xs[1..]) + tail == tail
    ensures |xs| > 1 ==> (CrText(xs[1..]) + tail)[0] == xs[1]
  {
    var t := CrText(xs);
    var u := [xs[0], '\r'] + (CrText(xs[1..]) + tail);
    forall i | 0 <= i < |u| ensures (t + tail)[i] == u[i] {
      if 2 <= i < |t| {
        assert u[i] == CrText(xs[1..])[i - 2];
      }
    }
  }

  /** The first of those lines is cut off on its own. */
  lemma CrTextCons(xs: seq<char>, tail: string)
    requires xs != [] && !IsBreak(xs[0])
    requires |xs| > 1 ==> xs[1] != '\n'
    requires |xs| == 1 ==> tail == [] || tail[0] != '\n'
    ensures FileLines(CrText(xs) + tail) == [[xs[0], '\r']] + FileLines(CrText(xs[1..]) + tail)
  {
    CrTextUnfold(xs, tail);
    CrLine(xs[0], CrText(xs[1..]) + tail);
  }

  /** Those lines come out one by one, whatever follows them (short of a '\n'
      that would join the last '\r'). */
  lemma {:induction false} CrTextLines(xs: seq<char>, tail: string)
    requires forall i | 0 <= i < |xs| :: !IsBreak(xs[i])
    requires tail == [] || tail[0] != '\n'
    ensures |FileLines(CrText(xs) + tail)| >= |xs|
    ensures forall i | 0 <= i < |xs| :: FileLines(CrText(xs) + tail)[i] == [xs[i], '\r']
    decreases |xs|
  {
    if xs != [] {
      CrTextLines(xs[1..], tail);
      CrTextCons(xs, tail);
      var lines := FileLines(CrText(xs) + tail);
      var rest := FileLines(CrText(xs[1..]) + tail);
      forall i | 1 <= i < |xs|
        ensures lines[i] == [xs[i], '\r']
      {
        assert lines[i] == rest[i - 1] && xs[1..][i - 1] == xs[i];
      }
    }
  }

  /** A preview with no '<' in any line is not an HTML page. */
  lemma NoAngleNoHtml(preview: seq<string>)
    requires forall k | 0 <= k < |preview| :: '<' !in preview[k]
    ensures !PreviewHtml(preview)
  {
    var j := Join(preview, "\n");
    JoinAvoids(preview, "\n", '<');
    assert !StartsWith(j, "<!DOCTYPE html>") && !StartsWith(j, "<html") by {
      if |j| > 0 {
        assert j[0] != '<';
      }
    }
    ContainsAt(j, "<html");
    forall i ensures !OccursAt(j, "<html", i) {
      if 0 <= i <= |j| - 5 {
        assert j[i] in j && j[i..i + 5][0] == j[i];
      }
    }
  }

  /** A file whose first six lines are one character each, ended by a bare
      '\r': the preview is those six characters, so an HTML tag on a later line
      is not seen. */
  lemma BareCrPreview(xs: seq<char>, tail: string)
    requires |xs| >= 6 && forall i | 0 <= i < |xs| :: !IsSpace(xs[i])
    requires tail == [] || tail[0] != '\n'
    ensures |Preview(CrText(xs) + tail)| == 6
    ensures forall i | 0 <= i < 6 :: Preview(CrText(xs) + tail)[i] == [xs[i]]
    ensures '<' !in xs[..6] ==> !PreviewHtml(Preview(CrText(xs) + tail))
  {
    var text := CrText(xs) + tail;
    CrTextLines(xs, tail);
    var p := Preview(text);
    assert |p| == 6;
    forall i | 0 <= i < 6 ensures p[i] == [xs[i]] {
      assert FileLines(text)[i] == [xs[i], '\r'];
      StripCr(xs[i]);
    }
    if '<' !in xs[..6] {
      forall k | 0 <= k < 6 ensures '<' !in p[k] {
        assert xs[k] in xs[..6];
      }
      NoAngleNoHtml(p);
    }
  }

  /** The file "a\rb\rc\rd\re\rf\rg<html" is such a file. */
  lemma BareCrExample()
    ensures CrText("abcdef") + "g<html" == "a\rb\rc\rd\re\rf\rg<html"
  {
  }

  /** Each line stripped. */
  function StripEach(lines: seq<string>): (r: seq<string>)
    ensures |r| == |lines| && forall k | 0 <= k < |lines| :: r[k] == Strip(lines[k])
  {
    seq(|lines|, k requires 0 <= k < |lines| => Strip(lines[k]))
  }

  /** The stripped first lines the verifier prints: at most six. */
  function Preview(text: string): (p: seq<string>)
    ensures |p| <= 6
    ensures |p| == if |FileLines(text)| < 6 then |FileLines(text)| else 6
    ensures forall i | 0 <= i < |p| :: p[i] == Strip(FileLines(text)[i])
  {
    StripEach(SliceTo(FileLines(text), 6))
  }

  /** The preview, joined by '\n', is an HTML page. */
  predicate PreviewHtml(preview: seq<string>) {
    var j := Join(preview, "\n");
    StartsWith(j, "<!DOCTYPE html>") || StartsWith(j, "<html") || Contains(j, "<html")
  }

  /** What trying one encoding gives: go on to the next encoding, or the report. */
  datatype Attempt = Skip | Accept(report: Report)

  function TryEncoding(e: string, open: string -> Call<string>, read: (string, char) -> Call<Sheet>,
                       parse: string -> Option<real>): Attempt
  {
    match open(e)
    case Raises => Skip
    case Returns(text) =>
      if PreviewHtml(Preview(text)) then Skip
      else
        var d := Delimiter(SliceTo(text, 1024));
        match read(text, d)
        case Raises => Skip
        case Returns(sheet) =>
          if sheet.fieldnames == [] then Skip
          else Accept(Valid(e, d, Classify(sheet.fieldnames), |sheet.rows|, CountInStock(sheet.rows, parse)))
  }

  /** The report of the first encoding in `encs` that is not skipped. */
  function Verification(encs: seq<string>, open: string -> Call<string>, read: (string, char) -> Call<Sheet>,
                        parse: string -> Option<real>): Report
  {
    if encs == [] then Unreadable
    else match TryEncoding(encs[0], open, read, parse)
      case Skip => Verification(encs[1..], open, read, parse)
      case Accept(r) => r
  }

  /** The verifier reports the file unreadable exactly when every encoding is
      skipped, and a valid report never counts more stocked rows than rows, whatever
      format the header has. */
  lemma {:induction false} VerificationOutcome(encs: seq<string>, open: string -> Call<string>,
                                               read: (string, char) -> Call<Sheet>, parse: string -> Option<real>)
    ensures Verification(encs, open, read, parse) == Unreadable <==>
      forall i | 0 <= i < |encs| :: TryEncoding(encs[i], open, read, parse) == Skip
    ensures Verification(encs, open, read, parse) != Missing
    ensures Verification(encs, open, read, parse).Valid? ==>
      Verification(encs, open, read, parse).encoding in encs
      && Verification(encs, open, read, parse).withStock <= Verification(encs, open, read, parse).total
  {
    if encs != [] {
      VerificationOutcome(encs[1..], open, read, parse);
      assert forall i | 1 <= i < |encs| :: encs[i] == encs[1..][i - 1];
      assert forall x | x in encs[1..] :: x in encs;
    }
  }

  /** The preview loop over the lines of the file: append each stripped line,
      stop after the sixth. */
  method ReadPreview(lines: seq<string>) returns (preview: seq<string>)
    ensures preview == StripEach(SliceTo(lines, 6))
  {
    preview := [];
    var i := 0;
    while i < |lines|
      invariant 0 <= i <= |lines| && i < 6
      invariant preview == StripEach(lines[..i])
    {
      preview := preview + [Strip(lines[i])];
      assert preview == StripEach(lines[..i + 1]);
      if i >= 5 {
        break;
      }
      i := i + 1;
    }
  }

  /** The inner search: the stock columns in order until one shows positive stock. */
  method RowInStock(row: Row, parse: string -> Option<real>) returns (found: bool)
    ensures found == InStock(row, parse)
  {
    found := false;
    var j := 0;
    while j < |StockFields|
      invariant 0 <= j <= |StockFields|
      invariant found ==> InStock(row, parse)
      invariant !found ==> forall k | 0 <= k < j :: !StockAt(row, StockFields[k], parse)
    {
      var f := StockFields[j];
      if f in row {
        var v := parse(row[f]);
        if v.Some? && v.value > 0.0 {
          assert StockAt(row, f, parse) && f in StockFields;
          found := true;
          break;
        }
      }
      j := j + 1;
    }
    if !found {
      forall f | f in StockFields ensures !StockAt(row, f, parse) {
        var k :| 0 <= k < |StockFields| && StockFields[k] == f;
      }
    }
  }

  /** The outer count over the rows. */
  method CountStock(rows: seq<Row>, parse: string -> Option<real>) returns (n: nat)
    ensures n == CountInStock(rows, parse)
  {
    n := 0;
    var i := 0;
    while i < |rows|
      invariant 0 <= i <= |rows|
      invariant n == CountInStock(rows[..i], parse)
    {
      var found := RowInStock(rows[i], parse);
      assert rows[..i + 1][..i] == rows[..i];
      if found {
        n := n + 1;
      }
      i := i + 1;
    }
    assert rows[..|rows|] == rows;
  }

  /** `verificar_archivo_csv(archivo_csv)`: `fileExists` stands for
      `os.path.exists`, `open` for reading the file in an encoding, `read` for
      `csv.DictReader` with a delimiter, `parse` for `float()`. */
  method VerificarArchivoCsv(fileExists: bool, open: string -> Call<string>,
                             read: (string, char) -> Call<Sheet>, parse: string -> Option<real>)
    returns (r: Report)
    ensures !fileExists ==> r == Missing
    ensures fileExists ==> r == Verification(Encodings, open, read, parse)
  {
    if !fileExists {
      return Missing;
    }
    var k := 0;
    while k < |Encodings|
      invariant 0 <= k <= |Encodings|
      invariant Verification(Encodings, open, read, parse) == Verification(Encodings[k..], open, read, parse)
    {
      var e := Encodings[k];
      assert Encodings[k..][0] == e && Encodings[k..][1..] == Encodings[k + 1..];
      match open(e) {
        case Raises =>
        case Returns(text) =>
          var preview := ReadPreview(FileLines(text));
          if !PreviewHtml(preview) {
            var d := Delimiter(SliceTo(text, 1024));
            match read(text, d) {
              case Raises =>
              case Returns(sheet) =>
                if sheet.fieldnames != [] {
                  var n := CountStock(sheet.rows, parse);
                  return Valid(e, d, Classify(sheet.fieldnames), |sheet.rows|, n);
                }
            }
          }
      }
      k := k + 1;
    }
    return Unreadable;
  }
}
