/** The file side of `fix_csv_encoding` and `run_complete_analysis` in
    `fix_encoding_and_stock.py`: the output name, the encoding order, the write and
    the selection of files. The file system is a parameter: what each file decodes
    to under each encoding, and whether an output file can be written. */
module FixerFiles {
  import opened Wrappers
  import opened Strings
  import opened Fixer

  /** The index of the last `c` in `s`, or -1: `s.rfind(c)`. */
  function RFind(s: string, c: char): (r: int)
    ensures -1 <= r < |s|
    ensures r >= 0 ==> s[r] == c
    ensures forall j | r < j < |s| :: s[j] != c
  {
    if s == [] then -1
    else if s[|s| - 1] == c then |s| - 1
    else RFind(s[..|s| - 1], c)
  }

  /** The last path component has a character other than '.' before index `dot`,
      so the dot starts an extension. */
  predicate NamedBefore(p: string, slash: int, dot: int)
    requires -1 <= slash && dot <= |p|
  {
    exists k | slash < k < dot :: p[k] != '.'
  }

  /** `os.path.splitext(p)[0]`: the path without the extension, where the
      extension starts at the last '.' of the last component unless only dots
      precede it there. */
  function Root(p: string): string {
    var slash, dot := RFind(p, '/'), RFind(p, '.');
    if dot > slash && NamedBefore(p, slash, dot) then p[..dot] else p
  }

  /** The default output name: the input without its extension, plus
      `_fixed.csv`. */
  function OutputName(entrada: string): string {
    Root(entrada) + "_fixed.csv"
  }

  /** An extension: a '.' followed by characters that are neither '.' nor '/'. */
  predicate IsExt(ext: string) {
    |ext| > 0 && ext[0] == '.' && '.' !in ext[1..] && '/' !in ext
  }

  /** A name ending in an extension loses exactly that extension when its last
      component has a character other than '.' before it, and keeps it otherwise. */
  lemma RootExt(r: string, ext: string)
    requires IsExt(ext)
    ensures NamedBefore(r, RFind(r, '/'), |r|) ==> Root(r + ext) == r
    ensures !NamedBefore(r, RFind(r, '/'), |r|) ==> Root(r + ext) == r + ext
  {
    var p := r + ext;
    var slash := RFind(r, '/');
    ExtRFind(r, ext);
    NamedPrefix(r, ext, slash, |r|);
    assert p[..|r|] == r;
  }

  /** Whether the characters between `slash` and `dot` include one other than
      '.' does not depend on what follows `dot`. */
  lemma NamedPrefix(r: string, t: string, slash: int, dot: int)
    requires -1 <= slash && dot <= |r|
    ensures NamedBefore(r + t, slash, dot) <==> NamedBefore(r, slash, dot)
  {
    if NamedBefore(r + t, slash, dot) {
      var k :| slash < k < dot && (r + t)[k] != '.';
      assert r[k] != '.';
    }
    if NamedBefore(r, slash, dot) {
      var k :| slash < k < dot && r[k] != '.';
      assert (r + t)[k] != '.';
    }
  }

  /** In `r + ext` the last '.' is the one that starts `ext` and the last '/' is
      that of `r`. */
  lemma ExtRFind(r: string, ext: string)
    requires IsExt(ext)
    ensures RFind(r + ext, '.') == |r|
    ensures RFind(r + ext, '/') == RFind(r, '/')
  {
    assert r + ext == r + [ext[0]] + ext[1..];
    RFindAt(r, '.', ext[1..]);
    RFindAppend(r, ext, '/');
  }

  /** `.csv` is an extension. */
  lemma CsvIsExt()
    ensures IsExt(".csv")
  {
    assert ".csv"[1..] == "csv";
  }

  /** The last `c` of `r + [c] + t`, when `t` has none, is the one after `r`. */
  lemma RFindAt(r: string, c: char, t: string)
    requires c !in t
    ensures RFind(r + [c] + t, c) == |r|
  {
    RFindAppend(r + [c], t, c);
  }

  /** A file the analysis selects: a CSV file that is not itself a repaired
      copy. */
  predicate Selected(f: string) {
    EndsWith(f, ".csv") && !EndsWith(f, "_fixed.csv")
  }

  /** Whatever precedes it, a name ending in `_fixed.csv` is never selected. */
  lemma FixedSuffix(x: string)
    ensures !Selected(x + "_fixed.csv")
  {
    var o := x + "_fixed.csv";
    assert o[|o| - 10..] == "_fixed.csv";
  }

  /** A repaired copy is never selected again, and for a selected `name.csv` it is
      `name_fixed.csv`. */
  lemma OutputNameSpec(f: string)
    ensures !Selected(OutputName(f))
    ensures Selected(f) && NamedBefore(f, RFind(f, '/'), |f| - 4) ==>
      OutputName(f) == f[..|f| - 4] + "_fixed.csv"
  {
    FixedSuffix(Root(f));
    if Selected(f) && NamedBefore(f, RFind(f, '/'), |f| - 4) {
      CsvRoot(f);
    }
  }

  /** A CSV name whose last component has a character other than '.' before the
      extension loses exactly the extension. */
  lemma CsvRoot(f: string)
    requires EndsWith(f, ".csv") && NamedBefore(f, RFind(f, '/'), |f| - 4)
    ensures Root(f) == f[..|f| - 4]
  {
    var r := f[..|f| - 4];
    assert f == r + ".csv";
    CsvIsExt();
    ExtRFind(r, ".csv");
    NamedPrefix(r, ".csv", RFind(r, '/'), |r|);
    RootExt(r, ".csv");
  }

  /** Appending text without `c` leaves the last `c` where it was. */
  lemma {:induction false} RFindAppend(r: string, t: string, c: char)
    requires c !in t
    ensures RFind(r + t, c) == RFind(r, c)
    decreases |t|
  {
    if t != [] {
      assert (r + t)[..|r + t| - 1] == r + t[..|t| - 1];
      assert t[|t| - 1] in t;
      RFindAppend(r, t[..|t| - 1], c);
    } else {
      assert r + t == r;
    }
  }

  /** What opening the input and reading it under one encoding gives: the text,
      a decoding error, or any other failure (a missing file, say). */
  datatype Read = Decoded(text: string) | DecodeError | Unreadable

  /** The encodings `fix_csv_encoding` tries, in order. */
  const FixerEncodings: seq<string> := ["utf-8", "latin-1", "cp1252", "iso-8859-1", "utf-8-sig"]

  /** The file system as the fixer sees it: what reading a file under an encoding
      gives, and whether a file can be written. */
  datatype Disk = Disk(read: (string, string) -> Read, writable: string -> bool)

  /** The outcome of the encoding loop: the first read that is not a decoding
      error, or a decoding error when every encoding fails. */
  function FirstRead(encs: seq<string>, read: string -> Read): Read {
    if encs == [] then DecodeError
    else if read(encs[0]).DecodeError? then FirstRead(encs[1..], read)
    else read(encs[0])
  }

  /** The loop ends on the first encoding that does not raise a decoding error,
      and only when every one of them does is the outcome a decoding error. */
  lemma {:induction false} FirstReadSpec(encs: seq<string>, read: string -> Read)
    ensures FirstRead(encs, read).DecodeError? <==> forall i | 0 <= i < |encs| :: read(encs[i]).DecodeError?
    ensures !FirstRead(encs, read).DecodeError? ==>
      exists i | 0 <= i < |encs| :: read(encs[i]) == FirstRead(encs, read)
        && forall j | 0 <= j < i :: read(encs[j]).DecodeError?
  {
    if encs != [] {
      FirstReadSpec(encs[1..], read);
      assert forall i | 1 <= i < |encs| :: encs[i] == encs[1..][i - 1];
      if read(encs[0]).DecodeError? && !FirstRead(encs, read).DecodeError? {
        var i :| 0 <= i < |encs[1..]| && read(encs[1..][i]) == FirstRead(encs, read)
          && forall j | 0 <= j < i :: read(encs[1..][j]).DecodeError?;
        assert read(encs[i + 1]) == FirstRead(encs, read);
      } else if !read(encs[0]).DecodeError? {
        assert read(encs[0]) == FirstRead(encs, read);
      }
    }
  }

  /** The name `fix_csv_encoding` writes to: the given one, or the default when
      none is given. */
  function TargetName(entrada: string, salida: string): string {
    if salida == "" then OutputName(entrada) else salida
  }

  /** `fix_csv_encoding(archivo_entrada, archivo_salida)`: the name and the content
      it writes, or `None` when the input cannot be read, is empty, or the output
      cannot be written. */
  function FixCsv(entrada: string, salida: string, disk: Disk): Option<(string, string)> {
    match FirstRead(FixerEncodings, e => disk.read(entrada, e))
    case Decoded(text) =>
      if text == "" || !disk.writable(TargetName(entrada, salida)) then None
      else Some((TargetName(entrada, salida), Join(FixedLines(Split(text, "\n")), "\n")))
    case _ => None
  }

  /** A repaired file exists exactly when some encoding reads a non-empty text,
      every earlier one raising a decoding error, and the output can be written. */
  lemma FixCsvSome(entrada: string, salida: string, disk: Disk)
    ensures FixCsv(entrada, salida, disk).Some? <==>
      disk.writable(TargetName(entrada, salida))
      && exists i | 0 <= i < |FixerEncodings| :: FirstDecoded(entrada, disk, i)
  {
    var read := e => disk.read(entrada, e);
    FirstReadSpec(FixerEncodings, read);
    if FirstRead(FixerEncodings, read).Decoded? && FirstRead(FixerEncodings, read).text != "" {
      var i :| 0 <= i < |FixerEncodings| && read(FixerEncodings[i]) == FirstRead(FixerEncodings, read)
        && forall j | 0 <= j < i :: read(FixerEncodings[j]).DecodeError?;
      assert FirstDecoded(entrada, disk, i);
    }
    if exists i | 0 <= i < |FixerEncodings| :: FirstDecoded(entrada, disk, i) {
      var i :| 0 <= i < |FixerEncodings| && FirstDecoded(entrada, disk, i);
      FirstReadAt(FixerEncodings, read, i);
    }
  }

  /** The file written from encoding `i`'s text has the target name, and read
      back line by line it gives that text's repaired lines. */
  lemma FixCsvContent(entrada: string, salida: string, disk: Disk, i: nat)
    requires i < |FixerEncodings| && FirstDecoded(entrada, disk, i) && FixCsv(entrada, salida, disk).Some?
    ensures FixCsv(entrada, salida, disk).value.0 == TargetName(entrada, salida)
    ensures var lines := FixedLines(Split(disk.read(entrada, FixerEncodings[i]).text, "\n"));
      lines != [] ==> Split(FixCsv(entrada, salida, disk).value.1, "\n") == lines
  {
    FirstReadAt(FixerEncodings, e => disk.read(entrada, e), i);
    var text := disk.read(entrada, FixerEncodings[i]).text;
    if FixedLines(Split(text, "\n")) != [] {
      ReadBack(Split(text, "\n"));
    }
  }

  /** Encoding `i` reads a non-empty text and every earlier one raises a decoding
      error. */
  ghost predicate FirstDecoded(entrada: string, disk: Disk, i: nat)
    requires i < |FixerEncodings|
  {
    disk.read(entrada, FixerEncodings[i]).Decoded? && disk.read(entrada, FixerEncodings[i]).text != ""
    && forall j | 0 <= j < i :: disk.read(entrada, FixerEncodings[j]).DecodeError?
  }

  /** The loop stops on an encoding that reads when all earlier ones raised a
      decoding error. */
  lemma {:induction false} FirstReadAt(encs: seq<string>, read: string -> Read, i: nat)
    requires i < |encs| && !read(encs[i]).DecodeError?
    requires forall j | 0 <= j < i :: read(encs[j]).DecodeError?
    ensures FirstRead(encs, read) == read(encs[i])
  {
    if i > 0 {
      assert read(encs[0]).DecodeError?;
      assert forall j | 0 <= j < i - 1 :: encs[1..][j] == encs[j + 1];
      FirstReadAt(encs[1..], read, i - 1);
    }
  }

  /** `fix_csv_encoding` as written: the encoding loop that breaks on the first
      successful read, the emptiness check, the line loop and the write. */
  method FixCsvEncoding(entrada: string, salida: string, disk: Disk) returns (r: Option<(string, string)>)
    ensures r == FixCsv(entrada, salida, disk)
  {
    var name := if salida == "" then OutputName(entrada) else salida;
    ghost var read := e => disk.read(entrada, e);
    var contenido: Option<string> := None;
    var k := 0;
    while k < |FixerEncodings|
      invariant 0 <= k <= |FixerEncodings|
      invariant FirstRead(FixerEncodings, read) == FirstRead(FixerEncodings[k..], read)
      invariant contenido == None
    {
      var e := FixerEncodings[k];
      assert FixerEncodings[k..][0] == e && FixerEncodings[k..][1..] == FixerEncodings[k + 1..];
      var got := disk.read(entrada, e);
      if got.Unreadable? {
        return None;
      }
      if got.Decoded? {
        contenido := Some(got.text);
        break;
      }
      k := k + 1;
    }
    if contenido == None || contenido.value == "" {
      return None;
    }
    var fixed := ProcessLines(Split(contenido.value, "\n"));
    if !disk.writable(name) {
      return None;
    }
    r := Some((name, Join(fixed, "\n")));
  }

  /** The files the analysis hands to the repair, in listing order. */
  function Selection(files: seq<string>): seq<string> {
    if files == [] then []
    else Selection(files[..|files| - 1]) + if Selected(files[|files| - 1]) then [files[|files| - 1]] else []
  }

  /** The files that the repair writes, one per selected file it succeeds on, in
      listing order. */
  function Written(files: seq<string>, disk: Disk): seq<(string, string)> {
    if files == [] then []
    else
      var last := files[|files| - 1];
      Written(files[..|files| - 1], disk)
        + if Selected(last) && FixCsv(last, "", disk).Some? then [FixCsv(last, "", disk).value] else []
  }

  /** Exactly the selected files are handed to the repair. */
  lemma {:induction false} SelectionSpec(files: seq<string>)
    ensures forall f :: f in Selection(files) <==> f in files && Selected(f)
  {
    if files != [] {
      var init, last := files[..|files| - 1], files[|files| - 1];
      assert files == init + [last];
      SelectionSpec(init);
    }
  }

  /** A repair called without an output name writes the default repaired copy. */
  lemma DefaultName(f: string, disk: Disk)
    requires FixCsv(f, "", disk).Some?
    ensures FixCsv(f, "", disk).value.0 == OutputName(f)
  {
  }

  /** Every file written is the default repaired copy of a selected file, and none
      of those would be selected again. */
  lemma {:induction false} WrittenSpec(files: seq<string>, disk: Disk)
    ensures |Written(files, disk)| <= |Selection(files)|
    ensures forall w | w in Written(files, disk) ::
      !Selected(w.0) && exists f | f in Selection(files) :: w.0 == OutputName(f)
  {
    if files != [] {
      var init, last := files[..|files| - 1], files[|files| - 1];
      assert files == init + [last];
      WrittenSpec(init, disk);
      var sel := Selection(init) + if Selected(last) then [last] else [];
      assert Selection(files) == sel;
      assert forall f | f in Selection(init) :: f in sel;
      if Selected(last) && FixCsv(last, "", disk).Some? {
        DefaultName(last, disk);
        OutputNameSpec(last);
        assert last in sel;
      }
    }
  }

  /** The CSV step of `run_complete_analysis`: every file of the listing that ends
      in `.csv` and is not a repaired copy goes through `fix_csv_encoding`. */
  method CorrectFiles(files: seq<string>, disk: Disk) returns (processed: seq<string>, written: seq<(string, string)>)
    ensures processed == Selection(files)
    ensures written == Written(files, disk)
  {
    processed, written := [], [];
    var i := 0;
    while i < |files|
      invariant 0 <= i <= |files|
      invariant processed == Selection(files[..i])
      invariant written == Written(files[..i], disk)
    {
      var f := files[i];
      assert files[..i + 1][..i] == files[..i];
      if EndsWith(f, ".csv") && !EndsWith(f, "_fixed.csv") {
        processed := processed + [f];
        var r := FixCsvEncoding(f, "", disk);
        if r.Some? {
          written := written + [r.value];
        }
      }
      i := i + 1;
    }
    assert files[..i] == files;
  }
}
