/** `fix_encoding_and_stock.py`: the text repair of the stand-alone fixer and the
    line loop of `fix_csv_encoding`. */
module Fixer {
  import opened Wrappers
  import opened Strings
  import Encoding
  import Dicts

  /** Lower-case accents (fix_encoding_and_stock.py:64-69). */
  const FixerLower: seq<(string, string)> := [
      ("\U{C3}\U{A1}", "\U{E1}"), ("\U{C3} ", "\U{E0}"), ("\U{C3}\U{A2}", "\U{E2}"), ("\U{C3}\U{A3}", "\U{E3}"), ("\U{C3}\U{A4}", "\U{E4}"),
      ("\U{C3}\U{A9}", "\U{E9}"), ("\U{C3}\U{A8}", "\U{E8}"), ("\U{C3}\U{AA}", "\U{EA}"), ("\U{C3}\U{AB}", "\U{EB}"),
      ("\U{C3}\U{AD}", "\U{ED}"), ("\U{C3}\U{AC}", "\U{EC}"), ("\U{C3}\U{AE}", "\U{EE}"), ("\U{C3}\U{AF}", "\U{EF}"),
      ("\U{C3}\U{B3}", "\U{F3}"), ("\U{C3}\U{B2}", "\U{F2}"), ("\U{C3}\U{B4}", "\U{F4}"), ("\U{C3}\U{B5}", "\U{F5}"), ("\U{C3}\U{B6}", "\U{F6}"),
      ("\U{C3}\U{BA}", "\U{FA}"), ("\U{C3}\U{B9}", "\U{F9}"), ("\U{C3}\U{BB}", "\U{FB}"), ("\U{C3}\U{BC}", "\U{FC}"),
      ("\U{C3}\U{B1}", "\U{F1}"), ("\U{C3}\U{A7}", "\U{E7}")
  ]

  /** Upper-case accents (fix_encoding_and_stock.py:72-77). */
  const FixerUpper: seq<(string, string)> := [
      ("\U{C3}\U{81}", "\U{C1}"), ("\U{C3}\U{80}", "\U{C0}"), ("\U{C3}\U{82}", "\U{C2}"), ("\U{C3}\U{83}", "\U{C3}"), ("\U{C3}\U{84}", "\U{C4}"),
      ("\U{C3}\U{89}", "\U{C9}"), ("\U{C3}\U{88}", "\U{C8}"), ("\U{C3}\U{8A}", "\U{CA}"), ("\U{C3}\U{8B}", "\U{CB}"),
      ("\U{C3}\U{8D}", "\U{CD}"), ("\U{C3}\U{8C}", "\U{CC}"), ("\U{C3}\U{8E}", "\U{CE}"), ("\U{C3}\U{8F}", "\U{CF}"),
      ("\U{C3}\U{93}", "\U{D3}"), ("\U{C3}\U{92}", "\U{D2}"), ("\U{C3}\U{94}", "\U{D4}"), ("\U{C3}\U{95}", "\U{D5}"), ("\U{C3}\U{96}", "\U{D6}"),
      ("\U{C3}\U{9A}", "\U{DA}"), ("\U{C3}\U{99}", "\U{D9}"), ("\U{C3}\U{9B}", "\U{DB}"), ("\U{C3}\U{9C}", "\U{DC}"),
      ("\U{C3}\U{91}", "\U{D1}"), ("\U{C3}\U{87}", "\U{C7}")
  ]

  /** Punctuation and symbols (fix_encoding_and_stock.py:80-82). */
  const FixerSymbols: seq<(string, string)> := [
      ("\U{E2}\U{20AC}\U{2122}", "'"), ("\U{E2}\U{20AC}\U{153}", "\""), ("\U{E2}\U{20AC}\U{9D}", "\""), ("\U{E2}\U{20AC}\"", "\U{2013}"), ("\U{E2}\U{20AC}\"", "\U{2014}"),
      ("\U{E2}\U{20AC}\U{A2}", "\U{2022}"), ("\U{E2}\U{20AC}\U{A6}", "\U{2026}"), ("\U{C2}\U{B0}", "\U{B0}"), ("\U{C2}\U{AE}", "\U{AE}"), ("\U{C2}\U{A9}", "\U{A9}"),
      ("\U{E2}\U{201E}\U{A2}", "\U{2122}"), ("\U{C2}\U{B1}", "\U{B1}"), ("\U{C2}\U{B4}", "\U{B4}"), ("\U{C2}\U{A8}", "\U{A8}"), ("\U{C2}\U{B8}", "\U{B8}")
  ]

  /** Broken spaces and ordinals (fix_encoding_and_stock.py:85). */
  const FixerSpaces: seq<(string, string)> := [
      ("\U{C2} ", " "), ("\U{C2}\U{BA}", "\U{BA}"), ("\U{C2}\U{AA}\U{C2}\U{BA}", "\U{BA}")
  ]

  /** Whole-syllable repairs (fix_encoding_and_stock.py:88). */
  const FixerWords: seq<(string, string)> := [
      ("\U{C3}\U{B3}n", "\U{F3}n"), ("\U{C3}\U{B1}o", "\U{F1}o"), ("\U{C3}\U{A9}s", "\U{E9}s"), ("\U{C3}\U{A1}s", "\U{E1}s")
  ]

  /** The table literal of `EncodingAndStockFixer.fix_encoding_issues`. */
  const FixerLiteral: seq<(string, string)> := FixerLower + FixerUpper + FixerSymbols + FixerSpaces + FixerWords

  lemma FixerLowerSame()
    ensures FixerLower == Encoding.LowerAccents
  {
  }

  lemma FixerUpperSame()
    ensures FixerUpper == Encoding.UpperAccents
  {
  }

  lemma FixerSymbolsSame()
    ensures FixerSymbols == Encoding.Symbols
  {
  }

  lemma FixerSpacesSame()
    ensures FixerSpaces == Encoding.Spaces
  {
  }

  lemma FixerWordsSame()
    ensures FixerWords == Encoding.CommonWords
  {
  }

  /** The fixer's literal is the importer's, entry for entry: the two copies of
      the repair agree on every text. */
  lemma FixerTableSame()
    ensures FixerLiteral == Encoding.ImporterLiteral
  {
    FixerLowerSame();
    FixerUpperSame();
    FixerSymbolsSame();
    FixerSpacesSame();
    FixerWordsSame();
  }

  /** The dict the fixer's literal builds. */
  const FixerTable: Encoding.Table := Dicts.FromLiteral(FixerLiteral)

  /** `EncodingAndStockFixer.fix_encoding_issues(texto)` */
  function FixerFix(s: string): string {
    Encoding.FixEncoding(FixerTable, s)
  }

  /** The empty text comes back as it is; any other comes back clean, and the
      result is the importer's repair of the same text. */
  lemma FixerFixSpec(s: string)
    ensures s == "" ==> FixerFix(s) == s
    ensures s != "" ==> Encoding.Clean(FixerFix(s))
    ensures FixerFix(s) == Encoding.ImporterFix(s)
  {
    FixerTableSame();
  }

  /** A line the repair keeps: `linea.strip()` is not empty. */
  predicate NonBlank(line: string) {
    Strip(line) != ""
  }

  /** Each non-blank line through `fix`, in order, the blank ones dropped. */
  function MapKept(fix: string -> string, lines: seq<string>): seq<string> {
    if lines == [] then []
    else
      var init, last := lines[..|lines| - 1], lines[|lines| - 1];
      MapKept(fix, init) + if NonBlank(last) then [fix(last)] else []
  }

  /** Lines that are kept and that `fix` leaves as they are come through
      unchanged. */
  lemma {:induction false} MapKeptKeep(fix: string -> string, lines: seq<string>)
    requires forall i | 0 <= i < |lines| :: NonBlank(lines[i]) && fix(lines[i]) == lines[i]
    ensures MapKept(fix, lines) == lines
  {
    if lines != [] {
      var init, last := lines[..|lines| - 1], lines[|lines| - 1];
      assert lines == init + [last];
      MapKeptKeep(fix, init);
    }
  }

  /** Every output line is `fix` of a non-blank input line, and there are no
      more of them than input lines. */
  lemma {:induction false} MapKeptFrom(fix: string -> string, lines: seq<string>)
    ensures |MapKept(fix, lines)| <= |lines|
    ensures forall x | x in MapKept(fix, lines) :: exists l | l in lines :: NonBlank(l) && x == fix(l)
  {
    if lines != [] {
      var init, last := lines[..|lines| - 1], lines[|lines| - 1];
      MapKeptFrom(fix, init);
      var tail := if NonBlank(last) then [fix(last)] else [];
      assert MapKept(fix, lines) == MapKept(fix, init) + tail;
      forall x | x in MapKept(fix, lines) ensures exists l | l in lines :: NonBlank(l) && x == fix(l) {
        if x in MapKept(fix, init) {
          var l :| l in init && NonBlank(l) && x == fix(l);
          assert l in lines;
        } else {
          assert x in tail;
          assert last in lines;
        }
      }
    }
  }

  /** Every non-blank input line has its output line. */
  lemma {:induction false} MapKeptHas(fix: string -> string, lines: seq<string>)
    ensures forall l | l in lines && NonBlank(l) :: fix(l) in MapKept(fix, lines)
  {
    if lines != [] {
      var init, last := lines[..|lines| - 1], lines[|lines| - 1];
      assert lines == init + [last];
      MapKeptHas(fix, init);
    }
  }

  /** The repaired lines of `fix_csv_encoding`. */
  function FixedLines(lines: seq<string>): seq<string> {
    MapKept(FixerFix, lines)
  }

  /** One repaired line per non-blank line, each clean and so free of line
      breaks; a non-blank line always has a repaired counterpart. */
  lemma FixedLinesSpec(lines: seq<string>)
    ensures |FixedLines(lines)| <= |lines|
    ensures forall x | x in FixedLines(lines) :: Encoding.Clean(x) && '\n' !in x
    ensures forall l | l in lines && NonBlank(l) :: FixerFix(l) in FixedLines(lines)
  {
    MapKeptFrom(FixerFix, lines);
    MapKeptHas(FixerFix, lines);
    forall x | x in FixedLines(lines) ensures Encoding.Clean(x) && '\n' !in x {
      var l :| l in lines && NonBlank(l) && x == FixerFix(l);
      assert l != "";
      FixerFixSpec(l);
      CleanHasNoBreak(x);
    }
  }

  /** A clean text holds no line feed: it is whitespace other than the space. */
  lemma CleanHasNoBreak(s: string)
    requires Encoding.Clean(s)
    ensures '\n' !in s
  {
    if '\n' in s {
      var i :| 0 <= i < |s| && s[i] == '\n';
      assert IsSpace(s[i]);
    }
  }

  /** The written file, read back line by line, gives exactly the repaired lines
      when there is at least one. */
  lemma ReadBack(lines: seq<string>)
    requires FixedLines(lines) != []
    ensures Split(Join(FixedLines(lines), "\n"), "\n") == FixedLines(lines)
  {
    FixedLinesSpec(lines);
    SplitJoin(FixedLines(lines), '\n');
  }

  /** A line the repair leaves as it is: not empty, clean, and free of the
      table's keys. */
  predicate Untouched(l: string) {
    l != "" && Encoding.Clean(l) && forall i | 0 <= i < |FixerLiteral| :: !Contains(l, FixerLiteral[i].0)
  }

  /** Such a line is kept and comes out of the repair unchanged. */
  lemma UntouchedFix(l: string)
    requires Untouched(l)
    ensures NonBlank(l) && FixerFix(l) == l
  {
    StripClean(l);
    FixerKeysAbsent(l);
    Encoding.FixEncodingIdentity(FixerTable, l);
  }

  /** Text whose every line is already clean, not blank and free of the table's
      keys is written back unchanged. */
  lemma FixedLinesIdentity(lines: seq<string>)
    requires forall l | l in lines :: Untouched(l)
    ensures FixedLines(lines) == lines
  {
    forall i | 0 <= i < |lines| ensures NonBlank(lines[i]) && FixerFix(lines[i]) == lines[i] {
      UntouchedFix(lines[i]);
    }
    MapKeptKeep(FixerFix, lines);
  }

  /** A non-empty trimmed text strips to itself and so is not blank. */
  lemma StripClean(s: string)
    requires s != "" && Trimmed(s)
    ensures Strip(s) == s
  {
    StripTrimmed(s);
  }

  /** A text free of every key of the literal is free of every key of the dict it
      builds. */
  lemma FixerKeysAbsent(s: string)
    requires forall i | 0 <= i < |FixerLiteral| :: !Contains(s, FixerLiteral[i].0)
    ensures forall i | 0 <= i < |FixerTable| :: !Contains(s, FixerTable[i].0)
  {
    var d := FixerTable;
    forall i | 0 <= i < |d| ensures !Contains(s, d[i].0) {
      Dicts.Literal(FixerLiteral, d[i].0);
      assert d[i].0 in Dicts.Keys(d);
      Dicts.NewKeysFrom([], Dicts.Keys(FixerLiteral), d[i].0);
      var j :| 0 <= j < |FixerLiteral| && FixerLiteral[j].0 == d[i].0;
    }
  }

  /** `fix_csv_encoding`'s line loop: each line whose strip is not empty is
      repaired and appended. */
  method ProcessLines(lines: seq<string>) returns (fixed: seq<string>)
    ensures fixed == FixedLines(lines)
  {
    fixed := [];
    var i := 0;
    while i < |lines|
      invariant 0 <= i <= |lines|
      invariant fixed == MapKept(FixerFix, lines[..i])
    {
      assert lines[..i + 1][..i] == lines[..i];
      if Strip(lines[i]) != "" {
        fixed := fixed + [FixerFix(lines[i])];
      }
      i := i + 1;
    }
    assert lines[..i] == lines;
  }
}
