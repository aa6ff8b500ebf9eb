/** The mojibake repair (`fix_encoding_issues`) shared, in three copies, by the
    importer, the offline splitter and the stand-alone fixer. */
module Encoding {
  import opened Strings
  import Dicts

  /** A replacement table: mojibake keys and their repairs, in dict order. */
  type Table = Dicts.Dict<string, string>

  /** The characters the repair deletes: C0 controls other than tab, line feed
      and carriage return, DEL and the C1 controls. */
  predicate IsControl(c: char) {
    c <= '\U{08}' || c == '\U{0B}' || c == '\U{0C}' || ('\U{0E}' <= c <= '\U{1F}')
    || ('\U{7F}' <= c <= '\U{9F}')
  }

  predicate NoControl(s: string) {
    forall x | x in s :: !IsControl(x)
  }

  /** The only whitespace is the plain space, never two in a row. */
  predicate SingleSpaced(s: string) {
    forall i | 0 <= i < |s| :: IsSpace(s[i]) ==> s[i] == ' ' && (i + 1 < |s| ==> !IsSpace(s[i + 1]))
  }

  /** What the cleanup stage leaves: no control character, single spaces only,
      nothing to trim. */
  predicate Clean(s: string) {
    NoControl(s) && SingleSpaced(s) && Trimmed(s)
  }

  /** Each entry, in table order, replaces all its occurrences in the text as the
      earlier entries left it. */
  function ApplyTable(t: Table, s: string): string
    decreases |t|
  {
    if t == [] then s else ApplyTable(t[1..], Replace(s, t[0].0, t[0].1))
  }

  /** Text in which no key occurs passes through the table unchanged. */
  lemma {:induction false} ApplyTableAbsent(t: Table, s: string)
    requires forall i | 0 <= i < |t| :: !Contains(s, t[i].0)
    ensures ApplyTable(t, s) == s
    decreases |t|
  {
    if t != [] {
      ReplaceAbsent(s, t[0].0, t[0].1);
      assert forall i | 0 <= i < |t[1..]| :: t[1..][i] == t[i + 1];
      ApplyTableAbsent(t[1..], s);
    }
  }

  /** `re.sub(r'[\x00-\x08\x0B\x0C\x0E-\x1F\x7F-\x9F]', '', s)` */
  function StripControl(s: string): (r: string)
    ensures NoControl(r)
    ensures forall x | x in r :: x in s
    ensures forall x | x in s && !IsControl(x) :: x in r
    ensures NoControl(s) ==> r == s
  {
    if s == [] then []
    else if IsControl(s[0]) then StripControl(s[1..])
    else [s[0]] + StripControl(s[1..])
  }

  /** `re.sub(r'\s+', ' ', s)` */
  function CollapseSpaces(s: string): (r: string)
    ensures SingleSpaced(r)
    ensures |s| > 0 ==> |r| > 0 && r[0] == (if IsSpace(s[0]) then ' ' else s[0])
    decreases |s|
  {
    if s == [] then []
    else if IsSpace(s[0]) then [' '] + CollapseSpaces(StripLeft(s))
    else [s[0]] + CollapseSpaces(s[1..])
  }

  /** Collapsing keeps every non-space character and brings in only plain spaces. */
  lemma {:induction false} CollapseChars(s: string)
    ensures forall x | x in CollapseSpaces(s) :: x == ' ' || (x in s && !IsSpace(x))
    ensures forall x | x in s && !IsSpace(x) :: x in CollapseSpaces(s)
    decreases |s|
  {
    if s != [] {
      if IsSpace(s[0]) {
        var rest := StripLeft(s);
        CollapseChars(rest);
        assert forall x | x in rest :: x in s;
        forall x | x in s && !IsSpace(x) ensures x in rest {
          var k :| 0 <= k < |s| && s[k] == x;
          assert rest[k - (|s| - |rest|)] == x;
        }
      } else {
        CollapseChars(s[1..]);
        assert s == [s[0]] + s[1..];
      }
    }
  }

  /** Single-spaced text is its own collapse. */
  lemma {:induction false} CollapseIdentity(s: string)
    requires SingleSpaced(s)
    ensures CollapseSpaces(s) == s
    decreases |s|
  {
    if s != [] {
      SingleSpacedTail(s);
      CollapseIdentity(s[1..]);
      if IsSpace(s[0]) {
        assert StripLeft(s) == StripLeft(s[1..]);
        assert StripLeft(s[1..]) == s[1..] by {
          assert |s| > 1 ==> !IsSpace(s[1]);
        }
        assert CollapseSpaces(s) == [' '] + s[1..];
      } else {
        assert CollapseSpaces(s) == [s[0]] + s[1..];
      }
      assert s == [s[0]] + s[1..];
    }
  }

  /** Dropping the first character keeps single spacing. */
  lemma SingleSpacedTail(s: string)
    requires SingleSpaced(s) && s != []
    ensures SingleSpaced(s[1..])
  {
    forall i | 0 <= i < |s[1..]| && IsSpace(s[1..][i])
      ensures s[1..][i] == ' ' && (i + 1 < |s[1..]| ==> !IsSpace(s[1..][i + 1]))
    {
      assert s[1..][i] == s[i + 1];
    }
  }

  /** `s.strip()` keeps the characters it does not trim, and single spacing. */
  lemma StripKeeps(s: string)
    ensures forall x | x in Strip(s) :: x in s
    ensures forall x | x in s && !IsSpace(x) :: x in Strip(s)
    ensures SingleSpaced(s) ==> SingleSpaced(Strip(s))
  {
    var l := StripLeft(s);
    var r := StripRight(l);
    var a := |s| - |l|;
    assert r == s[a..a + |r|];
    forall x | x in s && !IsSpace(x) ensures x in r {
      var k :| 0 <= k < |s| && s[k] == x;
      assert a <= k;
      assert l[k - a] == x;
      assert k - a < |r|;
      assert r[k - a] == x;
    }
    if SingleSpaced(s) {
      forall i | 0 <= i < |r| && IsSpace(r[i])
        ensures r[i] == ' ' && (i + 1 < |r| ==> !IsSpace(r[i + 1]))
      {
        assert r[i] == s[a + i];
        if i + 1 < |r| { assert r[i + 1] == s[a + i + 1]; }
      }
    }
  }

  /** The cleanup stage: delete control characters, collapse whitespace runs to one
      space, trim. */
  function Cleanup(s: string): (r: string)
    ensures Clean(r)
  {
    var c := CollapseSpaces(StripControl(s));
    CollapseChars(StripControl(s));
    StripKeeps(c);
    StripSlice(c);
    Strip(c)
  }

  /** Cleanup deletes only control characters and whitespace, and brings in no
      character but the space. */
  lemma CleanupChars(s: string)
    ensures forall x | x in Cleanup(s) :: x in s || x == ' '
    ensures forall x | x in s && !IsControl(x) && !IsSpace(x) :: x in Cleanup(s)
  {
    var c := CollapseSpaces(StripControl(s));
    CollapseChars(StripControl(s));
    StripKeeps(c);
  }

  /** Clean text is its own cleanup. */
  lemma CleanupIdentity(s: string)
    requires Clean(s)
    ensures Cleanup(s) == s
  {
    CollapseIdentity(s);
    StripTrimmed(s);
  }

  /** The cleanup stage is idempotent. */
  lemma CleanupIdempotent(s: string)
    ensures Cleanup(Cleanup(s)) == Cleanup(s)
  {
    CleanupIdentity(Cleanup(s));
  }

  /** `fix_encoding_issues(texto)` with replacement table `t`. */
  function FixEncoding(t: Table, s: string): (r: string)
    ensures s == "" ==> r == s
    ensures s != "" ==> Clean(r)
  {
    if s == "" then s else Cleanup(ApplyTable(t, s))
  }

  /** On clean text that holds no key of the table the repair changes nothing. */
  lemma FixEncodingIdentity(t: Table, s: string)
    requires Clean(s)
    requires forall i | 0 <= i < |t| :: !Contains(s, t[i].0)
    ensures FixEncoding(t, s) == s
  {
    if s != "" {
      ApplyTableAbsent(t, s);
      CleanupIdentity(s);
    }
  }

  /** The key `'\U{E2}\U{20AC}"'` that the importer's table lists twice. */
  const DashKey: string := "\U{E2}\U{20AC}\""

  /** Mojibake of the lower-case accented letters (csv_to_shopify.py:678-683). */
  const LowerAccents: seq<(string, string)> := [
      ("\U{C3}\U{A1}", "\U{E1}"), ("\U{C3} ", "\U{E0}"), ("\U{C3}\U{A2}", "\U{E2}"), ("\U{C3}\U{A3}", "\U{E3}"),
      ("\U{C3}\U{A4}", "\U{E4}"), ("\U{C3}\U{A9}", "\U{E9}"), ("\U{C3}\U{A8}", "\U{E8}"), ("\U{C3}\U{AA}", "\U{EA}"),
      ("\U{C3}\U{AB}", "\U{EB}"), ("\U{C3}\U{AD}", "\U{ED}"), ("\U{C3}\U{AC}", "\U{EC}"), ("\U{C3}\U{AE}", "\U{EE}"),
      ("\U{C3}\U{AF}", "\U{EF}"), ("\U{C3}\U{B3}", "\U{F3}"), ("\U{C3}\U{B2}", "\U{F2}"), ("\U{C3}\U{B4}", "\U{F4}"),
      ("\U{C3}\U{B5}", "\U{F5}"), ("\U{C3}\U{B6}", "\U{F6}"), ("\U{C3}\U{BA}", "\U{FA}"), ("\U{C3}\U{B9}", "\U{F9}"),
      ("\U{C3}\U{BB}", "\U{FB}"), ("\U{C3}\U{BC}", "\U{FC}"), ("\U{C3}\U{B1}", "\U{F1}"), ("\U{C3}\U{A7}", "\U{E7}")
  ]

  /** Mojibake of the upper-case accented letters (csv_to_shopify.py:686-691). */
  const UpperAccents: seq<(string, string)> := [
      ("\U{C3}\U{81}", "\U{C1}"), ("\U{C3}\U{80}", "\U{C0}"), ("\U{C3}\U{82}", "\U{C2}"), ("\U{C3}\U{83}", "\U{C3}"),
      ("\U{C3}\U{84}", "\U{C4}"), ("\U{C3}\U{89}", "\U{C9}"), ("\U{C3}\U{88}", "\U{C8}"), ("\U{C3}\U{8A}", "\U{CA}"),
      ("\U{C3}\U{8B}", "\U{CB}"), ("\U{C3}\U{8D}", "\U{CD}"), ("\U{C3}\U{8C}", "\U{CC}"), ("\U{C3}\U{8E}", "\U{CE}"),
      ("\U{C3}\U{8F}", "\U{CF}"), ("\U{C3}\U{93}", "\U{D3}"), ("\U{C3}\U{92}", "\U{D2}"), ("\U{C3}\U{94}", "\U{D4}"),
      ("\U{C3}\U{95}", "\U{D5}"), ("\U{C3}\U{96}", "\U{D6}"), ("\U{C3}\U{9A}", "\U{DA}"), ("\U{C3}\U{99}", "\U{D9}"),
      ("\U{C3}\U{9B}", "\U{DB}"), ("\U{C3}\U{9C}", "\U{DC}"), ("\U{C3}\U{91}", "\U{D1}"), ("\U{C3}\U{87}", "\U{C7}")
  ]

  /** Punctuation and symbols, the dash key twice (csv_to_shopify.py:694-696). */
  const Symbols: seq<(string, string)> := [
      ("\U{E2}\U{20AC}\U{2122}", "'"), ("\U{E2}\U{20AC}\U{153}", "\""), ("\U{E2}\U{20AC}\U{9D}", "\""), ("\U{E2}\U{20AC}\"", "\U{2013}"),
      ("\U{E2}\U{20AC}\"", "\U{2014}"), ("\U{E2}\U{20AC}\U{A2}", "\U{2022}"), ("\U{E2}\U{20AC}\U{A6}", "\U{2026}"), ("\U{C2}\U{B0}", "\U{B0}"),
      ("\U{C2}\U{AE}", "\U{AE}"), ("\U{C2}\U{A9}", "\U{A9}"), ("\U{E2}\U{201E}\U{A2}", "\U{2122}"), ("\U{C2}\U{B1}", "\U{B1}"),
      ("\U{C2}\U{B4}", "\U{B4}"), ("\U{C2}\U{A8}", "\U{A8}"), ("\U{C2}\U{B8}", "\U{B8}")
  ]

  /** Broken spaces and ordinals (csv_to_shopify.py:699). */
  const Spaces: seq<(string, string)> := [
      ("\U{C2} ", " "), ("\U{C2}\U{BA}", "\U{BA}"), ("\U{C2}\U{AA}\U{C2}\U{BA}", "\U{BA}")
  ]

  /** Whole-syllable repairs (csv_to_shopify.py:702). */
  const CommonWords: seq<(string, string)> := [
      ("\U{C3}\U{B3}n", "\U{F3}n"), ("\U{C3}\U{B1}o", "\U{F1}o"), ("\U{C3}\U{A9}s", "\U{E9}s"), ("\U{C3}\U{A1}s", "\U{E1}s")
  ]

  /** The importer's table literal as written; the fixer's literal
      (fix_encoding_and_stock.py:62-89) lists the same 70 entries in the same order. */
  const ImporterLiteral: seq<(string, string)> :=
    LowerAccents + UpperAccents + Symbols + Spaces + CommonWords

  /** The splitter's literal (csv_shopify_split/csv_splitter_shopify.py:62-70): the
      lower-case accents and the whole-syllable repairs only. */
  const SplitterLiteral: seq<(string, string)> := LowerAccents + CommonWords

  /** The importer's and the fixer's table, as the dict literal builds it. */
  const ImporterTable: Table := Dicts.FromLiteral(ImporterLiteral)

  const SplitterTable: Table := Dicts.FromLiteral(SplitterLiteral)

  /** `SyscomShopifyImporter.fix_encoding_issues` and, over the same table,
      `EncodingAndStockFixer.fix_encoding_issues`. */
  function ImporterFix(s: string): (r: string)
    ensures s == "" ==> r == s
    ensures s != "" ==> Clean(r)
  {
    FixEncoding(ImporterTable, s)
  }

  /** `CSVSplitterShopify.fix_encoding_issues` */
  function SplitterFix(s: string): (r: string)
    ensures s == "" ==> r == s
    ensures s != "" ==> Clean(r)
  {
    FixEncoding(SplitterTable, s)
  }

  /** The importer literal has 70 entries; entries 51 and 52 share the dash key, so
      the dict keeps it once, at the position of the first, with the value of the
      second (the em dash). */
  lemma ImporterDuplicateKey()
    ensures |ImporterLiteral| == 70
    ensures ImporterLiteral[51] == (DashKey, "\U{2013}") && ImporterLiteral[52] == (DashKey, "\U{2014}")
    ensures ImporterTable ==
      Dicts.FromLiteral(ImporterLiteral[..51] + [(DashKey, "\U{2014}")] + ImporterLiteral[53..])
  {
    var p := LowerAccents + UpperAccents + Symbols[..3];
    var q := Symbols[5..] + Spaces + CommonWords;
    assert Symbols == Symbols[..3] + [(DashKey, "\U{2013}"), (DashKey, "\U{2014}")] + Symbols[5..];
    assert ImporterLiteral == p + [(DashKey, "\U{2013}"), (DashKey, "\U{2014}")] + q;
    assert ImporterLiteral[..51] == p && ImporterLiteral[53..] == q;
    Dicts.LiteralRepeat(p, DashKey, "\U{2013}", "\U{2014}", q);
  }

  /** Entry 27 turns `'\U{C3}\U{83}'` into `'\U{C3}'`, which can complete the key of
      an earlier entry: `'\U{C3}\U{83}\U{A1}'` comes out of entry 27 as the key of
      entry 0, by then already applied. */
  lemma LaterEntryFeedsEarlier()
    ensures ImporterLiteral[0] == ("\U{C3}\U{A1}", "\U{E1}")
    ensures ImporterLiteral[27] == ("\U{C3}\U{83}", "\U{C3}")
    ensures Replace("\U{C3}\U{83}\U{A1}", ImporterLiteral[27].0, ImporterLiteral[27].1) == ImporterLiteral[0].0
  {
    assert ImporterLiteral[0] == LowerAccents[0];
    assert ImporterLiteral[27] == UpperAccents[3];
  }
}
