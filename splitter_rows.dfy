/** How the offline splitter turns vendor rows into Shopify rows
    (`convertir_a_formato_shopify`) and tidies each row before writing it
    (`limpiar_producto_para_shopify`). */
module SplitterRows {
  import opened Strings
  import opened Csv
  import Dicts
  import Encoding
  import Handles
  import Decimal

  /** The vendor columns and the Shopify column each one fills, in the order the
      mapping lists them (no vendor column is listed twice): the SKU columns, the
      title columns, then the rest. */
  const ConvertMap: seq<(string, string)> := SkuPairs + TitlePairs + OtherPairs

  const SkuPairs: seq<(string, string)> := [("Codigo", "Variant SKU"), ("SKU", "Variant SKU")]

  const TitlePairs: seq<(string, string)> := [("Nombre", "Title"), ("Titulo", "Title"), ("Title", "Title")]

  const OtherPairs: seq<(string, string)> := [
    ("Descripcion", "Body (HTML)"), ("Description", "Body (HTML)"),
    ("Precio", "Variant Price"), ("Price", "Variant Price"), ("Stock", "Variant Inventory Qty"),
    ("Inventory", "Variant Inventory Qty"), ("Cantidad", "Variant Inventory Qty"),
    ("Marca", "Vendor"), ("Brand", "Vendor"), ("Categoria", "Product Category"),
    ("Category", "Product Category"), ("Imagen", "Image Src"), ("Image", "Image Src"),
    ("URL_Imagen", "Image Src")]

  /** The columns a converted row without a mapped title takes its title from. */
  const TitleSources: seq<string> := ["Nombre", "Titulo", "Descripcion", "Description"]

  /** The flags Shopify requires, each set only on a row that lacks it. */
  const Defaults: seq<(string, string)> := [
    ("Variant Inventory Tracker", "shopify"), ("Variant Inventory Policy", "deny"),
    ("Variant Fulfillment Service", "manual"), ("Variant Requires Shipping", "TRUE"),
    ("Variant Taxable", "TRUE"), ("Status", "active")]

  /** The Shopify columns a cleaned row may keep, in order; each maps to itself. */
  const CleanNames: seq<string> := ProductNames + VariantNames + ExtraNames + ["Status"]

  const ProductNames: seq<string> := [
    "Handle", "Title", "Body (HTML)", "Vendor", "Product Category", "Type", "Tags", "Option1 Name",
    "Option1 Value", "Variant SKU", "Variant Grams"]

  const VariantNames: seq<string> := [
    "Variant Inventory Tracker", "Variant Inventory Qty", "Variant Inventory Policy",
    "Variant Fulfillment Service", "Variant Price", "Variant Compare At Price",
    "Variant Requires Shipping", "Variant Taxable", "Variant Barcode"]

  const ExtraNames: seq<string> := [
    "Image Src", "Image Position", "Image Alt Text", "Gift Card", "SEO Title",
    "SEO Description", "Google Shopping / Google Product Category", "Google Shopping / Gender",
    "Google Shopping / Age Group", "Google Shopping / MPN", "Google Shopping / AdWords Grouping",
    "Google Shopping / AdWords Labels", "Google Shopping / Condition",
    "Google Shopping / Custom Product", "Google Shopping / Custom Label 0",
    "Google Shopping / Custom Label 1", "Google Shopping / Custom Label 2",
    "Google Shopping / Custom Label 3", "Google Shopping / Custom Label 4", "Variant Image",
    "Variant Weight Unit", "Variant Tax Code", "Cost per item"]

  /** A vendor cell that is copied: present, non-empty, and not blank once stripped. */
  predicate Copyable(raw: Row, src: string) {
    src in raw && raw[src] != "" && Strip(raw[src]) != ""
  }

  /** One step of the mapping loop. */
  function CopyPair(raw: Row, p: (string, string), m: Row): Row {
    if Copyable(raw, p.0) then m[p.1 := Strip(raw[p.0])] else m
  }

  /** The mapping loop over `pairs`, starting from the row `acc`. */
  function MapInto(raw: Row, pairs: seq<(string, string)>, acc: Row): Row
  {
    if pairs == [] then acc
    else CopyPair(raw, pairs[|pairs| - 1], MapInto(raw, pairs[..|pairs| - 1], acc))
  }

  lemma MapIntoSnoc(raw: Row, p: seq<(string, string)>, x: (string, string), acc: Row)
    ensures MapInto(raw, p + [x], acc) == CopyPair(raw, x, MapInto(raw, p, acc))
  {
    assert (p + [x])[..|p|] == p;
  }

  /** Which Shopify columns each group of the mapping fills. */
  lemma PairTargets()
    ensures forall x | x in OtherPairs :: x.1 != "Title" && x.1 != "Variant SKU"
    ensures forall x | x in TitlePairs :: x.1 != "Variant SKU"
    ensures forall x | x in SkuPairs :: x.1 != "Title"
  {
    OtherTargets();
  }

  lemma OtherTargets()
    ensures forall x | x in OtherPairs :: x.1 != "Title" && x.1 != "Variant SKU"
  {
    forall i | 0 <= i < |OtherPairs| ensures OtherPairs[i].1 != "Title" && OtherPairs[i].1 != "Variant SKU" {
      assert OtherPairs[i].1 in OtherTargetNames;
    }
  }

  /** The Shopify columns the rest of the mapping fills. */
  const OtherTargetNames: set<string> :=
    {"Body (HTML)", "Variant Price", "Variant Inventory Qty", "Vendor", "Product Category", "Image Src"}

  /** Mapping over `p + q` is mapping over `p`, then over `q`. */
  lemma {:induction false} MapIntoAppend(raw: Row, p: seq<(string, string)>, q: seq<(string, string)>, acc: Row)
    ensures MapInto(raw, p + q, acc) == MapInto(raw, q, MapInto(raw, p, acc))
    decreases |q|
  {
    if q == [] {
      assert p + q == p;
    } else {
      assert (p + q)[..|p + q| - 1] == p + q[..|q| - 1];
      MapIntoAppend(raw, p, q[..|q| - 1], acc);
    }
  }

  /** Pairs that fill other columns leave column `dst` alone. */
  lemma {:induction false} MapIntoElsewhere(raw: Row, q: seq<(string, string)>, acc: Row, dst: string)
    requires forall x | x in q :: x.1 != dst
    ensures dst in MapInto(raw, q, acc) <==> dst in acc
    ensures dst in acc ==> MapInto(raw, q, acc)[dst] == acc[dst]
    decreases |q|
  {
    if q != [] {
      assert q[|q| - 1] in q;
      assert forall x | x in q[..|q| - 1] :: x in q;
      MapIntoElsewhere(raw, q[..|q| - 1], acc, dst);
    }
  }

  /** The pair `p` fills column `dst` of a row converted from `raw`. */
  predicate Fills(raw: Row, p: (string, string), dst: string) {
    p.1 == dst && Copyable(raw, p.0)
  }

  /** A Shopify column is filled exactly when some pair for it has a copyable
      vendor cell. */
  lemma {:induction false} MapColumnsIn(raw: Row, pairs: seq<(string, string)>, dst: string)
    ensures dst in MapInto(raw, pairs, map[]) <==> exists i | 0 <= i < |pairs| :: Fills(raw, pairs[i], dst)
    decreases |pairs|
  {
    if pairs != [] {
      var init := pairs[..|pairs| - 1];
      MapColumnsIn(raw, init, dst);
      if !Fills(raw, pairs[|pairs| - 1], dst) {
        if exists i | 0 <= i < |pairs| :: Fills(raw, pairs[i], dst) {
          var i :| 0 <= i < |pairs| && Fills(raw, pairs[i], dst);
          assert init[i] == pairs[i];
        }
        if exists i | 0 <= i < |init| :: Fills(raw, init[i], dst) {
          var i :| 0 <= i < |init| && Fills(raw, init[i], dst);
          assert init[i] == pairs[i];
        }
      }
    }
  }

  /** A filled column holds the stripped cell of the last pair that fills it. */
  lemma {:induction false} MapColumnsLast(raw: Row, pairs: seq<(string, string)>, dst: string, i: nat)
    requires i < |pairs| && Fills(raw, pairs[i], dst)
    requires forall j | i < j < |pairs| :: !Fills(raw, pairs[j], dst)
    ensures dst in MapInto(raw, pairs, map[]) && MapInto(raw, pairs, map[])[dst] == Strip(raw[pairs[i].0])
    decreases |pairs|
  {
    var init := pairs[..|pairs| - 1];
    if i < |pairs| - 1 {
      assert init[i] == pairs[i];
      forall j | i < j < |init| ensures !Fills(raw, init[j], dst) {
        assert init[j] == pairs[j];
      }
      MapColumnsLast(raw, init, dst, i);
    }
  }

  /** A filled column is never "". */
  lemma {:induction false} MapColumnsNonEmpty(raw: Row, pairs: seq<(string, string)>, dst: string)
    ensures dst in MapInto(raw, pairs, map[]) ==> MapInto(raw, pairs, map[])[dst] != ""
    decreases |pairs|
  {
    if pairs != [] {
      MapColumnsNonEmpty(raw, pairs[..|pairs| - 1], dst);
    }
  }

  /** The title a converted row falls back on: the first truthy title source, cut
      to 100 characters and not stripped, else "Producto <i+1>". */
  function FallbackTitle(raw: Row, sources: seq<string>, i: nat): (t: string)
    ensures t != ""
  {
    if sources == [] then "Producto " + Decimal.Text(i + 1)
    else if sources[0] in raw && raw[sources[0]] != "" then SliceTo(raw[sources[0]], 100)
    else FallbackTitle(raw, sources[1..], i)
  }

  function WithTitle(m: Row, raw: Row, i: nat): Row {
    if "Title" in m then m else m["Title" := FallbackTitle(raw, TitleSources, i)]
  }

  /** The row with, for each pair whose key it lacks, that pair added. */
  function AddMissing(row: Row, pairs: seq<(string, string)>): Row
    decreases |pairs|
  {
    if pairs == [] then row
    else AddMissing(if pairs[0].0 in row then row else row[pairs[0].0 := pairs[0].1], pairs[1..])
  }

  /** Adding the missing pairs keeps every existing column, adds exactly the
      missing keys, and gives each one its pair's value. */
  lemma {:induction false} AddMissingSpec(row: Row, pairs: seq<(string, string)>)
    requires Dicts.DistinctKeys(pairs)
    ensures forall k :: k in AddMissing(row, pairs) <==> k in row || k in Dicts.Keys(pairs)
    ensures forall k | k in row :: AddMissing(row, pairs)[k] == row[k]
    ensures forall i | 0 <= i < |pairs| && pairs[i].0 !in row ::
      pairs[i].0 in AddMissing(row, pairs) && AddMissing(row, pairs)[pairs[i].0] == pairs[i].1
    decreases |pairs|
  {
    if pairs != [] {
      var next := if pairs[0].0 in row then row else row[pairs[0].0 := pairs[0].1];
      var rest := pairs[1..];
      assert Dicts.DistinctKeys(rest) by {
        forall i, j | 0 <= i < j < |rest| ensures rest[i].0 != rest[j].0 {
          assert rest[i] == pairs[i + 1] && rest[j] == pairs[j + 1];
        }
      }
      AddMissingSpec(next, rest);
      assert forall k :: k in Dicts.Keys(pairs) <==> k == pairs[0].0 || k in Dicts.Keys(rest) by {
        assert Dicts.Keys(pairs) == [pairs[0].0] + Dicts.Keys(rest);
      }
      forall i | 0 <= i < |pairs| && pairs[i].0 !in row
        ensures AddMissing(row, pairs)[pairs[i].0] == pairs[i].1
      {
        if i > 0 {
          assert pairs[i] == rest[i - 1];
          assert pairs[i].0 != pairs[0].0;
        }
      }
    }
  }

  lemma DefaultsDistinct()
    ensures Dicts.DistinctKeys(Defaults)
    ensures Dicts.Keys(Defaults) == ["Variant Inventory Tracker", "Variant Inventory Policy",
      "Variant Fulfillment Service", "Variant Requires Shipping", "Variant Taxable", "Status"]
  {
  }

  lemma DefaultKeysFacts()
    ensures "Handle" !in Dicts.Keys(Defaults) && "Title" !in Dicts.Keys(Defaults)
    ensures "Status" in Dicts.Keys(Defaults)
    ensures forall i | 0 <= i < |Defaults| :: Defaults[i].0 in Dicts.Keys(Defaults) && Defaults[i].0 != "Handle"
  {
    DefaultsNotNamed("Handle");
    DefaultsNotNamed("Title");
    DefaultsDistinct();
  }

  /** A column of at most six letters other than "Status" is not a default column. */
  lemma DefaultsNotNamed(k: string)
    requires |k| <= 6 && k != "Status"
    ensures k !in Dicts.Keys(Defaults)
    ensures forall i | 0 <= i < |Defaults| :: Defaults[i].0 != k
  {
    DefaultsDistinct();
  }

  /** The six Shopify defaults, each only where the row lacks it. */
  function WithDefaults(row: Row): Row {
    AddMissing(row, Defaults)
  }

  /** After the defaults every default column is present; it keeps its value
      when the row had it and takes the default otherwise; nothing else changes. */
  lemma WithDefaultsSpec(row: Row)
    ensures forall k :: k in WithDefaults(row) <==> k in row || k in Dicts.Keys(Defaults)
    ensures forall k | k in row :: WithDefaults(row)[k] == row[k]
    ensures forall i | 0 <= i < |Defaults| && Defaults[i].0 !in row ::
      Defaults[i].0 in WithDefaults(row) && WithDefaults(row)[Defaults[i].0] == Defaults[i].1
  {
    DefaultsDistinct();
    AddMissingSpec(row, Defaults);
  }

  /** One converted row, the `i`-th of its file. */
  function ConvertRow(raw: Row, i: nat): Row {
    var m := WithTitle(MapInto(raw, ConvertMap, map[]), raw, i);
    WithDefaults(m["Handle" := Handles.Handle(m["Title"], 100)])
  }

  /** `convertir_a_formato_shopify(productos_raw, columnas)` */
  function ConvertRows(rows: seq<Row>): (r: seq<Row>)
    ensures |r| == |rows|
    ensures forall i | 0 <= i < |rows| :: r[i] == ConvertRow(rows[i], i)
  {
    seq(|rows|, i requires 0 <= i < |rows| => ConvertRow(rows[i], i))
  }

  /** A converted row: the mapped columns other than the handle and the title as
      mapped, the mapped title or else the fallback, the handle of that title, and
      every default column. */
  lemma ConvertRowParts(raw: Row, i: nat)
    ensures "Title" in ConvertRow(raw, i)
    ensures ConvertRow(raw, i)["Title"] ==
      if "Title" in MapInto(raw, ConvertMap, map[]) then MapInto(raw, ConvertMap, map[])["Title"]
      else FallbackTitle(raw, TitleSources, i)
    ensures "Handle" in ConvertRow(raw, i)
    ensures ConvertRow(raw, i)["Handle"] == Handles.Handle(ConvertRow(raw, i)["Title"], 100)
    ensures forall k | k in MapInto(raw, ConvertMap, map[]) && k != "Handle" && k != "Title" ::
      k in ConvertRow(raw, i) && ConvertRow(raw, i)[k] == MapInto(raw, ConvertMap, map[])[k]
    ensures forall k | k in Dicts.Keys(Defaults) :: k in ConvertRow(raw, i)
  {
    var mapped := MapInto(raw, ConvertMap, map[]);
    var m := WithTitle(mapped, raw, i);
    var h := m["Handle" := Handles.Handle(m["Title"], 100)];
    KeepsRow(h);
    assert "Title" in h && h["Title"] == m["Title"];
    assert forall k | k in mapped && k != "Handle" && k != "Title" :: k in h && h[k] == mapped[k];
    DefaultsAdded(h);
  }

  /** The defaults keep every column of the row. */
  lemma KeepsRow(row: Row)
    ensures forall k | k in row :: k in WithDefaults(row) && WithDefaults(row)[k] == row[k]
  {
    WithDefaultsSpec(row);
  }

  /** The defaults add every default column. */
  lemma DefaultsAdded(row: Row)
    ensures forall k | k in Dicts.Keys(Defaults) :: k in WithDefaults(row)
  {
    WithDefaultsSpec(row);
  }

  /** Every converted row has a non-empty title, the six defaults and a handle
      derived from its title: only lower-case letters, digits and '-', at most 100
      of them, never starting with '-'. */
  lemma ConvertRowShape(raw: Row, i: nat)
    ensures "Title" in ConvertRow(raw, i) && ConvertRow(raw, i)["Title"] != ""
    ensures forall k | k in Dicts.Keys(Defaults) :: k in ConvertRow(raw, i)
    ensures "Handle" in ConvertRow(raw, i)
    ensures ConvertRow(raw, i)["Handle"] == Handles.Handle(ConvertRow(raw, i)["Title"], 100)
    ensures var h := ConvertRow(raw, i)["Handle"];
      |h| <= 100 && (forall c | c in h :: Handles.HandleChar(c)) && (|h| > 0 ==> h[0] != '-')
  {
    ConvertRowParts(raw, i);
    MapColumnsNonEmpty(raw, ConvertMap, "Title");
    Handles.HandleShape(ConvertRow(raw, i)["Title"], 100);
  }

  /** The title comes from the mapping when it filled one, and otherwise from the
      fallback. */
  lemma ConvertTitle(raw: Row, i: nat)
    ensures "Title" in MapInto(raw, ConvertMap, map[]) ==>
      ConvertRow(raw, i)["Title"] == MapInto(raw, ConvertMap, map[])["Title"]
    ensures "Title" !in MapInto(raw, ConvertMap, map[]) ==>
      ConvertRow(raw, i)["Title"] == FallbackTitle(raw, TitleSources, i)
  {
    ConvertRowParts(raw, i);
  }

  /** The mapping fills the title exactly when "Nombre", "Titulo" or "Title" has a
      non-blank cell, the last of them in that order winning. */
  lemma MappedTitle(raw: Row)
    ensures "Title" in MapInto(raw, ConvertMap, map[]) <==>
      Copyable(raw, "Nombre") || Copyable(raw, "Titulo") || Copyable(raw, "Title")
    ensures Copyable(raw, "Title") ==> MapInto(raw, ConvertMap, map[])["Title"] == Strip(raw["Title"])
    ensures !Copyable(raw, "Title") && Copyable(raw, "Titulo") ==>
      MapInto(raw, ConvertMap, map[])["Title"] == Strip(raw["Titulo"])
    ensures !Copyable(raw, "Title") && !Copyable(raw, "Titulo") && Copyable(raw, "Nombre") ==>
      MapInto(raw, ConvertMap, map[])["Title"] == Strip(raw["Nombre"])
  {
    var m0 := MapInto(raw, SkuPairs, map[]);
    PairTargets();
    MapIntoElsewhere(raw, SkuPairs, map[], "Title");
    var m1 := MapInto(raw, TitlePairs, m0);
    TitleStep(raw, m0);
    MapIntoAppend(raw, SkuPairs, TitlePairs, map[]);
    MapIntoAppend(raw, SkuPairs + TitlePairs, OtherPairs, map[]);
    MapIntoElsewhere(raw, OtherPairs, m1, "Title");
  }

  lemma TitleStep(raw: Row, m0: Row)
    ensures MapInto(raw, TitlePairs, m0) ==
      CopyPair(raw, ("Title", "Title"), CopyPair(raw, ("Titulo", "Title"), CopyPair(raw, ("Nombre", "Title"), m0)))
  {
    MapThree(raw, ("Nombre", "Title"), ("Titulo", "Title"), ("Title", "Title"), m0);
  }

  /** The mapping loop over three pairs. */
  lemma MapThree(raw: Row, a: (string, string), b: (string, string), c: (string, string), m0: Row)
    ensures MapInto(raw, [a, b, c], m0) == CopyPair(raw, c, CopyPair(raw, b, CopyPair(raw, a, m0)))
  {
    MapIntoSnoc(raw, [], a, m0);
    MapIntoSnoc(raw, [a], b, m0);
    MapIntoSnoc(raw, [a, b], c, m0);
    assert [] + [a] == [a] && [a] + [b] == [a, b] && [a, b] + [c] == [a, b, c];
  }

  /** When both "Codigo" and "SKU" are given, the SKU is taken from "SKU", the later
      entry of the mapping. */
  lemma SkuOverCodigo(raw: Row, i: nat)
    requires Copyable(raw, "SKU")
    ensures "Variant SKU" in ConvertRow(raw, i) && ConvertRow(raw, i)["Variant SKU"] == Strip(raw["SKU"])
  {
    SkuMapped(raw);
    ConvertRowParts(raw, i);
    assert "Variant SKU" != "Handle" && "Variant SKU" != "Title";
  }

  /** The mapping fills the SKU from "SKU" when it is non-blank, else from "Codigo"
      when that is, else not at all. */
  lemma SkuMapped(raw: Row)
    ensures "Variant SKU" in MapInto(raw, ConvertMap, map[]) <==> Copyable(raw, "SKU") || Copyable(raw, "Codigo")
    ensures Copyable(raw, "SKU") ==> MapInto(raw, ConvertMap, map[])["Variant SKU"] == Strip(raw["SKU"])
    ensures !Copyable(raw, "SKU") && Copyable(raw, "Codigo") ==>
      MapInto(raw, ConvertMap, map[])["Variant SKU"] == Strip(raw["Codigo"])
  {
    var m0 := MapInto(raw, SkuPairs, map[]);
    SkuStep(raw);
    PairTargets();
    assert forall x | x in TitlePairs + OtherPairs :: x in TitlePairs || x in OtherPairs;
    MapIntoElsewhere(raw, TitlePairs + OtherPairs, m0, "Variant SKU");
    MapIntoAppend(raw, SkuPairs, TitlePairs + OtherPairs, map[]);
    assert ConvertMap == SkuPairs + (TitlePairs + OtherPairs);
  }

  lemma SkuStep(raw: Row)
    ensures MapInto(raw, SkuPairs, map[]) == CopyPair(raw, ("SKU", "Variant SKU"), CopyPair(raw, ("Codigo", "Variant SKU"), map[]))
  {
    MapTwo(raw, ("Codigo", "Variant SKU"), ("SKU", "Variant SKU"), map[]);
  }

  /** The mapping loop over two pairs. */
  lemma MapTwo(raw: Row, a: (string, string), b: (string, string), m0: Row)
    ensures MapInto(raw, [a, b], m0) == CopyPair(raw, b, CopyPair(raw, a, m0))
  {
    MapIntoSnoc(raw, [], a, m0);
    MapIntoSnoc(raw, [a], b, m0);
    assert [] + [a] == [a] && [a] + [b] == [a, b];
  }

  /** A row whose only SKU source is "Codigo" and whose only title source is
      "Nombre" takes its SKU and title from them and its handle from the title. */
  lemma ConvertCodigoNombre(raw: Row, i: nat)
    requires Copyable(raw, "Codigo") && !Copyable(raw, "SKU")
    requires Copyable(raw, "Nombre") && !Copyable(raw, "Titulo") && !Copyable(raw, "Title")
    ensures var r := ConvertRow(raw, i);
      "Variant SKU" in r && "Title" in r && "Handle" in r
      && r["Variant SKU"] == Strip(raw["Codigo"]) && r["Title"] == Strip(raw["Nombre"])
      && r["Handle"] == Handles.Handle(Strip(raw["Nombre"]), 100)
  {
    SkuMapped(raw);
    MappedTitle(raw);
    ConvertRowParts(raw, i);
    assert "Variant SKU" != "Handle" && "Variant SKU" != "Title";
  }

  /** {"Codigo": "X1", "Nombre": "Widget"}, and any row with those two cells and no
      "SKU", "Titulo" or "Title" column, converts to the SKU "X1", the title "Widget"
      and the handle "widget". */
  lemma ConvertExample(raw: Row)
    requires "Codigo" in raw && raw["Codigo"] == "X1" && "Nombre" in raw && raw["Nombre"] == "Widget"
    requires "SKU" !in raw && "Titulo" !in raw && "Title" !in raw
    ensures "Variant SKU" in ConvertRow(raw, 0) && ConvertRow(raw, 0)["Variant SKU"] == "X1"
    ensures "Title" in ConvertRow(raw, 0) && ConvertRow(raw, 0)["Title"] == "Widget"
    ensures "Handle" in ConvertRow(raw, 0) && ConvertRow(raw, 0)["Handle"] == "widget"
  {
    StripTrimmed(raw["Codigo"]);
    StripTrimmed(raw["Nombre"]);
    ConvertCodigoNombre(raw, 0);
    Handles.HandleExample();
  }

  /** The copying loop of `limpiar_producto_para_shopify` over `names`: each truthy
      cell, repaired by the splitter's text fixer. */
  function CopyFixed(row: Row, names: seq<string>, fix: string -> string): Row
  {
    if names == [] then map[]
    else
      var f := names[|names| - 1];
      var m := CopyFixed(row, names[..|names| - 1], fix);
      if f in row && row[f] != "" then m[f := fix(row[f])] else m
  }

  /** A column is copied exactly when it is listed and its cell is truthy, and it
      holds the repaired cell. */
  lemma {:induction false} CopyFixedGet(row: Row, names: seq<string>, fix: string -> string)
    ensures forall f :: f in CopyFixed(row, names, fix) <==> f in names && f in row && row[f] != ""
    ensures forall f | f in CopyFixed(row, names, fix) :: CopyFixed(row, names, fix)[f] == fix(row[f])
    decreases |names|
  {
    if names != [] {
      var init := names[..|names| - 1];
      CopyFixedGet(row, init, fix);
      assert names == init + [names[|names| - 1]];
    }
  }

  function WithHandle255(m: Row): Row {
    if "Handle" !in m && "Title" in m then m["Handle" := Handles.Handle(m["Title"], 255)] else m
  }

  /** `limpiar_producto_para_shopify(producto)` */
  function CleanRow(row: Row): Row {
    CleanWith(row, CleanNames, Encoding.SplitterFix)
  }

  /** The cleanup over an arbitrary list of kept columns. */
  function CleanWith(row: Row, names: seq<string>, fix: string -> string): Row {
    WithDefaults(WithHandle255(CopyFixed(row, names, fix)))
  }

  lemma DefaultsListed()
    ensures forall k | k in Dicts.Keys(Defaults) :: k in CleanNames
    ensures "Handle" in CleanNames && "Title" in CleanNames
  {
    DefaultsDistinct();
    assert ProductNames[0] == "Handle" && ProductNames[1] == "Title";
    assert VariantNames[0] == "Variant Inventory Tracker" && VariantNames[2] == "Variant Inventory Policy";
    assert VariantNames[3] == "Variant Fulfillment Service" && VariantNames[6] == "Variant Requires Shipping";
    assert VariantNames[7] == "Variant Taxable";
    assert CleanNames == ProductNames + VariantNames + ExtraNames + ["Status"];
  }

  /** The cleanup keeps only listed columns, given that the handle, the title and
      the defaults are listed, and always carries the defaults. */
  lemma CleanWithKeys(row: Row, names: seq<string>, fix: string -> string)
    requires forall k | k in Dicts.Keys(Defaults) :: k in names
    requires "Handle" in names && "Title" in names
    ensures forall k | k in CleanWith(row, names, fix) :: k in names
    ensures forall k | k in Dicts.Keys(Defaults) :: k in CleanWith(row, names, fix)
  {
    CopyFixedGet(row, names, fix);
    WithDefaultsSpec(WithHandle255(CopyFixed(row, names, fix)));
  }

  /** A listed column other than the handle and the defaults is kept exactly when
      its cell is truthy, repaired. */
  lemma CleanWithColumns(row: Row, names: seq<string>, fix: string -> string)
    ensures forall f | f in names && f != "Handle" && f !in Dicts.Keys(Defaults) ::
      (f in CleanWith(row, names, fix) <==> f in row && row[f] != "")
      && (f in CleanWith(row, names, fix) ==> CleanWith(row, names, fix)[f] == fix(row[f]))
  {
    CopyFixedGet(row, names, fix);
    WithDefaultsSpec(WithHandle255(CopyFixed(row, names, fix)));
  }

  /** A truthy handle is repaired; a handle is derived from the repaired title,
      at most 255 long, only when there is no truthy handle but a truthy title. */
  lemma CleanWithHandle(row: Row, names: seq<string>, fix: string -> string)
    requires "Handle" in names && "Title" in names
    ensures "Handle" in row && row["Handle"] != "" ==>
      "Handle" in CleanWith(row, names, fix) && CleanWith(row, names, fix)["Handle"] == fix(row["Handle"])
    ensures !("Handle" in row && row["Handle"] != "") && "Title" in row && row["Title"] != "" ==>
      "Handle" in CleanWith(row, names, fix)
      && CleanWith(row, names, fix)["Handle"] == Handles.Handle(fix(row["Title"]), 255)
      && |CleanWith(row, names, fix)["Handle"]| <= 255
    ensures !("Handle" in row && row["Handle"] != "") && !("Title" in row && row["Title"] != "") ==>
      "Handle" !in CleanWith(row, names, fix)
  {
    var c := CopyFixed(row, names, fix);
    CopyFixedGet(row, names, fix);
    WithDefaultsSpec(WithHandle255(c));
    DefaultKeysFacts();
    if "Handle" !in c && "Title" in c {
      Handles.HandleShape(c["Title"], 255);
    }
  }

  /** A default column keeps its repaired cell when that is truthy and takes the
      default otherwise. */
  lemma CleanWithDefaults(row: Row, names: seq<string>, fix: string -> string)
    requires forall k | k in Dicts.Keys(Defaults) :: k in names
    ensures forall i | 0 <= i < |Defaults| ::
      Defaults[i].0 in CleanWith(row, names, fix) && CleanWith(row, names, fix)[Defaults[i].0] ==
        if Defaults[i].0 in row && row[Defaults[i].0] != "" then fix(row[Defaults[i].0])
        else Defaults[i].1
  {
    var c := CopyFixed(row, names, fix);
    CopyFixedGet(row, names, fix);
    DefaultKeysFacts();
    WithDefaultsSpec(WithHandle255(c));
  }

  /** A cleaned row keeps only listed columns and always carries the six defaults.
      A listed column other than the handle and the defaults is present exactly
      when its cell is truthy, and then holds the repaired cell; a truthy handle
      is repaired too; a handle is derived, at most 255 long, only when the row
      has no truthy handle but a title. A default column keeps its repaired value
      when its cell is truthy and takes the default otherwise. */
  lemma CleanRowSpec(row: Row)
    ensures forall k | k in CleanRow(row) :: k in CleanNames
    ensures forall k | k in Dicts.Keys(Defaults) :: k in CleanRow(row)
    ensures forall f | f in CleanNames && f != "Handle" && f !in Dicts.Keys(Defaults) ::
      (f in CleanRow(row) <==> f in row && row[f] != "")
      && (f in CleanRow(row) ==> CleanRow(row)[f] == Encoding.SplitterFix(row[f]))
    ensures "Handle" in row && row["Handle"] != "" ==>
      "Handle" in CleanRow(row) && CleanRow(row)["Handle"] == Encoding.SplitterFix(row["Handle"])
    ensures !("Handle" in row && row["Handle"] != "") && "Title" in row && row["Title"] != "" ==>
      "Handle" in CleanRow(row)
      && CleanRow(row)["Handle"] == Handles.Handle(Encoding.SplitterFix(row["Title"]), 255)
      && |CleanRow(row)["Handle"]| <= 255
    ensures !("Handle" in row && row["Handle"] != "") && !("Title" in row && row["Title"] != "") ==>
      "Handle" !in CleanRow(row)
    ensures forall i | 0 <= i < |Defaults| ::
      Defaults[i].0 in CleanRow(row) && CleanRow(row)[Defaults[i].0] ==
        if Defaults[i].0 in row && row[Defaults[i].0] != "" then Encoding.SplitterFix(row[Defaults[i].0])
        else Defaults[i].1
  {
    DefaultsListed();
    CleanWithKeys(row, CleanNames, Encoding.SplitterFix);
    CleanWithColumns(row, CleanNames, Encoding.SplitterFix);
    CleanWithHandle(row, CleanNames, Encoding.SplitterFix);
    CleanWithDefaults(row, CleanNames, Encoding.SplitterFix);
  }
}
