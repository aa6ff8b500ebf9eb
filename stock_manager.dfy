/** `stock_manager.py`: the stand-alone stock updater. The store is a parameter:
    the variants found for a SKU and the answer to an inventory change. */
module StockManagement {
  import opened Wrappers
  import opened Strings
  import opened Csv
  import Stock
  import Locations

  /** The store as the manager calls it: `Variant.find(sku=...)` gives the
      inventory item ids of the variants found; `InventoryLevel.set` answers an
      inventory change (location, item, quantity) with a truthy or falsy result. */
  datatype Remote = Remote(variants: string -> Call<seq<int>>, setLevel: (Option<int>, int, int) -> Call<bool>)

  /** `update_stock(sku, cantidad)` reports success: a variant was found and the
      inventory change for its item at `location` answered truthily. */
  predicate UpdateSucceeds(remote: Remote, location: Option<int>, sku: string, cantidad: int) {
    remote.variants(sku).Returns? && remote.variants(sku).value != []
    && remote.setLevel(location, remote.variants(sku).value[0], cantidad) == Returns(true)
  }

  /** The `update_stock` call `bulk_update_from_csv` makes for a row, if any: the
      stripped SKU and the truncated quantity, when the SKU is not empty and the
      quantity is positive. A missing quantity reads as "0", a missing SKU as "". */
  function Request(row: Row, parse: string -> Option<real>): Option<(string, int)> {
    var sku := Strip(Cell(row, "Variant SKU", ""));
    match parse(Cell(row, "Variant Inventory Qty", "0"))
    case None => None
    case Some(q) => if Stock.Trunc(q) > 0 && sku != "" then Some((sku, Stock.Trunc(q))) else None
  }

  /** A row leads to an update exactly when its SKU strips to something and its
      quantity parses to at least one; the update carries the quantity truncated
      toward zero, which is then positive. */
  lemma RequestSpec(row: Row, parse: string -> Option<real>)
    ensures Request(row, parse).Some? <==>
      Strip(Cell(row, "Variant SKU", "")) != ""
      && parse(Cell(row, "Variant Inventory Qty", "0")).Some?
      && parse(Cell(row, "Variant Inventory Qty", "0")).value >= 1.0
    ensures Request(row, parse).Some? ==>
      Request(row, parse).value.0 == Strip(Cell(row, "Variant SKU", ""))
      && Request(row, parse).value.1 > 0
      && Request(row, parse).value.1 as real <= parse(Cell(row, "Variant Inventory Qty", "0")).value
  {
    var q := parse(Cell(row, "Variant Inventory Qty", "0"));
    if q.Some? {
      Stock.TruncPositive(q.value);
    }
  }

  /** The updates of `bulk_update_from_csv`, in file order. */
  function Requests(rows: seq<Row>, parse: string -> Option<real>): seq<(string, int)> {
    if rows == [] then []
    else
      var last := rows[|rows| - 1];
      Requests(rows[..|rows| - 1], parse) + match Request(last, parse) case Some(r) => [r] case None => []
  }

  /** The updates for two runs of rows are those of the first run followed by
      those of the second: the file order is kept. */
  lemma {:induction false} RequestsAppend(a: seq<Row>, b: seq<Row>, parse: string -> Option<real>)
    ensures Requests(a + b, parse) == Requests(a, parse) + Requests(b, parse)
    decreases |b|
  {
    if b == [] {
      assert a + b == a;
    } else {
      var init, last := b[..|b| - 1], b[|b| - 1];
      assert (a + b)[..|a + b| - 1] == a + init;
      assert (a + b)[|a + b| - 1] == last;
      RequestsAppend(a, init, parse);
    }
  }

  /** At most one update per row, each for a non-empty SKU and a positive
      quantity. */
  lemma {:induction false} RequestsSpec(rows: seq<Row>, parse: string -> Option<real>)
    ensures |Requests(rows, parse)| <= |rows|
    ensures forall r | r in Requests(rows, parse) :: r.0 != "" && r.1 > 0
  {
    if rows != [] {
      RequestsSpec(rows[..|rows| - 1], parse);
      RequestSpec(rows[|rows| - 1], parse);
    }
  }

  /** `StockManager`: the location inventory changes go to. */
  class StockManager {
    var locationId: Option<int>
    var locationName: Option<string>

    /** `__init__`: with both credentials set, look the main location up among the
        locations the store lists (or fails to list). */
    constructor(shopName: string, accessToken: string, found: Call<seq<Locations.Location>>)
      ensures shopName != "" && accessToken != "" && found.Returns? && found.value != [] ==>
        locationId == Some(Locations.MainLocation(found.value).value.id)
        && locationName == Some(Locations.MainLocation(found.value).value.name)
      ensures !(shopName != "" && accessToken != "" && found.Returns? && found.value != []) ==>
        locationId == None && locationName == None
    {
      locationId := None;
      locationName := None;
      new;
      if shopName != "" && accessToken != "" {
        FindMainLocation(found);
      }
    }

    /** `_find_main_location`: the first location whose upper-cased name contains
        "OTANCAHUI", else the first listed; no location, or a failing listing,
        changes nothing. */
    method FindMainLocation(found: Call<seq<Locations.Location>>)
      modifies this
      ensures found.Returns? && found.value != [] ==>
        locationId == Some(Locations.MainLocation(found.value).value.id)
        && locationName == Some(Locations.MainLocation(found.value).value.name)
      ensures !(found.Returns? && found.value != []) ==>
        locationId == old(locationId) && locationName == old(locationName)
    {
      if found.Returns? {
        Locations.MainLocationChoice(found.value);
        var main := Locations.FindMainLocation(found.value);
        if main.Some? {
          locationId := Some(main.value.id);
          locationName := Some(main.value.name);
        }
      }
    }

    /** `update_stock(sku, cantidad)`: find the variants, change the first one's
        inventory at the manager's location; any exception reports failure. */
    method UpdateStock(sku: string, cantidad: int, remote: Remote) returns (ok: bool)
      ensures ok <==> UpdateSucceeds(remote, locationId, sku, cantidad)
    {
      var variants := remote.variants(sku);
      if variants.Raises? || variants.value == [] {
        return false;
      }
      var result := remote.setLevel(locationId, variants.value[0], cantidad);
      ok := result == Returns(true);
    }

    /** `bulk_update_from_csv`: one `update_stock` call per selected row, in file
        order; the calls made. */
    method BulkUpdate(rows: seq<Row>, parse: string -> Option<real>, remote: Remote)
      returns (calls: seq<(string, int)>)
      ensures calls == Requests(rows, parse)
    {
      calls := [];
      var i := 0;
      while i < |rows|
        invariant 0 <= i <= |rows|
        invariant calls == Requests(rows[..i], parse)
      {
        assert rows[..i + 1][..i] == rows[..i];
        var row := rows[i];
        var sku := Strip(Cell(row, "Variant SKU", ""));
        var stock := parse(Cell(row, "Variant Inventory Qty", "0"));
        if stock.Some? {
          var n := Stock.Trunc(stock.value);
          if n > 0 && sku != "" {
            var _ := UpdateStock(sku, n, remote);
            calls := calls + [(sku, n)];
          }
        }
        i := i + 1;
      }
      assert rows[..i] == rows;
    }
  }
}
