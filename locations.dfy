/** The choice of the store location that receives inventory, shared by the importer
    (`verificar_permisos_shopify`) and the stock manager (`_find_main_location`). */
module Locations {
  import opened Strings
  import opened Wrappers

  /** A store location as the store lists it. */
  datatype Location = Location(id: int, name: string)

  /** The warehouse the importer prefers: its upper-cased name contains "OTANCAHUI". */
  predicate IsMain(l: Location) {
    Contains(Upper(l.name), "OTANCAHUI")
  }

  /** The index of the first preferred location, `|locs|` when there is none. */
  function FirstMain(locs: seq<Location>): (i: nat)
    ensures i <= |locs|
    ensures i < |locs| ==> IsMain(locs[i])
    ensures forall j | 0 <= j < i :: !IsMain(locs[j])
  {
    if locs == [] then 0
    else if IsMain(locs[0]) then 0
    else
      var k := FirstMain(locs[1..]);
      assert forall j | 1 <= j < k + 1 :: locs[j] == locs[1..][j - 1];
      k + 1
  }

  /** The chosen location: the first preferred one, else the first listed, else none. */
  function MainLocation(locs: seq<Location>): Option<Location>
  {
    if locs == [] then None
    else if FirstMain(locs) < |locs| then Some(locs[FirstMain(locs)])
    else Some(locs[0])
  }

  /** A location is chosen exactly when some is listed; it is the first preferred
      one when any is preferred, and otherwise the first listed. */
  lemma MainLocationChoice(locs: seq<Location>)
    ensures MainLocation(locs).None? <==> locs == []
    ensures (exists l | l in locs :: IsMain(l)) ==>
      exists i | 0 <= i < |locs| :: MainLocation(locs) == Some(locs[i]) && IsMain(locs[i])
        && forall j | 0 <= j < i :: !IsMain(locs[j])
    ensures locs != [] && (forall l | l in locs :: !IsMain(l)) ==> MainLocation(locs) == Some(locs[0])
  {
    if exists l | l in locs :: IsMain(l) {
      var l :| l in locs && IsMain(l);
      var k :| 0 <= k < |locs| && locs[k] == l;
      assert FirstMain(locs) <= k;
    }
  }

  /** The search loop both callers run: stop at the first preferred location, fall
      back to the first one. */
  method FindMainLocation(locs: seq<Location>) returns (r: Option<Location>)
    ensures r == MainLocation(locs)
  {
    if |locs| == 0 {
      return None;
    }
    var i := 0;
    while i < |locs|
      invariant 0 <= i <= |locs|
      invariant forall j | 0 <= j < i :: !IsMain(locs[j])
    {
      if IsMain(locs[i]) {
        FirstMainIs(locs, i);
        return Some(locs[i]);
      }
      i := i + 1;
    }
    FirstMainIs(locs, |locs|);
    return Some(locs[0]);
  }

  /** The first preferred location is the first index where the search stops. */
  lemma FirstMainIs(locs: seq<Location>, i: nat)
    requires i <= |locs|
    requires forall j | 0 <= j < i :: !IsMain(locs[j])
    requires i < |locs| ==> IsMain(locs[i])
    ensures FirstMain(locs) == i
  {
  }
}
