/** `category_mapping.py`: the table from vendor categories ("A > B > C") to Shopify
    categories, the lookup `convertir_categoria` and the table statistics. The
    contents of the table are not part of this model: every member takes the table
    as a parameter. */
module Categories {
  import opened Wrappers
  import opened Strings
  import Dicts

  /** `CATEGORY_MAPPING`: vendor category to Shopify category, in insertion order. */
  type Table = Dicts.Dict<string, string>

  /** The separator between the levels of a category. */
  const Sep: string := " > "

  /** `categoria.split(' > ')` */
  function Parts(c: string): (ps: seq<string>)
    ensures |ps| >= 1
  {
    Split(c, Sep)
  }

  /** The first level of a category. */
  function Primary(c: string): string {
    Parts(c)[0]
  }

  /** The first two levels of a category of at least two levels, joined again. */
  function Secondary(c: string): string
    requires |Parts(c)| >= 2
  {
    Parts(c)[0] + Sep + Parts(c)[1]
  }

  /** `CATEGORY_MAPPING.update(SPECIFIC_CATEGORY_MAPPING)` */
  function Merge(base: Table, specific: Table): Table {
    Dicts.InsertAll(base, specific)
  }

  /** After the merge every specific category maps to its specific value, every
      other category keeps its value, the old categories keep their order with the
      new ones after them, and no category is listed twice. */
  lemma MergeSpec(base: Table, specific: Table, c: string)
    requires Dicts.DistinctKeys(base) && Dicts.DistinctKeys(specific)
    ensures Dicts.Get(Merge(base, specific), c) ==
      if c in Dicts.Keys(specific) then Dicts.Get(specific, c) else Dicts.Get(base, c)
    ensures Dicts.Keys(Merge(base, specific)) ==
      Dicts.Keys(base) + Dicts.NewKeys(Dicts.Keys(base), Dicts.Keys(specific))
    ensures Dicts.DistinctKeys(Merge(base, specific))
  {
    Dicts.InsertAllGet(base, specific, c);
    Dicts.LastValueDistinct(specific, c);
    Dicts.GetFirst(specific, c);
    Dicts.InsertAllKeys(base, specific);
    Dicts.InsertAllDistinct(base, specific);
  }

  /** Some category's first level begins the category `l`: the test of the outer
      loop of `convertir_categoria`. */
  predicate PrimaryHit(t: Table, l: string) {
    exists i | 0 <= i < |t| :: StartsWith(l, Primary(t[i].0))
  }

  /** The value of the first category, in table order, that starts with `p`. */
  function FirstStarting(t: Table, p: string): Option<string> {
    if t == [] then None
    else if StartsWith(t[0].0, p) then Some(t[0].1)
    else FirstStarting(t[1..], p)
  }

  /** The search finds the value of category `k` when `k` starts with `p` and no
      earlier one does. */
  lemma {:induction false} FirstStartingAt(t: Table, p: string, k: nat)
    requires k < |t| && StartsWith(t[k].0, p)
    requires forall j | 0 <= j < k :: !StartsWith(t[j].0, p)
    ensures FirstStarting(t, p) == Some(t[k].1)
  {
    if k > 0 {
      assert !StartsWith(t[0].0, p);
      assert forall j | 0 <= j < k - 1 :: t[1..][j] == t[j + 1];
      FirstStartingAt(t[1..], p, k - 1);
    }
  }

  /** The search finds nothing when no category starts with `p`. */
  lemma {:induction false} FirstStartingNone(t: Table, p: string)
    requires forall j | 0 <= j < |t| :: !StartsWith(t[j].0, p)
    ensures FirstStarting(t, p) == None
  {
    if t != [] {
      assert forall j | 0 <= j < |t| - 1 :: t[1..][j] == t[j + 1];
      FirstStartingNone(t[1..], p);
    }
  }

  /** What `convertir_categoria` returns once some category's first level begins
      `l`: the first category starting with the first two levels of `l`, else the
      first level of `l` when it is a category, else the original argument. */
  function AfterHit(t: Table, l: string, original: string): string {
    var parts := Parts(l);
    if |parts| >= 2 then
      match FirstStarting(t, parts[0] + Sep + parts[1])
      case Some(v) => v
      case None =>
        match Dicts.Get(t, parts[0])
        case Some(v) => v
        case None => original
    else original
  }

  /** `convertir_categoria(categoria_syscom)` over the table `t`. */
  function Convertir(t: Table, c: string): string {
    if c == "" then c
    else
      var l := Strip(c);
      match Dicts.Get(t, l)
      case Some(v) => v
      case None => if PrimaryHit(t, l) then AfterHit(t, l, c) else c
  }

  /** The empty argument comes back as it is; a stripped argument that is a
      category gives its value; an argument no category's first level begins comes
      back unstripped; otherwise the lookup goes on from the first two levels. */
  lemma ConvertirCases(t: Table, c: string)
    ensures c == "" ==> Convertir(t, c) == c
    ensures c != "" && Strip(c) in Dicts.Keys(t) ==>
      exists i | 0 <= i < |t| :: t[i].0 == Strip(c) && Convertir(t, c) == t[i].1
    ensures c != "" && Strip(c) !in Dicts.Keys(t) && !PrimaryHit(t, Strip(c)) ==> Convertir(t, c) == c
    ensures c != "" && Strip(c) !in Dicts.Keys(t) && PrimaryHit(t, Strip(c)) ==>
      Convertir(t, c) == AfterHit(t, Strip(c), c)
  {
    Dicts.GetFirst(t, Strip(c));
  }

  /** With a single level, a hit that is not a category gives the original back;
      with two or more, a category starting with the first two levels wins, in
      table order, over the first level alone. */
  lemma AfterHitCases(t: Table, l: string, original: string)
    ensures |Parts(l)| == 1 ==> AfterHit(t, l, original) == original
    ensures |Parts(l)| >= 2 && FirstStarting(t, Secondary(l)).Some? ==>
      exists k | 0 <= k < |t| :: StartsWith(t[k].0, Secondary(l)) && AfterHit(t, l, original) == t[k].1
        && forall j | 0 <= j < k :: !StartsWith(t[j].0, Secondary(l))
    ensures |Parts(l)| >= 2 && FirstStarting(t, Secondary(l)).None? ==>
      (Primary(l) in Dicts.Keys(t) <==> Dicts.Get(t, Primary(l)).Some?)
      && AfterHit(t, l, original) == if Dicts.Get(t, Primary(l)).Some? then Dicts.Get(t, Primary(l)).value else original
  {
    if |Parts(l)| >= 2 {
      FirstStartingFound(t, Secondary(l));
      Dicts.GetFirst(t, Primary(l));
    }
  }

  /** A value the search finds belongs to the first category starting with `p`. */
  lemma {:induction false} FirstStartingFound(t: Table, p: string)
    ensures FirstStarting(t, p).Some? ==>
      exists k | 0 <= k < |t| :: StartsWith(t[k].0, p) && FirstStarting(t, p).value == t[k].1
        && forall j | 0 <= j < k :: !StartsWith(t[j].0, p)
  {
    if t != [] && !StartsWith(t[0].0, p) && FirstStarting(t, p).Some? {
      FirstStartingFound(t[1..], p);
      var k :| 0 <= k < |t[1..]| && StartsWith(t[1..][k].0, p) && FirstStarting(t[1..], p).value == t[1..][k].1
        && forall j | 0 <= j < k :: !StartsWith(t[1..][j].0, p);
      assert forall j | 1 <= j < k + 1 :: t[j] == t[1..][j - 1];
      assert StartsWith(t[k + 1].0, p) && FirstStarting(t, p).value == t[k + 1].1;
    } else if t != [] && StartsWith(t[0].0, p) {
      assert StartsWith(t[0].0, p) && FirstStarting(t, p).value == t[0].1;
    }
  }

  /** The result is always a value of the table or the original argument. */
  lemma ConvertirRange(t: Table, c: string)
    ensures Convertir(t, c) == c || exists i | 0 <= i < |t| :: Convertir(t, c) == t[i].1
  {
    var l := Strip(c);
    Dicts.GetFirst(t, l);
    if |Parts(l)| >= 2 {
      FirstStartingFound(t, Secondary(l));
      Dicts.GetFirst(t, Primary(l));
    }
  }

  /** `convertir_categoria` as written: the direct lookup, then the outer loop over
      the table until a first level begins the argument, the inner loop over the
      table for the first two levels, the first level, and `break`. */
  method ConvertirCategoria(t: Table, c: string) returns (r: string)
    ensures r == Convertir(t, c)
  {
    if c == "" {
      return c;
    }
    var l := Strip(c);
    var direct := Dicts.Get(t, l);
    if direct.Some? {
      return direct.value;
    }
    var i := 0;
    while i < |t|
      invariant 0 <= i <= |t|
      invariant forall j | 0 <= j < i :: !StartsWith(l, Primary(t[j].0))
    {
      if StartsWith(l, Primary(t[i].0)) {
        var parts := Parts(l);
        if |parts| >= 2 {
          var p := parts[0] + Sep + parts[1];
          var k := 0;
          while k < |t|
            invariant 0 <= k <= |t|
            invariant forall j | 0 <= j < k :: !StartsWith(t[j].0, p)
          {
            if StartsWith(t[k].0, p) {
              FirstStartingAt(t, p, k);
              return t[k].1;
            }
            k := k + 1;
          }
          FirstStartingNone(t, p);
          var principal := Dicts.Get(t, parts[0]);
          if principal.Some? {
            return principal.value;
          }
        }
        return c;
      }
      i := i + 1;
    }
    return c;
  }

  /** The statistics `obtener_estadisticas_mapeo` reports; the list of first
      levels is kept as the set it is built from, since the set's iteration order
      is unspecified. */
  datatype Estadisticas = Estadisticas(
    totalMapeos: nat, categoriasPrincipales: nat, categoriasSecundarias: nat, categoriasTerciarias: nat,
    mapeosPrincipales: set<string>, ejemploMapeo: Table)

  /** A category of three or more levels. */
  predicate Deep(c: string) {
    |Parts(c)| >= 3
  }

  /** The number of categories of three or more levels. */
  function CountDeep(t: Table): nat {
    if t == [] then 0 else CountDeep(t[..|t| - 1]) + if Deep(t[|t| - 1].0) then 1 else 0
  }

  /** The first levels of the first `n` categories. */
  function Principales(t: Table, n: nat): set<string>
    requires n <= |t|
  {
    set j | 0 <= j < n :: Primary(t[j].0)
  }

  /** The first two levels of those of the first `n` categories that have two. */
  function Secundarias(t: Table, n: nat): set<string>
    requires n <= |t|
  {
    set j | 0 <= j < n && |Parts(t[j].0)| >= 2 :: Secondary(t[j].0)
  }

  /** Those of the first `n` categories with three or more levels. */
  function Terciarias(t: Table, n: nat): set<string>
    requires n <= |t|
  {
    set j | 0 <= j < n && Deep(t[j].0) :: t[j].0
  }

  /** Adding one more category adds at most one first level, one pair of levels
      and, for a deep one, the category itself. */
  lemma SetsStep(t: Table, n: nat)
    requires n < |t|
    ensures Principales(t, n + 1) == Principales(t, n) + {Primary(t[n].0)}
    ensures Secundarias(t, n + 1) ==
      Secundarias(t, n) + if |Parts(t[n].0)| >= 2 then {Secondary(t[n].0)} else {}
    ensures Terciarias(t, n + 1) == Terciarias(t, n) + if Deep(t[n].0) then {t[n].0} else {}
  {
  }

  /** Adding one element grows a set by at most one. */
  lemma AddOne<T>(a: set<T>, x: T)
    ensures |a + {x}| <= |a| + 1
  {
  }

  /** With distinct categories the `n`-th is not among the earlier ones. */
  lemma NotEarlier(t: Table, n: nat)
    requires n < |t| && Dicts.DistinctKeys(t)
    ensures t[n].0 !in Terciarias(t, n)
  {
  }

  /** Each set holds at most one entry per category. */
  lemma {:induction false} SetsBound(t: Table, n: nat)
    requires n <= |t|
    ensures |Principales(t, n)| <= n && |Secundarias(t, n)| <= n && |Terciarias(t, n)| <= n
  {
    if n > 0 {
      var m := n - 1;
      SetsBound(t, m);
      SetsStep(t, m);
      AddOne(Principales(t, m), Primary(t[m].0));
      if |Parts(t[m].0)| >= 2 {
        AddOne(Secundarias(t, m), Secondary(t[m].0));
      }
      if Deep(t[m].0) {
        AddOne(Terciarias(t, m), t[m].0);
      }
    }
  }

  /** A deep category not seen before adds one to the deep ones. */
  lemma TerciariasStep(t: Table, m: nat)
    requires m < |t| && t[m].0 !in Terciarias(t, m)
    ensures |Terciarias(t, m + 1)| == |Terciarias(t, m)| + if Deep(t[m].0) then 1 else 0
  {
    SetsStep(t, m);
  }

  lemma CountDeepStep(t: Table, m: nat)
    requires m < |t|
    ensures CountDeep(t[..m + 1]) == CountDeep(t[..m]) + if Deep(t[m].0) then 1 else 0
  {
    assert t[..m + 1][..m] == t[..m];
  }

  /** With distinct categories the deep ones are counted exactly. */
  lemma {:induction false} TerciariasCount(t: Table, n: nat)
    requires n <= |t| && Dicts.DistinctKeys(t)
    ensures |Terciarias(t, n)| == CountDeep(t[..n])
  {
    if n > 0 {
      var m := n - 1;
      TerciariasCount(t, m);
      NotEarlier(t, m);
      TerciariasStep(t, m);
      CountDeepStep(t, m);
    }
  }

  /** The loop of `obtener_estadisticas_mapeo()`: one pass over the categories
      filling the three sets. */
  method CollectLevels(t: Table) returns (principales: set<string>, secundarias: set<string>, terciarias: set<string>)
    ensures principales == Principales(t, |t|)
    ensures secundarias == Secundarias(t, |t|)
    ensures terciarias == Terciarias(t, |t|)
  {
    principales, secundarias, terciarias := {}, {}, {};
    var i := 0;
    while i < |t|
      invariant 0 <= i <= |t|
      invariant principales == Principales(t, i)
      invariant secundarias == Secundarias(t, i)
      invariant terciarias == Terciarias(t, i)
    {
      var c := t[i].0;
      SetsStep(t, i);
      principales := principales + {Primary(c)};
      if |Parts(c)| >= 2 {
        secundarias := secundarias + {Secondary(c)};
      }
      if Deep(c) {
        terciarias := terciarias + {c};
      }
      i := i + 1;
    }
  }

  /** `obtener_estadisticas_mapeo()` over the table `t`. Each count is at most the
      number of categories, and with distinct categories (as in any dict) the third
      one is the number of categories of three or more levels. */
  method ObtenerEstadisticas(t: Table) returns (e: Estadisticas)
    ensures e.totalMapeos == |t|
    ensures e.mapeosPrincipales == Principales(t, |t|) && e.categoriasPrincipales == |Principales(t, |t|)|
    ensures e.categoriasSecundarias == |Secundarias(t, |t|)|
    ensures e.categoriasTerciarias == |Terciarias(t, |t|)|
    ensures e.categoriasPrincipales <= e.totalMapeos && e.categoriasSecundarias <= e.totalMapeos
    ensures e.categoriasTerciarias <= e.totalMapeos
    ensures Dicts.DistinctKeys(t) ==> e.categoriasTerciarias == CountDeep(t)
    ensures e.ejemploMapeo == SliceTo(t, 5)
  {
    var principales, secundarias, terciarias := CollectLevels(t);
    SetsBound(t, |t|);
    if Dicts.DistinctKeys(t) {
      TerciariasCount(t, |t|);
      assert t[..|t|] == t;
    }
    e := Estadisticas(|t|, |principales|, |secundarias|, |terciarias|, principales, SliceTo(t, 5));
  }
}
