/** `simple_checkbox_automator.py`: the click blacklist of the checkbox clicker.
    Screen search, clicks and key presses are parameters: which positions the
    screen search found, and whether a click or the scroll raised. */
module Clicker {
  import opened Wrappers

  /** `position_tolerance`: clicks closer than this share a position. */
  const PositionTolerance := 10
  /** `max_clicks_per_position`: clicks before a position is blacklisted. */
  const MaxClicksPerPosition := 2
  /** Empty cycles in a row before the page is scrolled. */
  const EmptyCyclesBeforeScroll := 3

  /** `round(n / 10)`: to the nearest integer, ties to the even one. */
  function RoundTenths(n: int): int {
    var q, m := n / PositionTolerance, n % PositionTolerance;
    if 2 * m < PositionTolerance then q
    else if 2 * m > PositionTolerance then q + 1
    else if q % 2 == 0 then q else q + 1
  }

  /** `r * 10` is a nearest multiple of ten to `n`; on a tie `r` is even. */
  predicate NearestEven(n: int, r: int) {
    -PositionTolerance <= 2 * (n - PositionTolerance * r) <= PositionTolerance
    && (2 * (n - PositionTolerance * r) == PositionTolerance || 2 * (n - PositionTolerance * r) == -PositionTolerance ==> r % 2 == 0)
  }

  /** The rounding is Python's `round`: the nearest integer, ties to even, and
      the only integer with that property. */
  lemma RoundTenthsSpec(n: int, r: int)
    ensures NearestEven(n, RoundTenths(n))
    ensures NearestEven(n, r) ==> r == RoundTenths(n)
  {
  }

  /** A position bucket: both coordinates rounded to the tolerance. */
  type Key = (int, int)

  /** A coordinate rounded to the nearest multiple of ten. */
  function Snap(n: int): (c: int)
    ensures c % PositionTolerance == 0
    ensures -PositionTolerance <= 2 * (n - c) <= PositionTolerance
  {
    RoundTenthsSpec(n, 0);
    RoundTenths(n) * PositionTolerance
  }

  /** A multiple of ten rounds to itself. */
  lemma SnapFixed(n: int)
    requires n % PositionTolerance == 0
    ensures Snap(n) == n
  {
    RoundTenthsSpec(n, n / PositionTolerance);
  }

  /** `get_position_key(x, y)`. */
  function PositionKey(x: int, y: int): (k: Key)
    ensures Bucketed(k)
    ensures -PositionTolerance <= 2 * (x - k.0) <= PositionTolerance
    ensures -PositionTolerance <= 2 * (y - k.1) <= PositionTolerance
  {
    (Snap(x), Snap(y))
  }

  predicate Bucketed(k: Key) {
    k.0 % PositionTolerance == 0 && k.1 % PositionTolerance == 0
  }

  /** The key of a key is itself, and every bucketed pair is a key. */
  lemma PositionKeyIdempotent(x: int, y: int, k: Key)
    ensures PositionKey(PositionKey(x, y).0, PositionKey(x, y).1) == PositionKey(x, y)
    ensures Bucketed(k) ==> PositionKey(k.0, k.1) == k
  {
    SnapFixed(Snap(x));
    SnapFixed(Snap(y));
    if Bucketed(k) {
      SnapFixed(k.0);
      SnapFixed(k.1);
    }
  }

  /** The automator's state: per-position click counts, the blacklist, the
      statistics counters and the run flags. */
  datatype State = State(
    clickedPositions: map<Key, nat>,
    blacklistedPositions: set<Key>,
    clicksRealizados: nat,
    checkboxesBlacklisteados: nat,
    desplazamientosRealizados: nat,
    ciclosSinCheckboxes: nat,
    running: bool,
    paused: bool)

  /** `__init__`. */
  function Initial(): (s: State)
    ensures Valid(s) && !s.running && !s.paused
  {
    State(map[], {}, 0, 0, 0, 0, false, false)
  }

  /** The click bookkeeping between steps: counts are 1 or 2, every tracked
      position is a bucket, exactly the positions clicked twice are blacklisted,
      and the counters cover the tracked and the blacklisted positions. */
  predicate ValidClicks(s: State) {
    (forall k | k in s.clickedPositions :: 1 <= s.clickedPositions[k] <= MaxClicksPerPosition)
    && (forall k | k in s.clickedPositions :: Bucketed(k))
    && (forall k | k in s.clickedPositions :: s.clickedPositions[k] == MaxClicksPerPosition <==> k in s.blacklistedPositions)
    && s.blacklistedPositions <= s.clickedPositions.Keys
    && |s.blacklistedPositions| <= s.checkboxesBlacklisteados
    && |s.clickedPositions.Keys| <= s.clicksRealizados
  }

  /** What the clicker keeps true between the turns of its loop: the click
      bookkeeping, and fewer than three empty cycles pending. */
  predicate Valid(s: State) {
    ValidClicks(s) && s.ciclosSinCheckboxes < EmptyCyclesBeforeScroll
  }

  /** `is_position_blacklisted(x, y)`. */
  predicate IsBlacklisted(s: State, x: int, y: int) {
    PositionKey(x, y) in s.blacklistedPositions
  }

  /** `record_click(x, y)`: the new state and the position's new count. */
  function RecordClick(s: State, x: int, y: int): (State, nat) {
    var k := PositionKey(x, y);
    var c := (if k in s.clickedPositions then s.clickedPositions[k] else 0) + 1;
    var s' := s.(clickedPositions := s.clickedPositions[k := c]);
    if c >= MaxClicksPerPosition then
      (s'.(blacklistedPositions := s.blacklistedPositions + {k}, checkboxesBlacklisteados := s.checkboxesBlacklisteados + 1), c)
    else (s', c)
  }

  /** Recording a click raises the position's count by one and leaves every
      other count alone; the position joins the blacklist, and the blacklisting
      counter grows, exactly when the count reaches two. */
  lemma RecordClickSpec(s: State, x: int, y: int)
    ensures var (t, c) := RecordClick(s, x, y); var k := PositionKey(x, y);
      c == (if k in s.clickedPositions then s.clickedPositions[k] else 0) + 1
      && t.clickedPositions.Keys == s.clickedPositions.Keys + {k}
      && t.clickedPositions[k] == c
      && (forall j | j in s.clickedPositions && j != k :: t.clickedPositions[j] == s.clickedPositions[j])
      && t.blacklistedPositions == (if c >= MaxClicksPerPosition then s.blacklistedPositions + {k} else s.blacklistedPositions)
      && t.checkboxesBlacklisteados == s.checkboxesBlacklisteados + (if c >= MaxClicksPerPosition then 1 else 0)
      && t.clicksRealizados == s.clicksRealizados
  {
  }

  /** `click_at_position(x, y)`: a blacklisted position is refused; a click
      that raises is reported as a failure and records nothing. */
  function ClickAt(s: State, x: int, y: int, raises: bool): (State, bool) {
    if IsBlacklisted(s, x, y) then (s, false)
    else if raises then (s, false)
    else
      var t := RecordClick(s, x, y).0;
      (t.(clicksRealizados := t.clicksRealizados + 1), true)
  }

  /** A blacklisted position is never clicked: the answer is False and nothing
      changes, neither counts, nor blacklist, nor statistics. */
  lemma ClickBlacklisted(s: State, x: int, y: int, raises: bool)
    requires IsBlacklisted(s, x, y)
    ensures ClickAt(s, x, y, raises) == (s, false)
  {
  }

  /** A click either changes nothing and answers False, or answers True after
      counting one click. */
  lemma ClickOutcome(s: State, x: int, y: int, raises: bool)
    ensures ClickAt(s, x, y, raises).1 <==> !IsBlacklisted(s, x, y) && !raises
    ensures !ClickAt(s, x, y, raises).1 ==> ClickAt(s, x, y, raises).0 == s
    ensures ClickAt(s, x, y, raises).1 ==> ClickAt(s, x, y, raises).0.clicksRealizados == s.clicksRealizados + 1
  {
  }

  lemma SetAddOne<T>(a: set<T>, x: T)
    requires x !in a
    ensures |a + {x}| == |a| + 1
  {
    assert a + {x} == a + {x};
  }

  /** The first click on a position tracks it with count one. */
  lemma ClickFirst(s: State, x: int, y: int)
    requires ValidClicks(s) && PositionKey(x, y) !in s.clickedPositions
    ensures ValidClicks(ClickAt(s, x, y, false).0)
  {
    var k := PositionKey(x, y);
    var t := ClickAt(s, x, y, false).0;
    assert t == s.(clickedPositions := s.clickedPositions[k := 1], clicksRealizados := s.clicksRealizados + 1);
    assert t.clickedPositions.Keys == s.clickedPositions.Keys + {k};
    SetAddOne(s.clickedPositions.Keys, k);
  }

  /** The second click on a position blacklists it. */
  lemma ClickSecond(s: State, x: int, y: int)
    requires ValidClicks(s) && PositionKey(x, y) in s.clickedPositions && PositionKey(x, y) !in s.blacklistedPositions
    ensures ValidClicks(ClickAt(s, x, y, false).0)
  {
    var k := PositionKey(x, y);
    assert s.clickedPositions[k] == 1;
    var t := ClickAt(s, x, y, false).0;
    assert t == s.(clickedPositions := s.clickedPositions[k := 2], blacklistedPositions := s.blacklistedPositions + {k},
                   checkboxesBlacklisteados := s.checkboxesBlacklisteados + 1, clicksRealizados := s.clicksRealizados + 1);
    assert t.clickedPositions.Keys == s.clickedPositions.Keys;
    SetAddOne(s.blacklistedPositions, k);
  }

  /** Clicking through `click_at_position` keeps the bookkeeping valid: a
      position is clicked at most twice before it is blacklisted and never
      after. */
  lemma ClickValid(s: State, x: int, y: int, raises: bool)
    requires ValidClicks(s)
    ensures ValidClicks(ClickAt(s, x, y, raises).0)
    ensures ClickAt(s, x, y, raises).0.ciclosSinCheckboxes == s.ciclosSinCheckboxes
  {
    if !IsBlacklisted(s, x, y) && !raises {
      if PositionKey(x, y) in s.clickedPositions {
        ClickSecond(s, x, y);
      } else {
        ClickFirst(s, x, y);
      }
    }
  }

  /** The `locateAllOnScreen` loop: each found position is clicked in turn
      unless blacklisted; the state after and how many clicks succeeded. A
      stopped automator clicks none of them. */
  function ClickAll(s: State, found: seq<Key>, raises: Key -> bool): (State, nat)
  {
    if found == [] || !s.running then (s, 0)
    else
      var (t, n) := ClickAll(s, found[..|found| - 1], raises);
      var p := found[|found| - 1];
      var (u, ok) := ClickAt(t, p.0, p.1, raises(p));
      (u, n + if ok then 1 else 0)
  }

  /** `search_and_click_checkboxes`: the single best match first, then every
      match found; the number of successful clicks. */
  function Search(s: State, single: Option<Key>, found: seq<Key>, raises: Key -> bool): (State, nat)
  {
    var (t, n) := match single
      case None => (s, 0)
      case Some(p) => var (t, ok) := ClickAt(s, p.0, p.1, raises(p)); (t, if ok then 1 else 0);
    var (u, m) := ClickAll(t, found, raises);
    (u, n + m)
  }

  /** The search loop keeps the state valid, clicks at most once per found
      position, counts every successful click in the statistics, and touches
      neither the flags nor the other counters. */
  lemma {:induction false} ClickAllSpec(s: State, found: seq<Key>, raises: Key -> bool)
    requires Valid(s)
    ensures var (t, n) := ClickAll(s, found, raises);
      Valid(t) && n <= |found| && t.clicksRealizados == s.clicksRealizados + n
      && t.running == s.running && t.paused == s.paused
      && t.ciclosSinCheckboxes == s.ciclosSinCheckboxes
      && t.desplazamientosRealizados == s.desplazamientosRealizados
  {
    if found != [] && s.running {
      var p := found[|found| - 1];
      var t := ClickAll(s, found[..|found| - 1], raises).0;
      ClickAllSpec(s, found[..|found| - 1], raises);
      ClickValid(t, p.0, p.1, raises(p));
      ClickOutcome(t, p.0, p.1, raises(p));
    }
  }

  /** The whole search keeps the state valid and counts its clicks: at most
      one more than the positions found. */
  lemma SearchSpec(s: State, single: Option<Key>, found: seq<Key>, raises: Key -> bool)
    requires Valid(s)
    ensures var (t, n) := Search(s, single, found, raises);
      Valid(t) && n <= |found| + 1 && t.clicksRealizados == s.clicksRealizados + n
      && t.running == s.running && t.ciclosSinCheckboxes == s.ciclosSinCheckboxes
  {
    if single.Some? {
      var p := single.value;
      ClickValid(s, p.0, p.1, raises(p));
      ClickOutcome(s, p.0, p.1, raises(p));
      ClickAllSpec(ClickAt(s, p.0, p.1, raises(p)).0, found, raises);
    } else {
      ClickAllSpec(s, found, raises);
    }
  }

  /** `clean_blacklist_after_scroll`: both the counts and the blacklist are
      emptied. */
  function Clean(s: State): (t: State)
    ensures t.clickedPositions == map[] && t.blacklistedPositions == {}
    ensures t == s.(clickedPositions := map[], blacklistedPositions := {})
  {
    s.(clickedPositions := map[], blacklistedPositions := {})
  }

  /** `advance_page`: fifteen key presses, then the scroll counter and the
      cleaning; a press that raises leaves everything as it was. */
  function AdvancePage(s: State, raises: bool): State {
    if raises then s else Clean(s.(desplazamientosRealizados := s.desplazamientosRealizados + 1))
  }

  /** Scrolling keeps the state valid. */
  lemma AdvanceValid(s: State, raises: bool)
    requires ValidClicks(s)
    ensures ValidClicks(AdvancePage(s, raises))
    ensures !raises ==> AdvancePage(s, raises).clickedPositions == map[] && AdvancePage(s, raises).blacklistedPositions == {}
  {
  }

  /** The empty-cycle counter of `run` after a cycle that clicked `clicked`
      checkboxes: an empty cycle counts, the third one in a row scrolls and
      resets; any click resets. */
  function EndCycle(s: State, clicked: nat, scrollRaises: bool): State {
    if clicked == 0 then
      var t := s.(ciclosSinCheckboxes := s.ciclosSinCheckboxes + 1);
      if t.ciclosSinCheckboxes >= EmptyCyclesBeforeScroll then AdvancePage(t, scrollRaises).(ciclosSinCheckboxes := 0) else t
    else s.(ciclosSinCheckboxes := 0)
  }

  /** The counter stays in 0..2: it grows by one on an empty cycle unless that
      makes three, when the page is scrolled and it restarts from zero. */
  lemma EndCycleSpec(s: State, clicked: nat, scrollRaises: bool)
    requires Valid(s)
    ensures var t := EndCycle(s, clicked, scrollRaises);
      Valid(t)
      && (clicked > 0 ==> t.ciclosSinCheckboxes == 0)
      && (clicked == 0 && s.ciclosSinCheckboxes + 1 < EmptyCyclesBeforeScroll ==> t.ciclosSinCheckboxes == s.ciclosSinCheckboxes + 1)
      && (clicked == 0 && s.ciclosSinCheckboxes + 1 == EmptyCyclesBeforeScroll ==>
            t.ciclosSinCheckboxes == 0 && (!scrollRaises ==> t.desplazamientosRealizados == s.desplazamientosRealizados + 1))
  {
    if clicked == 0 && s.ciclosSinCheckboxes + 1 >= EmptyCyclesBeforeScroll {
      AdvanceValid(s.(ciclosSinCheckboxes := s.ciclosSinCheckboxes + 1), scrollRaises);
    }
  }

  /** One turn of the `while self.running` loop: search, click, then the
      empty-cycle counter. A stopped automator does nothing. */
  function Iteration(s: State, single: Option<Key>, found: seq<Key>, raises: Key -> bool, scrollRaises: bool): State {
    if !s.running then s
    else
      var (t, n) := Search(s, single, found, raises);
      EndCycle(t, n, scrollRaises)
  }

  /** Every turn of the loop keeps the state valid, so between turns every
      count is 1 or 2, every blacklisted position was clicked twice, and the
      empty-cycle counter is in 0..2. */
  lemma IterationValid(s: State, single: Option<Key>, found: seq<Key>, raises: Key -> bool, scrollRaises: bool)
    requires Valid(s)
    ensures Valid(Iteration(s, single, found, raises, scrollRaises))
  {
    if s.running {
      SearchSpec(s, single, found, raises);
      var (t, n) := Search(s, single, found, raises);
      EndCycleSpec(t, n, scrollRaises);
    }
  }

  /** The answer of `get_blacklist_status`. */
  datatype BlacklistStatus = BlacklistStatus(totalPositionsTracked: nat, blacklistedPositions: nat, positionsWithMultipleClicks: nat)

  /** The positions clicked more than once. */
  function Multiple(s: State): set<Key> {
    set k | k in s.clickedPositions && s.clickedPositions[k] > 1
  }

  lemma {:induction false} SubsetCard<T>(a: set<T>, b: set<T>)
    requires a <= b
    ensures |a| <= |b|
    decreases |b|
  {
    if a != {} {
      var x :| x in a;
      SubsetCard(a - {x}, b - {x});
    }
  }

  /** `get_blacklist_status()`. */
  function Status(s: State): (r: BlacklistStatus)
    ensures r.positionsWithMultipleClicks <= r.totalPositionsTracked
  {
    SubsetCard(Multiple(s), s.clickedPositions.Keys);
    BlacklistStatus(|s.clickedPositions.Keys|, |s.blacklistedPositions|, |Multiple(s)|)
  }

  /** In a valid state the positions clicked more than once are exactly the
      blacklisted ones, so the two reported numbers agree. */
  lemma StatusValid(s: State)
    requires Valid(s)
    ensures Multiple(s) == s.blacklistedPositions
    ensures Status(s).positionsWithMultipleClicks == Status(s).blacklistedPositions
  {
  }

  /** `toggle_pause`. */
  function TogglePause(s: State): (t: State)
    ensures t.paused == !s.paused
    ensures t.(paused := s.paused) == s
  {
    s.(paused := !s.paused)
  }

  /** Pausing twice resumes: the state is as before. */
  lemma TogglePauseTwice(s: State)
    ensures TogglePause(TogglePause(s)) == s
  {
  }

  /** The clicker as an object whose methods update its fields. */
  class Automator {
    var clickedPositions: map<Key, nat>
    var blacklistedPositions: set<Key>
    var clicksRealizados: nat
    var checkboxesBlacklisteados: nat
    var desplazamientosRealizados: nat
    var ciclosSinCheckboxes: nat
    var running: bool
    var paused: bool

    /** The fields as a state value. */
    function Current(): State
      reads this
    {
      State(clickedPositions, blacklistedPositions, clicksRealizados, checkboxesBlacklisteados,
            desplazamientosRealizados, ciclosSinCheckboxes, running, paused)
    }

    constructor()
      ensures Current() == Initial()
    {
      clickedPositions, blacklistedPositions := map[], {};
      clicksRealizados, checkboxesBlacklisteados := 0, 0;
      desplazamientosRealizados, ciclosSinCheckboxes := 0, 0;
      running, paused := false, false;
    }

    /** `is_position_blacklisted(x, y)`. */
    predicate IsPositionBlacklisted(x: int, y: int)
      reads this
    {
      IsBlacklisted(Current(), x, y)
    }

    /** `record_click(x, y)`. */
    method RecordClickAt(x: int, y: int) returns (count: nat)
      modifies this
      ensures (Current(), count) == RecordClick(old(Current()), x, y)
    {
      var k := PositionKey(x, y);
      var before := if k in clickedPositions then clickedPositions[k] else 0;
      count := before + 1;
      clickedPositions := clickedPositions[k := count];
      if count >= MaxClicksPerPosition {
        blacklistedPositions := blacklistedPositions + {k};
        checkboxesBlacklisteados := checkboxesBlacklisteados + 1;
      }
    }

    /** `click_at_position(x, y)`; `raises` says whether the click raised. */
    method ClickAtPosition(x: int, y: int, raises: bool) returns (clicked: bool)
      modifies this
      ensures (Current(), clicked) == ClickAt(old(Current()), x, y, raises)
    {
      if IsPositionBlacklisted(x, y) {
        return false;
      }
      if raises {
        return false;
      }
      var _ := RecordClickAt(x, y);
      clicksRealizados := clicksRealizados + 1;
      return true;
    }

    /** The `locateAllOnScreen` loop of `search_and_click_checkboxes`: the
        number of checkboxes clicked. */
    method ClickFound(found: seq<Key>, raises: Key -> bool) returns (clicked: nat)
      modifies this
      ensures (Current(), clicked) == ClickAll(old(Current()), found, raises)
    {
      ghost var start := Current();
      clicked := 0;
      var i := 0;
      while i < |found|
        invariant 0 <= i <= |found|
        invariant running == start.running
        invariant (Current(), clicked) == ClickAll(start, found[..i], raises)
      {
        if !running {
          break;
        }
        assert found[..i + 1][..i] == found[..i];
        var p := found[i];
        if !IsPositionBlacklisted(p.0, p.1) {
          var ok := ClickAtPosition(p.0, p.1, raises(p));
          if ok {
            clicked := clicked + 1;
          }
        }
        i := i + 1;
      }
      if running {
        assert found[..i] == found;
      }
    }

    /** `search_and_click_checkboxes`: `single` is the best match, `found` every
        match; the number of checkboxes clicked. */
    method SearchAndClick(single: Option<Key>, found: seq<Key>, raises: Key -> bool) returns (clicked: nat)
      modifies this
      ensures (Current(), clicked) == Search(old(Current()), single, found, raises)
    {
      clicked := 0;
      if single.Some? {
        var p := single.value;
        if !IsPositionBlacklisted(p.0, p.1) {
          var ok := ClickAtPosition(p.0, p.1, raises(p));
          if ok {
            clicked := clicked + 1;
          }
        }
      }
      var more := ClickFound(found, raises);
      clicked := clicked + more;
    }

    /** `clean_blacklist_after_scroll`. */
    method CleanBlacklistAfterScroll()
      modifies this
      ensures Current() == Clean(old(Current()))
    {
      blacklistedPositions := {};
      clickedPositions := map[];
    }

    /** `advance_page`; `raises` says whether a key press raised. */
    method AdvancePageDown(raises: bool)
      modifies this
      ensures Current() == AdvancePage(old(Current()), raises)
    {
      if raises {
        return;
      }
      desplazamientosRealizados := desplazamientosRealizados + 1;
      CleanBlacklistAfterScroll();
    }

    /** `toggle_pause`. */
    method TogglePaused()
      modifies this
      ensures Current() == TogglePause(old(Current()))
    {
      paused := !paused;
    }

    /** One turn of the `run` loop after the pause wait. */
    method RunIteration(single: Option<Key>, found: seq<Key>, raises: Key -> bool, scrollRaises: bool)
      modifies this
      ensures Current() == Iteration(old(Current()), single, found, raises, scrollRaises)
    {
      if !running {
        return;
      }
      var n := SearchAndClick(single, found, raises);
      if n == 0 {
        ciclosSinCheckboxes := ciclosSinCheckboxes + 1;
        if ciclosSinCheckboxes >= EmptyCyclesBeforeScroll {
          AdvancePageDown(scrollRaises);
          ciclosSinCheckboxes := 0;
        }
      } else {
        ciclosSinCheckboxes := 0;
      }
    }
  }
}
