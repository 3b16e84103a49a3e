/**
 * The "positions remaining" scarcity counter. Every timer tick a coin is
 * flipped (`Math.random() < 0.3` in landing-new.js, `< 0.1` in
 * landing-script.js); on heads the count drops by one but never below 15.
 * The count is mirrored into local storage and into the page's three
 * position displays. The coin and the stored value are inputs.
 */
module Positions {
  import opened Optional

  const InitialPositions: int := 47
  const PositionFloor: int := 15

  function Max(a: int, b: int): int {
    if a >= b then a else b
  }

  /** `Math.max(positions - 1, 15)`. */
  function Decrement(p: int): int {
    Max(p - 1, PositionFloor)
  }

  /** A firing tick never leaves the count below the floor or more than one
      below where it was; from at or above the floor it never raises the
      count, and a stored value below the floor is lifted to it. */
  lemma DecrementBounds(p: int)
    ensures Decrement(p) >= PositionFloor && Decrement(p) >= p - 1
    ensures p >= PositionFloor ==> Decrement(p) <= p
    ensures p < PositionFloor ==> Decrement(p) == PositionFloor
    ensures p > PositionFloor ==> Decrement(p) == p - 1
  {
  }

  /** The count, the value in local storage under 'positions-remaining', and
      the number in the position displays (None: untouched, the page's own
      markup). */
  datatype Counter = Counter(positions: int, stored: Option<int>, shown: Option<int>)

  /** `initPositionCounter` (both files): a saved value replaces the initial
      47 and is written to the displays. */
  function Load(saved: Option<int>): (c: Counter)
    ensures c.stored == saved
    ensures c.positions == if saved.Some? then saved.value else InitialPositions
    ensures c.shown == saved
  {
    match saved
    case Some(v) => Counter(v, saved, Some(v))
    case None => Counter(InitialPositions, None, None)
  }

  /** `updatePositionCounter` of landing-new.js: the count drops on heads
      only, but the displays and storage are rewritten on every tick. */
  function TickNew(c: Counter, heads: bool): (c': Counter)
    ensures c'.positions == if heads then Decrement(c.positions) else c.positions
    ensures c'.stored == Some(c'.positions) && c'.shown == Some(c'.positions)
  {
    var p := if heads then Decrement(c.positions) else c.positions;
    Counter(p, Some(p), Some(p))
  }

  /** `updatePositionCounter` inside `initPositionCounter` of
      landing-script.js: on tails nothing changes — not the count, not
      storage, not the displays; on heads all three take the decremented count. */
  function TickScript(c: Counter, heads: bool): (c': Counter)
    ensures !heads ==> c' == c
    ensures heads ==> c'.positions == Decrement(c.positions)
    ensures heads ==> c'.stored == Some(c'.positions) && c'.shown == Some(c'.positions)
  {
    if heads then
      var p := Decrement(c.positions);
      Counter(p, Some(p), Some(p))
    else
      c
  }

  /** A run of ticks, one coin per tick. */
  function RunNew(c: Counter, coins: seq<bool>): Counter
    decreases |coins|
  {
    if coins == [] then c else RunNew(TickNew(c, coins[0]), coins[1..])
  }

  function RunScript(c: Counter, coins: seq<bool>): Counter
    decreases |coins|
  {
    if coins == [] then c else RunScript(TickScript(c, coins[0]), coins[1..])
  }

  function Heads(coins: seq<bool>): nat {
    if coins == [] then 0 else (if coins[0] then 1 else 0) + Heads(coins[1..])
  }

  /** From a count at or above the floor, the count after a run is the start
      minus the number of heads, stopped at the floor. */
  lemma {:induction false} RunNewCount(c: Counter, coins: seq<bool>)
    requires c.positions >= PositionFloor
    ensures RunNew(c, coins).positions == Max(c.positions - Heads(coins), PositionFloor)
    decreases |coins|
  {
    if coins != [] {
      RunNewCount(TickNew(c, coins[0]), coins[1..]);
    }
  }

  lemma {:induction false} RunScriptCount(c: Counter, coins: seq<bool>)
    requires c.positions >= PositionFloor
    ensures RunScript(c, coins).positions == Max(c.positions - Heads(coins), PositionFloor)
    decreases |coins|
  {
    if coins != [] {
      RunScriptCount(TickScript(c, coins[0]), coins[1..]);
    }
  }

  /** Both files move the count identically for the same coins; they differ
      only in when storage and displays are written. */
  lemma {:induction false} RunsAgreeOnCount(c: Counter, d: Counter, coins: seq<bool>)
    requires c.positions == d.positions
    ensures RunNew(c, coins).positions == RunScript(d, coins).positions
    decreases |coins|
  {
    if coins != [] {
      RunsAgreeOnCount(TickNew(c, coins[0]), TickScript(d, coins[0]), coins[1..]);
    }
  }

  /** Storage and displays agree with each other and with the count, and
      nothing stored means the count is still the initial 47. */
  predicate Consistent(c: Counter) {
    && c.stored == c.shown
    && (c.stored.Some? ==> c.stored.value == c.positions)
    && (c.stored.None? ==> c.positions == InitialPositions)
  }

  lemma {:induction false} RunScriptConsistent(c: Counter, coins: seq<bool>)
    requires Consistent(c)
    ensures Consistent(RunScript(c, coins))
    decreases |coins|
  {
    if coins != [] {
      RunScriptConsistent(TickScript(c, coins[0]), coins[1..]);
    }
  }

  lemma {:induction false} RunNewConsistent(c: Counter, coins: seq<bool>)
    requires Consistent(c)
    ensures Consistent(RunNew(c, coins))
    decreases |coins|
  {
    if coins != [] {
      RunNewConsistent(TickNew(c, coins[0]), coins[1..]);
    }
  }

  /** Reloading the page restores the count: loading what a run of ticks left
      in storage gives the count that run reached. */
  lemma ReloadRestoresCount(saved: Option<int>, coins: seq<bool>)
    ensures var c := RunScript(Load(saved), coins); Load(c.stored).positions == c.positions
    ensures var c := RunNew(Load(saved), coins); Load(c.stored).positions == c.positions
  {
    RunScriptConsistent(Load(saved), coins);
    RunNewConsistent(Load(saved), coins);
  }
}
