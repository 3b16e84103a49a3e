/**
 * The FAQ accordion. A click closes every item and then opens the clicked
 * one unless it was already open, so at most one item is ever open.
 * landing-new.js also shows or hides each item's answer; landing-script.js
 * only toggles the `active` class.
 */
module Faq {
  import opened Flags

  /** An item of landing-new.js: its `active` class and whether its answer is displayed. */
  datatype Item = Item(active: bool, answerShown: bool)

  /** The items that carry the `active` class. */
  function OpenItems(items: seq<Item>): set<nat> {
    ActiveIndices(ActiveFlags(items))
  }

  /** `window.toggleFAQ` of landing-new.js: afterwards no item is open if the
      clicked one was open, and only the clicked one otherwise; every answer
      is shown exactly when its item is open. */
  function ToggleNew(items: seq<Item>, i: nat): (r: seq<Item>)
    requires i < |items|
    ensures |r| == |items|
    ensures OpenItems(r) == if items[i].active then {} else {i}
    ensures forall j :: 0 <= j < |r| ==> r[j].answerShown == r[j].active
  {
    var closed := seq(|items|, _ => Item(false, false));
    var r := if !items[i].active then closed[i := Item(true, true)] else closed;
    assert forall j: nat :: j < |r| && r[j].active ==> j == i;
    r
  }

  /** The click handler of `initFAQToggle` and `window.toggleFAQ` of
      landing-script.js, on the `active` flags of the items. */
  function ToggleScript(active: seq<bool>, i: nat): (r: seq<bool>)
    requires i < |active|
    ensures |r| == |active|
    ensures ActiveIndices(r) == if active[i] then {} else {i}
  {
    var closed := seq(|active|, _ => false);
    var r := if !active[i] then closed[i := true] else closed;
    assert forall j: nat :: j < |r| && r[j] ==> j == i;
    r
  }

  /** Clicking the same item twice undoes the first click, from any state in
      which no other item is open. */
  lemma ToggleTwiceRestores(active: seq<bool>, i: nat)
    requires i < |active|
    requires ActiveIndices(active) <= {i}
    ensures ToggleScript(ToggleScript(active, i), i) == active
  {
    var once := ToggleScript(active, i);
    var twice := ToggleScript(once, i);
    if active[i] {
      assert ActiveIndices(active) == {i};
      assert !once[i] by { assert i !in ActiveIndices(once); }
    } else {
      assert ActiveIndices(active) == {};
      assert once[i] by { assert i in ActiveIndices(once); }
    }
    FlagsFromActiveIndices(twice, active);
  }

  function ActiveFlags(items: seq<Item>): (r: seq<bool>)
    ensures |r| == |items|
    ensures forall j :: 0 <= j < |items| ==> r[j] == items[j].active
  {
    seq(|items|, j requires 0 <= j < |items| => items[j].active)
  }

  /** The two scripts leave the same items open after the same click. */
  lemma TogglesAgree(items: seq<Item>, i: nat)
    requires i < |items|
    ensures ActiveFlags(ToggleNew(items, i)) == ToggleScript(ActiveFlags(items), i)
  {
    var a := ActiveFlags(ToggleNew(items, i));
    var b := ToggleScript(ActiveFlags(items), i);
    FlagsFromActiveIndices(a, b);
  }
}
