/**
 * The FAQ accordion (`initFAQAccordion`, assets/js/main.js). Each item is
 * open (class `active`) or closed. Clicking the question of an open item
 * closes that item alone; clicking the question of a closed item closes
 * every other item and opens it. Items without a question element get no
 * handler. On start-up the first item is opened.
 */
module FaqAccordion {

  /** No two items are open at once. */
  predicate AtMostOneOpen(open: seq<bool>) {
    forall j, k | 0 <= j < |open| && 0 <= k < |open| && open[j] && open[k] :: j == k
  }

  /** Item `i` is open and all others closed. */
  predicate OnlyOpen(open: seq<bool>, i: nat) {
    i < |open| && forall j | 0 <= j < |open| :: open[j] == (j == i)
  }

  /** The click handler of item `i`, on the open/closed flags of all items. */
  function Clicked(open: seq<bool>, i: nat): (r: seq<bool>)
    requires i < |open|
    ensures |r| == |open|
  {
    if open[i] then open[i := false]
    else seq(|open|, j requires 0 <= j < |open| => j == i)
  }

  /** Clicking a closed item leaves exactly that item open. */
  lemma ClickClosedOpensOnlyIt(open: seq<bool>, i: nat)
    requires i < |open| && !open[i]
    ensures OnlyOpen(Clicked(open, i), i)
  {
  }

  /**
   * Clicking an open item closes it and changes nothing else; from a state
   * with at most one open item it leaves all items closed.
   */
  lemma ClickOpenClosesOnlyIt(open: seq<bool>, i: nat)
    requires i < |open| && open[i]
    ensures !Clicked(open, i)[i]
    ensures forall j | 0 <= j < |open| && j != i :: Clicked(open, i)[j] == open[j]
    ensures AtMostOneOpen(open) ==> forall j | 0 <= j < |open| :: !Clicked(open, i)[j]
  {
  }

  /** Every click preserves "at most one item open". */
  lemma ClickKeepsAtMostOneOpen(open: seq<bool>, i: nat)
    requires i < |open| && AtMostOneOpen(open)
    ensures AtMostOneOpen(Clicked(open, i))
  {
    if !open[i] {
      ClickClosedOpensOnlyIt(open, i);
    }
  }

  /** A run of clicks, in order; clicks on items without a question do nothing. */
  function ClickAll(open: seq<bool>, hasQuestion: seq<bool>, clicks: seq<nat>): (r: seq<bool>)
    requires |hasQuestion| == |open|
    requires forall t | 0 <= t < |clicks| :: clicks[t] < |open|
    ensures |r| == |open|
    decreases |clicks|
  {
    if clicks == [] then open
    else
      var next := if hasQuestion[clicks[0]] then Clicked(open, clicks[0]) else open;
      ClickAll(next, hasQuestion, clicks[1..])
  }

  /** "At most one item open" holds after any sequence of clicks. */
  lemma {:induction false} ClicksKeepAtMostOneOpen(open: seq<bool>, hasQuestion: seq<bool>, clicks: seq<nat>)
    requires |hasQuestion| == |open| && AtMostOneOpen(open)
    requires forall t | 0 <= t < |clicks| :: clicks[t] < |open|
    ensures AtMostOneOpen(ClickAll(open, hasQuestion, clicks))
    decreases |clicks|
  {
    if clicks != [] {
      var next := if hasQuestion[clicks[0]] then Clicked(open, clicks[0]) else open;
      if hasQuestion[clicks[0]] {
        ClickKeepsAtMostOneOpen(open, clicks[0]);
      }
      ClicksKeepAtMostOneOpen(next, hasQuestion, clicks[1..]);
    }
  }

  /** Start-up: the first item gets class `active`; the others keep what the markup gave them. */
  function OpenedFirst(markup: seq<bool>): (r: seq<bool>)
    ensures |r| == |markup|
  {
    if |markup| > 0 then markup[0 := true] else markup
  }

  /**
   * When the markup opens no item other than the first, start-up leaves
   * exactly the first item open, and then every sequence of clicks keeps at
   * most one item open.
   */
  lemma {:induction false} StartUpThenClicks(markup: seq<bool>, hasQuestion: seq<bool>, clicks: seq<nat>)
    requires |markup| > 0 && |hasQuestion| == |markup|
    requires forall j | 0 < j < |markup| :: !markup[j]
    requires forall t | 0 <= t < |clicks| :: clicks[t] < |markup|
    ensures OnlyOpen(OpenedFirst(markup), 0)
    ensures AtMostOneOpen(ClickAll(OpenedFirst(markup), hasQuestion, clicks))
  {
    ClicksKeepAtMostOneOpen(OpenedFirst(markup), hasQuestion, clicks);
  }

  /** The accordion's items: their open flags and whether each has a question to click. */
  class Accordion {
    var open: array<bool>
    const hasQuestion: seq<bool>

    ghost predicate Valid()
      reads this
    {
      open.Length == |hasQuestion|
    }

    /** Start-up from the markup's flags: the first item is opened. */
    constructor (markup: seq<bool>, hasQuestion: seq<bool>)
      requires |markup| == |hasQuestion|
      ensures Valid() && fresh(open) && this.hasQuestion == hasQuestion
      ensures open[..] == OpenedFirst(markup)
    {
      this.hasQuestion := hasQuestion;
      var flags := new bool[|markup|](j requires 0 <= j < |markup| => markup[j]);
      if |markup| > 0 {
        flags[0] := true;
      }
      open := flags;
    }

    /** A click on the question of item `i`. */
    method Click(i: nat)
      requires Valid() && i < open.Length
      modifies open
      ensures open[..] == if hasQuestion[i] then Clicked(old(open[..]), i) else old(open[..])
      ensures AtMostOneOpen(old(open[..])) ==> AtMostOneOpen(open[..])
    {
      ghost var before := open[..];
      if !hasQuestion[i] {
        return;
      }
      if open[i] {
        open[i] := false;
      } else {
        for j := 0 to open.Length
          invariant forall k | 0 <= k < j :: open[k] == (k == i && before[k])
          invariant forall k | j <= k < open.Length :: open[k] == before[k]
        {
          if j != i {
            open[j] := false;
          }
        }
        open[i] := true;
      }
      assert open[..] == Clicked(before, i);
      if AtMostOneOpen(before) {
        ClickKeepsAtMostOneOpen(before, i);
      }
    }
  }
}
