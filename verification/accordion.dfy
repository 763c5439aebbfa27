/**
 * The "at most one answer expanded" accordion that every FAQ section of the
 * site copies: the state is the index of the open question or null, and a
 * click on question `k` closes it when it is the open one and otherwise opens
 * it, which implicitly closes whichever other question was open.
 */
module Accordion {
  import opened Wrappers

  /** Nothing is expanded when the section first renders. */
  const Closed: Option<nat> := None

  /** The click handler `open === k ? null : k`. */
  function Toggle(open: Option<nat>, k: nat): (r: Option<nat>)
    ensures r == None <==> open == Some(k)
    ensures r != None ==> r == Some(k)
  {
    if open == Some(k) then None else Some(k)
  }

  /** The questions, among the `n` rendered, whose answer is shown expanded. */
  function Expanded(open: Option<nat>, n: nat): (e: set<nat>)
    ensures |e| <= 1
    ensures forall k :: k in e <==> k < n && open == Some(k)
  {
    if open.Some? && open.value < n then {open.value} else {}
  }

  /** The open index names one of the `n` questions, or nothing is open. */
  predicate Within(open: Option<nat>, n: nat)
  {
    open.None? || open.value < n
  }

  /**
   * Reference behaviour written on the set of expanded questions: clicking an
   * expanded question collapses it, clicking any other leaves it the only one
   * expanded.
   */
  function ClickSet(e: set<nat>, k: nat): (r: set<nat>)
  {
    if k in e then e - {k} else {k}
  }

  /** The index-based toggle implements the set-based reference behaviour. */
  lemma ToggleRefinesClickSet(open: Option<nat>, k: nat, n: nat)
    requires Within(open, n) && k < n
    ensures Expanded(Toggle(open, k), n) == ClickSet(Expanded(open, n), k)
    ensures Within(Toggle(open, k), n)
  {
    if open == Some(k) {
      assert Expanded(open, n) == {k};
    } else {
      assert k !in Expanded(open, n);
    }
  }

  /**
   * Clicking the same question twice restores the previous state exactly when
   * nothing else was open; if another question was open, the double click
   * leaves everything collapsed.
   */
  lemma ToggleTwice(open: Option<nat>, k: nat)
    ensures Toggle(Toggle(open, k), k) == open <==> open == None || open == Some(k)
    ensures open != None && open != Some(k) ==> Toggle(Toggle(open, k), k) == None
  {
  }

  /** Opening `k` while a different question `m` is open collapses `m`. */
  lemma OpeningCollapsesOther(m: nat, k: nat, n: nat)
    requires m != k && m < n && k < n
    ensures Expanded(Toggle(Some(m), k), n) == {k}
    ensures m !in Expanded(Toggle(Some(m), k), n)
  {
  }

  /** All clicks land on one of the `n` rendered question buttons. */
  predicate ClicksBelow(clicks: seq<nat>, n: nat)
  {
    forall i :: 0 <= i < |clicks| ==> clicks[i] < n
  }

  /**
   * The open index after a sequence of clicks. The result is either nothing or
   * the last question clicked, and stays inside the rendered questions.
   */
  function Run(n: nat, open: Option<nat>, clicks: seq<nat>): (r: Option<nat>)
    requires ClicksBelow(clicks, n)
    ensures Within(open, n) ==> Within(r, n)
    ensures |clicks| == 0 ==> r == open
    ensures |clicks| > 0 ==> r == None || r == Some(clicks[|clicks| - 1])
    ensures |Expanded(r, n)| <= 1
    decreases |clicks|
  {
    if |clicks| == 0 then open
    else Toggle(Run(n, open, clicks[..|clicks| - 1]), clicks[|clicks| - 1])
  }

  /** The index-based run agrees with the set-based reference run click by click. */
  function RunSet(e: set<nat>, clicks: seq<nat>): (r: set<nat>)
    decreases |clicks|
  {
    if |clicks| == 0 then e
    else ClickSet(RunSet(e, clicks[..|clicks| - 1]), clicks[|clicks| - 1])
  }

  lemma {:induction false} RunRefinesRunSet(n: nat, open: Option<nat>, clicks: seq<nat>)
    requires ClicksBelow(clicks, n) && Within(open, n)
    ensures Expanded(Run(n, open, clicks), n) == RunSet(Expanded(open, n), clicks)
    decreases |clicks|
  {
    if |clicks| > 0 {
      var front := clicks[..|clicks| - 1];
      assert ClicksBelow(front, n);
      RunRefinesRunSet(n, open, front);
      ToggleRefinesClickSet(Run(n, open, front), clicks[|clicks| - 1], n);
    }
  }
}
