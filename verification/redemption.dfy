/**
 * The reward-redemption demo of the landing page's player section: a credit
 * balance, a short catalog of rewards, and a confetti celebration that starts
 * at the clicked button, fades after 1.5 s and is torn down after 2.5 s.
 *
 * The browser is abstracted into events: a click on a reward's button (with
 * the button's on-screen rectangle, or none when the button ref is null), a
 * window scroll (with the live rectangle of the celebrating button, or none),
 * and the firing of the next scheduled timer callback.
 */
module Redemption {
  import opened Wrappers

  /** A button's on-screen rectangle as the browser reports it; never computed on. */
  datatype Rect = Rect(x: real, y: real, width: real, height: real)

  datatype Reward = Reward(name: string, game: string, cost: nat, redeemed: bool)

  /** The celebration overlay's state object. */
  datatype Confetti = Confetti(show: bool, source: Option<Rect>, isFading: bool)

  /** A scheduled timer callback. */
  datatype Timer = Fade | Teardown

  /** Delays, in milliseconds, with which a redemption schedules each callback. */
  function Delay(t: Timer): (ms: nat)
  {
    match t
    case Fade => 1500
    case Teardown => 2500
  }

  const InitialCredits: int := 1250

  const Catalog: seq<Reward> := [
    Reward("Cosmic Blade Skin", "Galaxy Runners", 500, false),
    Reward("Energy Pack (x10)", "Chrono Clash", 250, false)
  ]

  const NoConfetti := Confetti(false, None, false)

  /**
   * The component's state: `activeIndex` is `activeConfettiIndex`, and
   * `pending` lists the timer callbacks not yet fired, in the order they are due.
   */
  datatype State = State(
    credits: int,
    rewards: seq<Reward>,
    confetti: Confetti,
    activeIndex: Option<nat>,
    pending: seq<Timer>)

  const Init := State(InitialCredits, Catalog, NoConfetti, None, [])

  datatype Event =
    | Redeem(index: nat, anchor: Option<Rect>)
    | Scroll(rect: Option<Rect>)
    | TimerFires

  /** Outcome of the redemption guard, in the order the handler tests its conditions. */
  datatype Verdict = AlreadyRedeemed | CelebrationShowing | InsufficientCredits | Accepted

  function Check(s: State, i: nat): (v: Verdict)
    requires i < |s.rewards|
    ensures v == Accepted <==>
      !s.rewards[i].redeemed && !s.confetti.show && s.credits >= s.rewards[i].cost
    ensures v == AlreadyRedeemed <==> s.rewards[i].redeemed
    ensures v == CelebrationShowing <==> !s.rewards[i].redeemed && s.confetti.show
    ensures v == InsufficientCredits <==>
      !s.rewards[i].redeemed && !s.confetti.show && s.credits < s.rewards[i].cost
  {
    if s.rewards[i].redeemed then AlreadyRedeemed
    else if s.confetti.show then CelebrationShowing
    else if s.credits < s.rewards[i].cost then InsufficientCredits
    else Accepted
  }

  /**
   * The click handler for reward `i`. A rejected click changes nothing. An
   * accepted one charges the cost, flags the reward and records the index;
   * when the button's rectangle is known it also starts the celebration and
   * schedules the fade and teardown callbacks.
   */
  function Redeem(s: State, i: nat, anchor: Option<Rect>): (r: State)
    requires i < |s.rewards|
    ensures Check(s, i) != Accepted ==> r == s
    ensures Check(s, i) == Accepted ==>
      && r.credits == s.credits - s.rewards[i].cost
      && |r.rewards| == |s.rewards|
      && r.rewards[i] == s.rewards[i].(redeemed := true)
      && (forall k :: 0 <= k < |s.rewards| && k != i ==> r.rewards[k] == s.rewards[k])
      && r.activeIndex == Some(i)
    ensures Check(s, i) == Accepted && anchor.Some? ==>
      r.confetti == Confetti(true, anchor, false) && r.pending == s.pending + [Fade, Teardown]
    ensures Check(s, i) == Accepted && anchor.None? ==>
      r.confetti == s.confetti && r.pending == s.pending
  {
    if Check(s, i) != Accepted then s
    else
      var paid := s.(
        credits := s.credits - s.rewards[i].cost,
        rewards := s.rewards[i := s.rewards[i].(redeemed := true)],
        activeIndex := Some(i));
      if anchor.None? then paid
      else paid.(confetti := Confetti(true, anchor, false), pending := s.pending + [Fade, Teardown])
  }

  /** The fade callback: only the fading flag changes. */
  function FadeEffect(s: State): (r: State)
    ensures r.confetti.isFading
    ensures r.confetti.show == s.confetti.show && r.confetti.source == s.confetti.source
    ensures r.credits == s.credits && r.rewards == s.rewards && r.activeIndex == s.activeIndex
  {
    s.(confetti := s.confetti.(isFading := true))
  }

  /** The teardown callback: overlay and active index are cleared. */
  function TeardownEffect(s: State): (r: State)
    ensures !r.confetti.show && r.confetti.source.None? && !r.confetti.isFading
    ensures r.activeIndex.None?
    ensures r.credits == s.credits && r.rewards == s.rewards
  {
    s.(confetti := NoConfetti, activeIndex := None)
  }

  /** The next due callback fires and leaves the queue; with none due nothing happens. */
  function FireNext(s: State): (r: State)
    ensures s.pending == [] ==> r == s
    ensures s.pending != [] ==> r.pending == s.pending[1..]
    ensures s.pending != [] && s.pending[0] == Fade ==>
      r.confetti == s.confetti.(isFading := true) && r.activeIndex == s.activeIndex
    ensures s.pending != [] && s.pending[0] == Teardown ==>
      r.confetti == NoConfetti && r.activeIndex == None
    ensures r.credits == s.credits && r.rewards == s.rewards
  {
    if s.pending == [] then s
    else
      var fired := if s.pending[0] == Fade then FadeEffect(s) else TeardownEffect(s);
      fired.(pending := s.pending[1..])
  }

  /**
   * The scroll listener: while a celebration index is recorded and its button's
   * rectangle is available, the overlay's source follows the button. Nothing
   * but the source ever changes.
   */
  function Scroll(s: State, rect: Option<Rect>): (r: State)
    ensures s.activeIndex.Some? && rect.Some? ==> r.confetti.source == rect
    ensures s.activeIndex.None? || rect.None? ==> r == s
    ensures r.credits == s.credits && r.rewards == s.rewards && r.activeIndex == s.activeIndex
    ensures r.pending == s.pending
    ensures r.confetti.show == s.confetti.show && r.confetti.isFading == s.confetti.isFading
  {
    if s.activeIndex.None? || rect.None? then s
    else s.(confetti := s.confetti.(source := rect))
  }

  /** Events that can occur: clicks come only from the rendered reward buttons. */
  predicate ValidEvent(n: nat, e: Event)
  {
    e.Redeem? ==> e.index < n
  }

  /** One event on the page, dispatched to the handler that reacts to it. */
  function Step(s: State, e: Event): (r: State)
    requires ValidEvent(|s.rewards|, e)
    ensures |r.rewards| == |s.rewards|
    ensures r.credits <= s.credits
    ensures forall k :: 0 <= k < |s.rewards| && s.rewards[k].redeemed ==> r.rewards[k].redeemed
    ensures e.Redeem? ==> r == Redeem(s, e.index, e.anchor)
    ensures e.Scroll? ==> r == Scroll(s, e.rect)
    ensures e.TimerFires? ==> r == FireNext(s)
  {
    match e
    case Redeem(i, anchor) => Redeem(s, i, anchor)
    case Scroll(rect) => Scroll(s, rect)
    case TimerFires => FireNext(s)
  }

  // ---------------------------------------------------------------------------
  // The invariant of every reachable state
  // ---------------------------------------------------------------------------

  /** Total cost of the redeemed rewards. */
  function Spent(rs: seq<Reward>): (total: int)
    decreases |rs|
  {
    if |rs| == 0 then 0
    else (if rs[0].redeemed then rs[0].cost else 0) + Spent(rs[1..])
  }

  /** `rs` is the catalog, up to which rewards are flagged redeemed. */
  predicate SameCatalog(rs: seq<Reward>)
  {
    |rs| == |Catalog| &&
    forall k :: 0 <= k < |rs| ==> rs[k].(redeemed := false) == Catalog[k]
  }

  predicate Inv(s: State)
  {
    && SameCatalog(s.rewards)
    && s.credits == InitialCredits - Spent(s.rewards)
    && s.credits >= 0
    && (s.pending == [] || s.pending == [Teardown] || s.pending == [Fade, Teardown])
    && (s.confetti.show <==> s.pending != [])
    && (s.confetti.isFading <==> s.pending == [Teardown])
    && (s.confetti.show ==> s.confetti.source.Some? && s.activeIndex.Some?)
    && (s.activeIndex.Some? ==>
          s.activeIndex.value < |s.rewards| && s.rewards[s.activeIndex.value].redeemed)
  }

  /** Flagging one unredeemed reward adds exactly its cost to what was spent. */
  lemma {:induction false} SpentAfterFlag(rs: seq<Reward>, i: nat)
    requires i < |rs| && !rs[i].redeemed
    ensures Spent(rs[i := rs[i].(redeemed := true)]) == Spent(rs) + rs[i].cost
    decreases |rs|
  {
    var rs' := rs[i := rs[i].(redeemed := true)];
    if i == 0 {
      assert rs'[1..] == rs[1..];
    } else {
      assert rs'[1..] == rs[1..][i - 1 := rs[i].(redeemed := true)];
      SpentAfterFlag(rs[1..], i - 1);
    }
  }

  lemma InitSatisfiesInv()
    ensures Inv(Init)
  {
    assert Spent(Catalog[1..][1..]) == 0;
  }

  lemma StepPreservesInv(s: State, e: Event)
    requires Inv(s) && ValidEvent(|s.rewards|, e)
    ensures Inv(Step(s, e))
  {
    match e
    case Redeem(i, anchor) =>
      if Check(s, i) == Accepted {
        SpentAfterFlag(s.rewards, i);
        var r := Redeem(s, i, anchor);
        assert forall k :: 0 <= k < |r.rewards| ==> r.rewards[k].(redeemed := false) == Catalog[k] by {
          forall k | 0 <= k < |r.rewards|
            ensures r.rewards[k].(redeemed := false) == Catalog[k]
          {
            assert s.rewards[k].(redeemed := false) == Catalog[k];
          }
        }
      }
    case Scroll(rect) =>
    case TimerFires =>
  }

  // ---------------------------------------------------------------------------
  // Sessions: sequences of events from the initial state
  // ---------------------------------------------------------------------------

  predicate ValidEvents(n: nat, evs: seq<Event>)
  {
    forall j :: 0 <= j < |evs| ==> ValidEvent(n, evs[j])
  }

  /**
   * Replays a session. The balance never rises, no flag is ever reset, and the
   * invariant holds throughout.
   */
  function Run(s: State, evs: seq<Event>): (r: State)
    requires ValidEvents(|s.rewards|, evs)
    ensures |r.rewards| == |s.rewards|
    ensures r.credits <= s.credits
    ensures forall k :: 0 <= k < |s.rewards| && s.rewards[k].redeemed ==> r.rewards[k].redeemed
    ensures Inv(s) ==> Inv(r)
    decreases |evs|
  {
    if |evs| == 0 then s
    else
      assert ValidEvent(|s.rewards|, evs[0]);
      var next := Step(s, evs[0]);
      if Inv(s) then StepPreservesInv(s, evs[0]); Run(next, evs[1..]) else Run(next, evs[1..])
  }

  /** Every state of every session satisfies the invariant; in particular credits stay non-negative. */
  lemma ReachableSatisfiesInv(evs: seq<Event>)
    requires ValidEvents(|Catalog|, evs)
    ensures Inv(Run(Init, evs))
    ensures Run(Init, evs).credits >= 0
  {
    InitSatisfiesInv();
  }

  // ---------------------------------------------------------------------------
  // Redemption properties
  // ---------------------------------------------------------------------------

  /** A redemption lowers the balance by exactly one reward's cost, or not at all. */
  lemma RedeemChargesOneCost(s: State, i: nat, anchor: Option<Rect>)
    requires i < |s.rewards| && s.credits >= 0
    ensures var r := Redeem(s, i, anchor);
      (r.credits == s.credits && r.rewards == s.rewards) ||
      (r.credits == s.credits - s.rewards[i].cost && !s.rewards[i].redeemed && r.rewards[i].redeemed)
    ensures Redeem(s, i, anchor).credits >= 0
  {
  }

  /** A second click on the same reward is always a no-op: each flag flips at most once. */
  lemma RedeemTwiceIsNoOp(s: State, i: nat, a1: Option<Rect>, a2: Option<Rect>)
    requires i < |s.rewards|
    ensures Redeem(Redeem(s, i, a1), i, a2) == Redeem(s, i, a1)
  {
  }

  /** While a celebration shows, every click on any reward is rejected. */
  lemma SingleFlight(s: State, j: nat, anchor: Option<Rect>)
    requires j < |s.rewards| && s.confetti.show
    ensures Check(s, j) != Accepted
    ensures Redeem(s, j, anchor) == s
  {
  }

  /** A redemption whose button rectangle is unknown starts no celebration and schedules nothing. */
  lemma NoAnchorNoCelebration(s: State, i: nat)
    requires i < |s.rewards| && Check(s, i) == Accepted
    ensures Redeem(s, i, None).confetti == s.confetti
    ensures Redeem(s, i, None).pending == s.pending
    ensures Redeem(s, i, None).credits == s.credits - s.rewards[i].cost
    ensures Redeem(s, i, None).rewards[i].redeemed
  {
  }

  // ---------------------------------------------------------------------------
  // The reward buttons
  // ---------------------------------------------------------------------------

  /** The three ways a reward button can be drawn. */
  datatype Look = RedeemedLook | UnaffordableLook | RedeemableLook

  /** The button text: "Redeemed!" or the price. */
  datatype Label = RedeemedLabel | PriceLabel(cost: nat)

  datatype Button = Button(look: Look, text: Label, disabled: bool)

  /** The button for reward `i`, derived afresh from the current state. */
  function RenderButton(s: State, i: nat): (b: Button)
    requires i < |s.rewards|
    ensures b.look == RedeemedLook <==> s.rewards[i].redeemed
    ensures b.look == UnaffordableLook <==> !s.rewards[i].redeemed && s.credits < s.rewards[i].cost
    ensures b.disabled <==> b.look != RedeemableLook
    ensures b.text == RedeemedLabel <==> b.look == RedeemedLook
    ensures b.text.PriceLabel? ==> b.text.cost == s.rewards[i].cost
  {
    var rw := s.rewards[i];
    var look :=
      if rw.redeemed then RedeemedLook
      else if s.credits < rw.cost then UnaffordableLook
      else RedeemableLook;
    Button(look,
           if rw.redeemed then RedeemedLabel else PriceLabel(rw.cost),
           rw.redeemed || s.credits < rw.cost)
  }

  /** The guard accepts a click exactly when the button is enabled and no celebration shows. */
  lemma AcceptedIffEnabledAndIdle(s: State, i: nat)
    requires i < |s.rewards|
    ensures Check(s, i) == Accepted <==> !RenderButton(s, i).disabled && !s.confetti.show
  {
  }

  // ---------------------------------------------------------------------------
  // The celebration's phases over time
  // ---------------------------------------------------------------------------

  datatype Phase = Gone | Active | Fading

  function PhaseOf(s: State): (p: Phase)
  {
    if !s.confetti.show then Gone else if s.confetti.isFading then Fading else Active
  }

  /** The overlay is drawn only when shown with a known source. */
  predicate ConfettiDrawn(s: State)
  {
    s.confetti.show && s.confetti.source.Some?
  }

  /** The phase a celebration is in `elapsed` milliseconds after it started. */
  function PhaseAt(elapsed: nat): (p: Phase)
  {
    if elapsed < Delay(Fade) then Active
    else if elapsed < Delay(Teardown) then Fading
    else Gone
  }

  /** How many of the callbacks scheduled by one redemption are due after `elapsed` ms. */
  function DueCount(elapsed: nat): (n: nat)
    ensures n <= 2
  {
    (if Delay(Fade) <= elapsed then 1 else 0) + (if Delay(Teardown) <= elapsed then 1 else 0)
  }

  function FireTimes(s: State, n: nat): (r: State)
    decreases n
  {
    if n == 0 then s else FireTimes(FireNext(s), n - 1)
  }

  /**
   * After a celebrating redemption, firing the callbacks due after `elapsed`
   * ms (in their scheduled order) yields the phase the timeline prescribes:
   * active before 1.5 s, fading until 2.5 s, gone afterwards. The overlay is
   * drawn exactly while it is not gone.
   */
  lemma Timeline(s: State, i: nat, rect: Rect, elapsed: nat)
    requires Inv(s) && i < |s.rewards| && Check(s, i) == Accepted
    ensures PhaseOf(FireTimes(Redeem(s, i, Some(rect)), DueCount(elapsed))) == PhaseAt(elapsed)
    ensures ConfettiDrawn(FireTimes(Redeem(s, i, Some(rect)), DueCount(elapsed))) <==> PhaseAt(elapsed) != Gone
  {
    var r := Redeem(s, i, Some(rect));
    assert s.pending == [];
    assert r.pending == [Fade, Teardown];
    var r1 := FireNext(r);
    assert r1.pending == [Teardown];
    assert FireTimes(r, 1) == FireTimes(r1, 0);
    assert FireTimes(r, 2) == FireTimes(r1, 1);
  }

  /**
   * A scroll re-anchors the celebration without interrupting it: the phase is
   * unchanged, and in a reachable state a drawn overlay stays drawn.
   */
  lemma ScrollKeepsCelebration(s: State, rect: Option<Rect>)
    requires Inv(s)
    ensures PhaseOf(Scroll(s, rect)) == PhaseOf(s)
    ensures ConfettiDrawn(Scroll(s, rect)) <==> ConfettiDrawn(s)
  {
  }

  // ---------------------------------------------------------------------------
  // Scenarios
  // ---------------------------------------------------------------------------

  /** From a fresh page, redeeming the 500-credit skin leaves 750 and marks its button redeemed. */
  lemma RedeemSkinScenario(rect: Rect)
    ensures Redeem(Init, 0, Some(rect)).credits == 750
    ensures RenderButton(Redeem(Init, 0, Some(rect)), 0).look == RedeemedLook
    ensures RenderButton(Redeem(Init, 0, Some(rect)), 1).look == RedeemableLook
    ensures PhaseOf(Redeem(Init, 0, Some(rect))) == Active
  {
  }

  /** With 100 credits the 500-credit skin is refused and its button shows the price, disabled. */
  lemma InsufficientScenario(rect: Rect)
    ensures var s := Init.(credits := 100);
      Redeem(s, 0, Some(rect)) == s &&
      RenderButton(s, 0) == Button(UnaffordableLook, PriceLabel(500), true)
  {
  }
}
