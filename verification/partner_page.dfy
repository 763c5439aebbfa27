/**
 * The partner page's interactive parts: the four-step onboarding picker (whose
 * third step hosts the rules-and-filters demo) and the FAQ accordion.
 */
module PartnerPage {
  import opened Wrappers
  import Selection
  import RulesFilters
  import Accordion

  /** One onboarding step; the flags say which extra panel its content shows. */
  datatype StepInfo = StepInfo(
    number: string,
    title: string,
    code: Option<string>,
    dragDropDemo: bool,
    rulesDemo: bool,
    miniDashboard: bool)

  const Steps: seq<StepInfo> := [
    StepInfo("01", "Integrate SDK",
             Some("// Unity Example\nDropBy.Initialize(\"your-api-key\");\nDropBy.SetDropZone(\"spawn-point\");"),
             false, false, false),
    StepInfo("02", "Designate Entry Points", None, true, false, false),
    StepInfo("03", "Set Rules & Filters", None, false, true, false),
    StepInfo("04", "Go Live & Earn", None, false, false, true)
  ]

  /** The index of the step that hosts the rules demo. */
  const RulesStep: nat := 2

  /** The extra panels a step's content area can render. */
  datatype Panel = CodePanel | DragDropPanel | RulesPanel | DashboardPanel

  /** The extra panels rendered for a step, one conditional block per flag. */
  function Panels(st: StepInfo): (ps: set<Panel>)
  {
    (if st.code.Some? then {CodePanel} else {}) +
    (if st.dragDropDemo then {DragDropPanel} else {}) +
    (if st.rulesDemo then {RulesPanel} else {}) +
    (if st.miniDashboard then {DashboardPanel} else {})
  }

  /** Every step shows exactly one extra panel, and only the third shows the rules demo. */
  lemma EachStepShowsOnePanel(k: nat)
    requires k < |Steps|
    ensures |Panels(Steps[k])| == 1
    ensures RulesPanel in Panels(Steps[k]) <==> k == RulesStep
  {
  }

  /**
   * The picker's state: the active step and, while the rules demo is mounted,
   * that demo's own state. The demo's state lives in the mounted component,
   * so it is discarded when another step is selected.
   */
  datatype HowItWorks = HowItWorks(activeIndex: nat, rules: Option<RulesFilters.Rules>)

  const Initial := HowItWorks(0, None)

  datatype Input =
    | ClickStep(index: nat)
    | Demo(control: RulesFilters.Control)

  /** Step buttons exist for the four steps; demo controls only while the demo is mounted. */
  predicate ValidInput(s: HowItWorks, input: Input)
  {
    match input
    case ClickStep(i) => i < |Steps|
    case Demo(c) => s.rules.Some? && RulesFilters.Rendered(c)
  }

  function Step(s: HowItWorks, input: Input): (r: HowItWorks)
    requires ValidInput(s, input)
    ensures input.ClickStep? ==> r.activeIndex == input.index
    ensures input.ClickStep? && input.index != RulesStep ==> r.rules.None?
    ensures input.Demo? ==> r.activeIndex == s.activeIndex && r.rules.Some?
    ensures input.Demo? ==> r.rules == Some(RulesFilters.Apply(s.rules.value, input.control))
  {
    match input
    case ClickStep(i) =>
      var keys := Selection.Indices(|Steps|);
      assert keys[i] == i;
      var active := Selection.Select(keys, s.activeIndex, i);
      var rules :=
        if !Steps[active].rulesDemo then None
        else if s.rules.Some? then s.rules
        else Some(RulesFilters.Initial);
      HowItWorks(active, rules)
    case Demo(c) => s.(rules := Some(RulesFilters.Apply(s.rules.value, c)))
  }

  /**
   * The active index names a step, the rules demo is mounted exactly while its
   * step is active, and the demo's state keeps its own invariant.
   */
  predicate Inv(s: HowItWorks)
  {
    && s.activeIndex < |Steps|
    && (s.rules.Some? <==> s.activeIndex == RulesStep)
    && (s.rules.Some? ==> RulesFilters.Inv(s.rules.value))
  }

  lemma InitialSatisfiesInv()
    ensures Inv(Initial)
  {
  }

  lemma StepPreservesInv(s: HowItWorks, input: Input)
    requires Inv(s) && ValidInput(s, input)
    ensures Inv(Step(s, input))
  {
    if input.Demo? {
      RulesFilters.ApplyPreservesInv(s.rules.value, input.control);
    } else {
      RulesFilters.InitialSatisfiesInv();
    }
  }

  /**
   * Exactly one step button is highlighted, the active step's content shows
   * exactly one extra panel, and the rules demo is drawn exactly while its
   * state is mounted.
   */
  lemma OneStepHighlighted(s: HowItWorks)
    requires Inv(s)
    ensures Selection.Highlighted(Selection.Indices(|Steps|), s.activeIndex) == {s.activeIndex}
    ensures |Panels(Steps[s.activeIndex])| == 1
    ensures RulesPanel in Panels(Steps[s.activeIndex]) <==> s.rules.Some?
  {
    EachStepShowsOnePanel(s.activeIndex);
    assert Selection.Indices(|Steps|)[s.activeIndex] == s.activeIndex;
  }

  /** Coming back to the rules step from another step starts the demo afresh. */
  lemma ReturningResetsDemo(s: HowItWorks)
    requires Inv(s) && s.activeIndex != RulesStep
    ensures Step(s, ClickStep(RulesStep)).rules == Some(RulesFilters.Initial)
  {
  }

  /** Clicking the already active rules step keeps the demo's state. */
  lemma ReclickKeepsDemo(s: HowItWorks)
    requires Inv(s) && s.activeIndex == RulesStep
    ensures Step(s, ClickStep(RulesStep)) == s
  {
  }

  // ---------------------------------------------------------------------------
  // FAQ
  // ---------------------------------------------------------------------------

  const FaqCount: nat := 5

  /** The partner FAQ's open question after a sequence of clicks, starting closed. */
  function FaqAfter(clicks: seq<nat>): (open: Option<nat>)
    requires Accordion.ClicksBelow(clicks, FaqCount)
    ensures Accordion.Within(open, FaqCount)
    ensures |Accordion.Expanded(open, FaqCount)| <= 1
    ensures |clicks| == 0 ==> open == None
  {
    Accordion.Run(FaqCount, Accordion.Closed, clicks)
  }
}
