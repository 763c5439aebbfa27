/** The landing page's FAQ accordion (four questions). */
module LandingPage {
  import opened Wrappers
  import Accordion

  const FaqCount: nat := 4

  /** The landing FAQ's open question after a sequence of clicks, starting closed. */
  function FaqAfter(clicks: seq<nat>): (open: Option<nat>)
    requires Accordion.ClicksBelow(clicks, FaqCount)
    ensures Accordion.Within(open, FaqCount)
    ensures |Accordion.Expanded(open, FaqCount)| <= 1
    ensures |clicks| == 0 ==> open == None
  {
    Accordion.Run(FaqCount, Accordion.Closed, clicks)
  }
}
