# Dropby site: UI state machines in Dafny

The Dropby marketing site is mostly static markup. A few single-threaded UI
state machines sit inside it, and this project models them as pure transition
functions over immutable datatypes and proves their invariants:

- **Reward redemption** (`Redemption`, the landing page's player section). The
  state is a credit balance that starts at 1250, a catalog of two rewards, and
  a confetti overlay (`show`, `source`, `isFading`). It also holds the index of
  the celebrating button and the queue of pending timer callbacks. Events are:
  - a click on reward `i`, carrying the button's rectangle or nothing when the
    button ref is null;
  - a window scroll, carrying the celebrating button's live rectangle or nothing;
  - the firing of the next due timer: fade at 1500 ms, teardown at 2500 ms.

  The proofs cover:
  - the guard's three rejection cases;
  - the ledger invariant: credits equal 1250 minus the cost of the redeemed
    rewards, and are never negative;
  - redeemed flags flip at most once and are never reset;
  - only one celebration runs at a time;
  - each button is in exactly one of three display states;
  - the active → fading → gone timeline.
- **Accordion** (`Accordion`, used by the FAQ of every page). At most one
  answer is expanded, and a click toggles. It is modelled once, proved
  equivalent to a set-based reference behaviour, and instantiated per page
  (`LandingPage`, `PartnerPage`, `CollaboratorPage`, `PlayerPage`).
- **Single selection** (`Selection`): the partner page's four-step picker and
  the collaborator page's format tabs. The current key always names an entry,
  and exactly one button is highlighted.
- **Rules and filters demo** (`RulesFilters`, hosted by step 3 of the partner
  page's picker):
  - the category chips toggle membership in a list;
  - a cap slider covers 1..10;
  - a rating drop-down offers three options.

  The demo is mounted only while step 3 is active, so leaving that step
  discards its state, and coming back starts it afresh (`PartnerPage.Step`).
- **JavaScript key order** (`ObjectKeys`). The format tabs are rendered in
  `Object.keys(tabs)` order. ECMA-262 (OrdinaryOwnPropertyKeys) lists
  array-index keys first, in ascending numeric order. So the `'360'` tab's
  button comes first, even though `playable` is declared first
  (`CollaboratorPage.ButtonOrder`).
- **Visibility latch** (`Visibility`, the `useOnScreen` hook copied into every
  file). The flag starts false, becomes true on the first intersecting report,
  and never returns to false. The hook's effect depends on an `options` object
  literal that is new on every render, so the effect subscribes again after
  each render. The model keeps this as the `EffectRun` signal.

Browser plumbing appears only as event payloads: button rectangles (`Rect`,
never computed on), intersection reports, and timer firings.

Two choices follow the code closely:

- The click handler reads `rewards[index]` without a bounds check, and only
  the rendered buttons call it, so the model makes the index a precondition
  (`ValidEvent`).
- The code never cancels the two timers, so no cancellation is modelled.

Clicking the same question twice restores the previous accordion state only
when nothing else was open. If question `m` is open, clicking `k` twice leaves
every question collapsed (`Accordion.ToggleTwice` proves both cases).

## Model

| member | source | states |
|---|---|---|
| `Redemption.Check` | src/App.js:553-554 | Each rejection names its cause in the handler's test order. A redeemed reward is "already redeemed". Otherwise a showing overlay is "celebration showing". Otherwise a balance below the cost is "insufficient credits". A click is accepted exactly when none of these holds. |
| `Redemption.Redeem` | src/App.js:552-586 | A rejected click changes nothing. An accepted one lowers credits by exactly the reward's cost, flags only that reward, and records its index. With a known button rectangle it also shows confetti at that rectangle, not fading, and queues fade then teardown. Without one, the overlay and the timer queue are untouched. |
| `Redemption.FadeEffect` | src/App.js:577-579 | The fade callback sets `isFading` and changes nothing else. |
| `Redemption.TeardownEffect` | src/App.js:581-584 | The teardown callback hides the overlay, clears its source and fading flag, and clears the active index. Credits and rewards stay unchanged. |
| `Redemption.FireNext` | src/App.js:577-584 | The earliest pending callback fires and leaves the queue. A fade callback sets only `isFading` and keeps the active index. A teardown callback resets the overlay to hidden, sourceless and not fading, and clears the active index. With nothing pending nothing changes. Credits and rewards are never touched. |
| `Redemption.Scroll` | src/App.js:529-550 | While an index is recorded and the button's rectangle is available, the overlay source becomes that rectangle; otherwise nothing changes. No scroll changes credits, rewards, the active index, the timer queue, or whether the overlay shows or fades. |
| `Redemption.Step` | src/App.js:529-586 | A click runs the redeem handler, a scroll the scroll listener, and a timer firing the earliest pending callback. No event raises credits or resets a redeemed flag, and the catalog length is kept. |
| `Redemption.SpentAfterFlag` | src/App.js:556-559 | Flagging one unredeemed reward raises the total spent by exactly its cost. |
| `Redemption.InitSatisfiesInv` | src/App.js:513-525 | The initial state satisfies the invariant: catalog as declared, 1250 credits, nothing spent, no overlay, no timers. |
| `Redemption.StepPreservesInv` | src/App.js:529-586 | Every event preserves the invariant. Credits equal 1250 minus the redeemed costs and stay non-negative. The overlay shows exactly while callbacks are pending. It fades exactly when only teardown is left. A showing overlay has a source and an active index, and the active index names a redeemed reward. |
| `Redemption.Run` | src/App.js:518-586 | Over any session credits never rise, no flag is reset, and the invariant is kept. |
| `Redemption.ReachableSatisfiesInv` | src/App.js:518-586 | Every state reachable from page load satisfies the invariant, so credits are never negative. |
| `Redemption.RedeemChargesOneCost` | src/App.js:554-559 | A click either leaves credits and rewards unchanged, or lowers credits by exactly one unredeemed reward's cost and flags it. Credits stay non-negative. |
| `Redemption.RedeemTwiceIsNoOp` | src/App.js:554-559 | A second click on the same reward changes nothing, so each flag goes from false to true at most once. |
| `Redemption.SingleFlight` | src/App.js:554 | While the overlay shows, every click on any reward is rejected. |
| `Redemption.NoAnchorNoCelebration` | src/App.js:563-564 | Without a button rectangle the charge and the flag still happen, but no celebration starts and nothing is scheduled. |
| `Redemption.RenderButton` | src/App.js:653-662 | Each button is in exactly one of three states: redeemed, unaffordable, or redeemable. It is disabled exactly when it is not redeemable. Its text is "Redeemed!" exactly when redeemed, and otherwise the price. |
| `Redemption.AcceptedIffEnabledAndIdle` | src/App.js:554 | The guard accepts a click exactly when the button is enabled and no celebration shows. |
| `Redemption.Timeline` | src/App.js:577-590 | After a celebrating redemption, firing the callbacks due after `elapsed` ms gives this phase: active before 1500 ms, fading until 2500 ms, gone afterwards. The overlay is drawn exactly while it is not gone. |
| `Redemption.ScrollKeepsCelebration` | src/App.js:531-544 | A scroll never interrupts a celebration: the phase is unchanged, and in a reachable state a drawn overlay stays drawn. |
| `Redemption.RedeemSkinScenario` | src/App.js:514-518 | From page load, redeeming the 500-credit skin leaves 750 credits. The skin's button then shows redeemed, the other button stays redeemable, and the celebration is active. |
| `Redemption.InsufficientScenario` | src/App.js:554 | With 100 credits the 500-credit skin is refused, the balance stays 100, and the button is disabled and shows its price. |
| `Accordion.Toggle` | src/App.js:698-700 | A click on the open question closes everything. A click on any other question leaves exactly that one open. |
| `Accordion.Expanded` | src/App.js:710-718 | At most one answer is rendered expanded: the one whose index equals the open index. |
| `Accordion.ToggleRefinesClickSet` | src/App.js:698-700 | On the set of expanded answers, the index toggle behaves like "collapse if open, else make it the only open one". |
| `Accordion.ToggleTwice` | src/pages/CollaboratorPage.js:371 | Two clicks on the same question restore the prior state exactly when nothing else was open. Otherwise everything ends collapsed. |
| `Accordion.OpeningCollapsesOther` | src/pages/PlayerPage.js:218 | Opening question k while m is open collapses m and leaves only k expanded. |
| `Accordion.Run` | src/pages/PartnerPage.js:616-628 | After any clicks the open index names a rendered question or nothing. It is the last question clicked, or nothing. At most one answer is expanded. |
| `Accordion.RunRefinesRunSet` | src/pages/CollaboratorPage.js:371-381 | Over any click sequence, the accordion's expanded set equals the set-based reference's. |
| `LandingPage.FaqAfter` | src/App.js:677-718 | The landing FAQ starts closed and keeps at most one of its four answers expanded. |
| `PartnerPage.FaqAfter` | src/pages/PartnerPage.js:616-628 | The partner FAQ starts closed and keeps at most one of its five answers expanded. |
| `CollaboratorPage.FaqAfter` | src/pages/CollaboratorPage.js:336-381 | The collaborator FAQ starts closed and renders at most one of its five answers. |
| `PlayerPage.FaqAfter` | src/pages/PlayerPage.js:210-222 | The player FAQ starts closed and keeps at most one of its five answers expanded. |
| `Selection.Highlighted` | src/pages/PartnerPage.js:305-309 | Exactly the button whose key equals the current key is highlighted, provided that key is an entry. |
| `Selection.Select` | src/pages/PartnerPage.js:305 | A click makes the clicked entry current, and exactly one button is highlighted. |
| `Selection.Run` | src/pages/CollaboratorPage.js:176-180 | After any clicks the current key is an entry: the last clicked, or the initial one. |
| `Selection.Indices` | src/pages/PartnerPage.js:302-305 | The buttons of an index-keyed list carry exactly the keys 0 to n-1. |
| `PartnerPage.EachStepShowsOnePanel` | src/pages/PartnerPage.js:242-270 | Each of the four steps shows exactly one extra panel, and only the third step shows the rules demo. |
| `PartnerPage.Step` | src/pages/PartnerPage.js:302-417 | Clicking step i makes i active. The rules demo is dropped unless i is the rules step. A demo control never changes the active step and is applied to the mounted demo's state, as the slider, chips and drop-down handlers do (`RulesFilters.Apply`). |
| `PartnerPage.InitialSatisfiesInv` | src/pages/PartnerPage.js:241 | The picker starts at step 0 with the demo unmounted, which satisfies its invariant. |
| `PartnerPage.StepPreservesInv` | src/pages/PartnerPage.js:241-364 | The active index stays among the four steps. The demo is mounted exactly while step 3 is active, and its state keeps the demo's invariant. |
| `PartnerPage.OneStepHighlighted` | src/pages/PartnerPage.js:272-310 | Exactly one step button is highlighted. The active step's content shows exactly one extra panel, and the rules demo is drawn exactly while its state is mounted. |
| `PartnerPage.ReturningResetsDemo` | src/pages/PartnerPage.js:359-361 | Returning to the rules step from another step remounts the demo with its initial state. |
| `PartnerPage.ReclickKeepsDemo` | src/pages/PartnerPage.js:305 | Clicking the already active rules step changes nothing. |
| `RulesFilters.Remove` | src/pages/PartnerPage.js:380 | The filter keeps exactly the entries other than the category. It never grows the list and keeps a duplicate-free list duplicate-free. |
| `RulesFilters.Toggle` | src/pages/PartnerPage.js:380 | Toggling flips the category's membership. Every other category keeps its membership. An absent category is appended, and duplicate-freedom is kept. |
| `RulesFilters.ToggleTwiceRestoresMembership` | src/pages/PartnerPage.js:380 | Toggling a category twice restores every category's membership. |
| `RulesFilters.ToggleTwiceAbsent` | src/pages/PartnerPage.js:380 | Toggling an absent category twice restores the exact list. |
| `RulesFilters.ToggleTwicePresent` | src/pages/PartnerPage.js:380 | Toggling a present category twice keeps its membership but moves it to the end of the list. |
| `RulesFilters.RemoveLast` | src/pages/PartnerPage.js:380 | Filtering out a category that was just appended to a list without it gives back that list. |
| `RulesFilters.SliderValue` | src/pages/PartnerPage.js:386 | The range input reports a value within 1..10: in-range positions are kept and others are clamped to the nearer bound. |
| `RulesFilters.Apply` | src/pages/PartnerPage.js:380-417 | The slider sets the cap, a chip toggles its category, and the drop-down sets the chosen option. No control changes another control's field. |
| `RulesFilters.InitialSatisfiesInv` | src/pages/PartnerPage.js:375-379 | The demo starts with cap 2, selection `["Games"]` and rating "Everyone", which satisfies its invariant. |
| `RulesFilters.ApplyPreservesInv` | src/pages/PartnerPage.js:378-417 | The demo's controls keep the invariant: cap within 1..10, a duplicate-free selection of offered categories, and an offered rating. |
| `RulesFilters.Run` | src/pages/PartnerPage.js:375-417 | Any sequence of rendered controls keeps the invariant. |
| `RulesFilters.SessionSatisfiesInv` | src/pages/PartnerPage.js:375-396 | From the initial state the selection stays a duplicate-free subset of the five categories, so it never holds more than five entries. |
| `RulesFilters.DistinctSubsetIsShort` | src/pages/PartnerPage.js:378-396 | A duplicate-free list drawn from the categories is no longer than the category list. |
| `ObjectKeys.IndexKeys` | src/pages/CollaboratorPage.js:176 | Selects exactly the declared keys that are array indices. |
| `ObjectKeys.NamedKeys` | src/pages/CollaboratorPage.js:176 | Selects exactly the declared keys that are not array indices, keeping their declaration order. |
| `ObjectKeys.SplitKeepsKeys` | src/pages/CollaboratorPage.js:176 | The two groups together hold every declared key exactly as often as declared. |
| `ObjectKeys.Insert` | src/pages/CollaboratorPage.js:176 | Insertion adds exactly the one key and keeps an ascending list ascending. |
| `ObjectKeys.Sort` | src/pages/CollaboratorPage.js:176 | The sorted index keys are a permutation of the input, in ascending numeric order. |
| `ObjectKeys.OwnKeys` | src/pages/CollaboratorPage.js:176 | For an object literal without repeated keys, `Object.keys` lists every declared key once. Array indices come first, in ascending numeric order, and precede every other key. |
| `ObjectKeys.NamedKeysLast` | src/pages/CollaboratorPage.js:176 | The keys of `Object.keys` that are not array indices close the list, exactly in the order the literal declares them. |
| `CollaboratorPage.Lookup` | src/pages/CollaboratorPage.js:187-189 | For an object literal without repeated keys, `tabs[key]` has an own value exactly for the declared keys, and that value is the declared tab. |
| `CollaboratorPage.TabButtons` | src/pages/CollaboratorPage.js:176-183 | The tab buttons carry exactly the declared keys. |
| `CollaboratorPage.KeyGroups` | src/pages/CollaboratorPage.js:154-176 | Of the three tab keys only "360" is an array index. "playable" and "interactiveVideo" are the named keys, in that order. |
| `CollaboratorPage.ButtonOrder` | src/pages/CollaboratorPage.js:154-176 | The buttons are rendered in the order "360", "playable", "interactiveVideo". |
| `CollaboratorPage.ClickTab` | src/pages/CollaboratorPage.js:179 | A tab click makes that key active, and `tabs[activeTab]` is then defined. |
| `CollaboratorPage.TabAfter` | src/pages/CollaboratorPage.js:153-189 | The active tab starts as "playable" and always names a key of `tabs`, so lines 187 and 189 never read `undefined`. Exactly one tab button is drawn active. |
| `Visibility.Step` | src/pages/PlayerPage.js:11-31 | No signal resets the flag. An intersecting report while observed sets it and stops observing. Only an intersecting report can set it. |
| `Visibility.RunMonotone` | src/pages/PlayerPage.js:13-20 | Once visible, the flag stays true over any sequence of signals. |
| `Visibility.VisibleOnlyAfterIntersection` | src/pages/PlayerPage.js:13-20 | A hidden section becomes visible only if the observer reported an intersection. |
| `Visibility.MountThenIntersect` | src/App.js:22-47 | After the element is observed, the first intersecting report makes the section visible for good. |
| `Visibility.DetachedStaysHidden` | src/App.js:34-37 | While every effect run finds the ref unattached, no observer starts, and a hidden section stays hidden whatever reports arrive. |

## Left out

- Particle canvas, the trig-based hero particles and the funnel bar widths. These are floating-point display arithmetic, `Math.random` and animation frames.
- Third-party renderers (confetti, charts, syntax highlighting, icons). They are opaque display calls. Only the conditions under which the confetti is drawn are modelled.
- Confetti opacity (`isFading ? 0 : 1`). It is a CSS value derived from `isFading`, which the model tracks.
- Window size, scroll listener registration, `getBoundingClientRect`, `IntersectionObserver`, smooth scrolling and `window.scrollTo`. They appear only as event payloads.
- Real-time `setTimeout` semantics. The two callbacks are a queue fired in due order, and no cancellation is modelled because the code never cancels them.
- Unmounting the player section. Timers that fire after unmount update a discarded component, and the model has no notion of it.
- Routing, page composition, header menu state, CSS classes, and all marketing copy, including FAQ answers and tab descriptions.
- RulesFilters.SliderValue: the browser's rounding of a range position to the slider's step is not modelled. Positions are integers already.
- Redemption.Step: clicks on indices outside the catalog are excluded by precondition. The source would throw on them, and no rendered button produces one.
- CollaboratorPage.Lookup: models only own properties of a literal without repeated keys. Inherited names such as `toString` resolve through `Object.prototype`, and for a repeated key the last value wins. Neither case is reachable, because `activeTab` only takes keys listed by `Object.keys(tabs)`.
- ObjectKeys.OwnKeys: the key list is assumed free of repeats, as an object literal's created properties are. A literal that repeats a key creates the property once, at its first position, and the model does not collapse such repeats. The `tabs` literal repeats none.
