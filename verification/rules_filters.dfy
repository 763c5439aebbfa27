/**
 * The rules-and-filters demo shown in the third onboarding step of the
 * partner page: a frequency-cap slider, a set of category chips kept as a
 * list, and a content-rating drop-down.
 */
module RulesFilters {

  const Categories: seq<string> := ["Games", "Tech", "Music", "Education", "Sports"]
  const Ratings: seq<string> := ["Everyone", "Teen", "Mature"]

  /** The slider's declared range and the cap it starts at. */
  const CapMin: int := 1
  const CapMax: int := 10
  const InitialCap: int := 2

  datatype Rules = Rules(cap: int, selected: seq<string>, rating: string)

  const Initial := Rules(InitialCap, ["Games"], "Everyone")

  datatype Control =
    | Slide(position: int)      // the slider moved; the browser sanitises the position
    | Chip(category: string)    // a category chip was clicked
    | Choose(option: nat)       // the drop-down's option with this index was chosen

  predicate Distinct(s: seq<string>)
  {
    forall i, j :: 0 <= i < j < |s| ==> s[i] != s[j]
  }

  /** `sel.filter(c => c !== cat)`. */
  function Remove(sel: seq<string>, cat: string): (r: seq<string>)
    ensures forall c :: c in r <==> c in sel && c != cat
    ensures |r| <= |sel|
    ensures cat !in sel ==> r == sel
    ensures Distinct(sel) ==> Distinct(r)
    decreases |sel|
  {
    if |sel| == 0 then []
    else
      var rest := Remove(sel[1..], cat);
      if sel[0] == cat then rest
      else
        DistinctCons(sel, rest);
        [sel[0]] + rest
  }

  /** Putting a list's head in front of a duplicate-free list drawn from its tail. */
  lemma DistinctCons(sel: seq<string>, rest: seq<string>)
    requires |sel| > 0
    requires forall c :: c in rest ==> c in sel[1..]
    requires Distinct(sel[1..]) ==> Distinct(rest)
    ensures Distinct(sel) ==> Distinct([sel[0]] + rest)
  {
    if Distinct(sel) {
      assert Distinct(sel[1..]) by {
        forall i, j | 0 <= i < j < |sel[1..]| ensures sel[1..][i] != sel[1..][j] {
          assert sel[1..][i] == sel[i + 1] && sel[1..][j] == sel[j + 1];
        }
      }
      assert sel[0] !in sel[1..] by {
        forall j | 0 <= j < |sel[1..]| ensures sel[1..][j] != sel[0] {
          assert sel[1..][j] == sel[j + 1];
        }
      }
      var t := [sel[0]] + rest;
      forall i, j | 0 <= i < j < |t| ensures t[i] != t[j] {
        if i == 0 {
          assert t[j] == rest[j - 1];
          assert t[j] in rest;
        } else {
          assert t[i] == rest[i - 1] && t[j] == rest[j - 1];
        }
      }
    }
  }

  /**
   * The chip handler: a present category is removed, an absent one appended;
   * every other category keeps its membership.
   */
  function Toggle(sel: seq<string>, cat: string): (r: seq<string>)
    ensures cat in r <==> cat !in sel
    ensures forall c :: c != cat ==> (c in r <==> c in sel)
    ensures cat !in sel ==> r == sel + [cat]
    ensures Distinct(sel) ==> Distinct(r)
  {
    if cat in sel then Remove(sel, cat) else sel + [cat]
  }

  /** Toggling a category twice restores every category's membership. */
  lemma ToggleTwiceRestoresMembership(sel: seq<string>, cat: string)
    ensures forall c :: c in Toggle(Toggle(sel, cat), cat) <==> c in sel
  {
  }

  /** Toggling an absent category twice restores the list exactly. */
  lemma ToggleTwiceAbsent(sel: seq<string>, cat: string)
    requires cat !in sel
    ensures Toggle(Toggle(sel, cat), cat) == sel
  {
    RemoveLast(sel, cat);
  }

  /** Toggling a present category twice moves it to the end of the list. */
  lemma ToggleTwicePresent(sel: seq<string>, cat: string)
    requires cat in sel
    ensures Toggle(Toggle(sel, cat), cat) == Remove(sel, cat) + [cat]
  {
  }

  /** Removing a category appended to a list that lacked it gives the list back. */
  lemma {:induction false} RemoveLast(sel: seq<string>, cat: string)
    requires cat !in sel
    ensures Remove(sel + [cat], cat) == sel
    decreases |sel|
  {
    if |sel| == 0 {
      assert Remove([cat], cat) == Remove([], cat);
    } else {
      assert (sel + [cat])[1..] == sel[1..] + [cat];
      RemoveLast(sel[1..], cat);
    }
  }

  /** The browser's value sanitisation for a range input with min 1 and max 10. */
  function SliderValue(position: int): (v: int)
    ensures CapMin <= v <= CapMax
    ensures CapMin <= position <= CapMax ==> v == position
    ensures position < CapMin ==> v == CapMin
    ensures position > CapMax ==> v == CapMax
  {
    if position < CapMin then CapMin else if position > CapMax then CapMax else position
  }

  /** The drop-down reports only one of its options. */
  predicate ValidControl(c: Control)
  {
    c.Choose? ==> c.option < |Ratings|
  }

  function Apply(r: Rules, c: Control): (r': Rules)
    requires ValidControl(c)
    ensures c.Slide? ==> r'.cap == SliderValue(c.position)
    ensures c.Chip? ==> r'.selected == Toggle(r.selected, c.category)
    ensures c.Choose? ==> r'.rating in Ratings && r'.rating == Ratings[c.option]
    ensures !c.Slide? ==> r'.cap == r.cap
    ensures !c.Chip? ==> r'.selected == r.selected
    ensures !c.Choose? ==> r'.rating == r.rating
  {
    match c
    case Slide(p) => r.(cap := SliderValue(p))
    case Chip(cat) => r.(selected := Toggle(r.selected, cat))
    case Choose(k) => r.(rating := Ratings[k])
  }

  /**
   * What holds of the demo's state whenever chips are clicked only among the
   * rendered categories: the cap lies in the slider's range, the selection is a
   * duplicate-free list of offered categories, and the rating is an offered one.
   */
  predicate Inv(r: Rules)
  {
    && CapMin <= r.cap <= CapMax
    && Distinct(r.selected)
    && (forall c :: c in r.selected ==> c in Categories)
    && r.rating in Ratings
  }

  /** A control that a rendered element can produce. */
  predicate Rendered(c: Control)
  {
    ValidControl(c) && (c.Chip? ==> c.category in Categories)
  }

  lemma InitialSatisfiesInv()
    ensures Inv(Initial)
  {
  }

  lemma ApplyPreservesInv(r: Rules, c: Control)
    requires Inv(r) && Rendered(c)
    ensures Inv(Apply(r, c))
  {
  }

  predicate AllRendered(cs: seq<Control>)
  {
    forall j :: 0 <= j < |cs| ==> Rendered(cs[j])
  }

  /** Replays controls in order, keeping the invariant. */
  function Run(r: Rules, cs: seq<Control>): (r': Rules)
    requires AllRendered(cs)
    ensures Inv(r) ==> Inv(r')
    decreases |cs|
  {
    if |cs| == 0 then r
    else
      assert Rendered(cs[0]);
      Run(Apply(r, cs[0]), cs[1..])
  }

  /** From the initial state any session keeps the invariant. */
  lemma SessionSatisfiesInv(cs: seq<Control>)
    requires AllRendered(cs)
    ensures Inv(Run(Initial, cs))
    ensures |Run(Initial, cs).selected| <= |Categories|
  {
    var sel := Run(Initial, cs).selected;
    DistinctSubsetIsShort(sel, Categories);
  }

  /** A duplicate-free list drawn from `universe` is no longer than it. */
  lemma DistinctSubsetIsShort(s: seq<string>, universe: seq<string>)
    requires Distinct(s) && forall c :: c in s ==> c in universe
    ensures |s| <= |universe|
  {
    var S := set c | c in s;
    var U := set c | c in universe;
    assert S <= U;
    SetSizeOfDistinct(s);
    SetSizeBound(universe);
    assert |S| <= |U| by {
      SubsetSize(S, U);
    }
  }

  lemma {:induction false} SetSizeOfDistinct(s: seq<string>)
    requires Distinct(s)
    ensures |set c | c in s| == |s|
    decreases |s|
  {
    if |s| > 0 {
      SetSizeOfDistinct(s[1..]);
      assert (set c | c in s) == (set c | c in s[1..]) + {s[0]};
      assert s[0] !in (set c | c in s[1..]);
    }
  }

  lemma {:induction false} SetSizeBound(s: seq<string>)
    ensures |set c | c in s| <= |s|
    decreases |s|
  {
    if |s| > 0 {
      SetSizeBound(s[1..]);
      assert (set c | c in s) == (set c | c in s[1..]) + {s[0]};
    }
  }

  lemma SubsetSize(a: set<string>, b: set<string>)
    requires a <= b
    ensures |a| <= |b|
  {
    assert b == a + (b - a);
  }
}
