/** The visibility wrapper of lib/responsive/Responsive.tsx: a component that
    keeps a stored visibility flag and a stored viewport width, and re-decides
    visibility from its `hiddenFrom`/`visibleFrom` props, the breakpoint
    record and the width whenever one of them changes. */
module ResponsiveComponent {
  import opened Wrappers
  import opened Utils
  import opened ResponsiveProvider

  /** A prop counts as given when it is defined and truthy: `undefined` and
      the empty string are both treated as absent. */
  function IsGiven(prop: Option<string>): (ok: bool)
    ensures ok <==> prop != None && prop != Some("")
  {
    prop.Some? && prop.value != ""
  }

  /** A given prop that names no breakpoint. */
  function IsWrong(prop: Option<string>): (ok: bool)
    ensures ok <==> prop.Some? && prop.value !in BreakPointNames + {""}
  {
    IsGiven(prop) && !IsCorrectBreakPoint(prop.value)
  }

  /** The condition `hiddenFrom` imposes: absent, or its threshold reaches the
      width (equality still shows the content, the comparison being strict). */
  predicate HiddenFromAllows(bp: BreakPoints, width: int, hiddenFrom: Option<string>)
    requires !IsWrong(hiddenFrom)
  {
    IsGiven(hiddenFrom) ==> Lookup(bp, hiddenFrom.value) >= width
  }

  /** The condition `visibleFrom` imposes: absent, or the width reaches its
      threshold. */
  predicate VisibleFromAllows(bp: BreakPoints, width: int, visibleFrom: Option<string>)
    requires !IsWrong(visibleFrom)
  {
    IsGiven(visibleFrom) ==> Lookup(bp, visibleFrom.value) <= width
  }

  /** One run of the visibility effect as a value: `None` when it stops early
      on a wrong name (the stored flag is then left as it was), otherwise the
      flag it stores. The body follows the effect's order of evaluation:
      `hiddenFrom` is examined first, `visibleFrom` second. */
  function Decide(bp: BreakPoints, width: int, hiddenFrom: Option<string>, visibleFrom: Option<string>)
    : (r: Option<bool>)
    ensures r == None <==> IsWrong(hiddenFrom) || IsWrong(visibleFrom)
    ensures r != None ==>
      (r.value <==> HiddenFromAllows(bp, width, hiddenFrom) && VisibleFromAllows(bp, width, visibleFrom))
  {
    var afterHidden :=
      if !IsGiven(hiddenFrom) then Some(true)
      else if !IsCorrectBreakPoint(hiddenFrom.value) then None
      else Some(!(Lookup(bp, hiddenFrom.value) < width));
    match afterHidden
    case None => None
    case Some(visible) =>
      if !IsGiven(visibleFrom) then Some(visible)
      else if !IsCorrectBreakPoint(visibleFrom.value) then None
      else if Lookup(bp, visibleFrom.value) > width then Some(false)
      else Some(visible)
  }

  /** The stored flag after one run of the effect that started from `previous`. */
  function Step(previous: bool, bp: BreakPoints, width: int, hiddenFrom: Option<string>, visibleFrom: Option<string>)
    : (next: bool)
    ensures IsWrong(hiddenFrom) || IsWrong(visibleFrom) ==> next == previous
    ensures !IsWrong(hiddenFrom) && !IsWrong(visibleFrom) ==>
      (next <==> HiddenFromAllows(bp, width, hiddenFrom) && VisibleFromAllows(bp, width, visibleFrom))
  {
    match Decide(bp, width, hiddenFrom, visibleFrom)
    case None => previous
    case Some(visible) => visible
  }

  /** With neither prop given the content is shown. */
  lemma NoPropsVisible(bp: BreakPoints, width: int, hiddenFrom: Option<string>, visibleFrom: Option<string>)
    requires !IsGiven(hiddenFrom) && !IsGiven(visibleFrom)
    ensures Decide(bp, width, hiddenFrom, visibleFrom) == Some(true)
  {
  }

  /** With only a valid `hiddenFrom = b`, the content is shown iff `bp[b] >= width`. */
  lemma HiddenFromOnly(bp: BreakPoints, width: int, b: string)
    requires IsCorrectBreakPoint(b)
    ensures Decide(bp, width, Some(b), None) == Some(Lookup(bp, b) >= width)
  {
  }

  /** With only a valid `visibleFrom = b`, the content is shown iff `bp[b] <= width`. */
  lemma VisibleFromOnly(bp: BreakPoints, width: int, b: string)
    requires IsCorrectBreakPoint(b)
    ensures Decide(bp, width, None, Some(b)) == Some(Lookup(bp, b) <= width)
  {
  }

  /** With both props valid, the content is shown iff both conditions hold. */
  lemma BothPropsConjoin(bp: BreakPoints, width: int, h: string, v: string)
    requires IsCorrectBreakPoint(h) && IsCorrectBreakPoint(v)
    ensures Decide(bp, width, Some(h), Some(v)) == Some(Lookup(bp, h) >= width && Lookup(bp, v) <= width)
  {
  }

  /** A wrong `hiddenFrom` abandons the run whatever `visibleFrom` is: the
      second prop is never examined. */
  lemma WrongHiddenFromAborts(bp: BreakPoints, width: int, hiddenFrom: Option<string>)
    requires IsWrong(hiddenFrom)
    ensures forall visibleFrom :: Decide(bp, width, hiddenFrom, visibleFrom) == None
  {
  }

  /** A valid `hiddenFrom` that would hide, followed by a wrong `visibleFrom`,
      still leaves the stored flag at its previous value: the local `false`
      is discarded. */
  lemma HidingDiscardedOnWrongVisibleFrom(previous: bool, bp: BreakPoints, width: int, h: string, visibleFrom: Option<string>)
    requires IsCorrectBreakPoint(h) && Lookup(bp, h) < width
    requires IsWrong(visibleFrom)
    ensures Step(previous, bp, width, Some(h), visibleFrom) == previous
  {
  }

  /** The empty string is treated as an absent prop, not as a wrong name. */
  lemma EmptyPropIsAbsent(bp: BreakPoints, width: int, hiddenFrom: Option<string>, visibleFrom: Option<string>)
    ensures Decide(bp, width, Some(""), visibleFrom) == Decide(bp, width, None, visibleFrom)
    ensures Decide(bp, width, hiddenFrom, Some("")) == Decide(bp, width, hiddenFrom, None)
  {
  }

  /** The stored flag after the effect has run once per width in `widths`,
      in order, with the props and the record held fixed. One more resize
      takes the flag one `Step` on from where the earlier ones left it. */
  function AfterResizes(previous: bool, bp: BreakPoints, hiddenFrom: Option<string>, visibleFrom: Option<string>, widths: seq<int>)
    : (r: bool)
    ensures widths != [] ==>
      r == Step(AfterResizes(previous, bp, hiddenFrom, visibleFrom, widths[..|widths| - 1]),
                bp, widths[|widths| - 1], hiddenFrom, visibleFrom)
    decreases |widths|
  {
    if widths == [] then previous
    else
      assert |widths| > 1 ==> widths[..|widths| - 1][1..] == widths[1..][..|widths| - 2];
      AfterResizes(Step(previous, bp, widths[0], hiddenFrom, visibleFrom), bp, hiddenFrom, visibleFrom, widths[1..])
  }

  /** With valid props, only the last width matters: the flag is what the
      rule says for it, whatever came before. */
  lemma AfterResizesFollowsLastWidth(previous: bool, bp: BreakPoints, hiddenFrom: Option<string>, visibleFrom: Option<string>, widths: seq<int>)
    requires !IsWrong(hiddenFrom) && !IsWrong(visibleFrom)
    requires widths != []
    ensures AfterResizes(previous, bp, hiddenFrom, visibleFrom, widths) ==
      (HiddenFromAllows(bp, widths[|widths| - 1], hiddenFrom) && VisibleFromAllows(bp, widths[|widths| - 1], visibleFrom))
  {
    // The last resize is one `Step`, and with valid props a `Step` forgets the flag it starts from.
  }

  /** With a wrong prop, no resize ever changes the flag. Since the flag
      starts visible, a component whose prop is wrong from mount shows its
      content for good; one switched to a wrong prop later keeps whatever
      flag it had at that moment. */
  lemma {:induction false} AfterResizesFrozenOnWrongProp(previous: bool, bp: BreakPoints, hiddenFrom: Option<string>, visibleFrom: Option<string>, widths: seq<int>)
    requires IsWrong(hiddenFrom) || IsWrong(visibleFrom)
    ensures AfterResizes(previous, bp, hiddenFrom, visibleFrom, widths) == previous
    decreases |widths|
  {
    if widths != [] {
      AfterResizesFrozenOnWrongProp(previous, bp, hiddenFrom, visibleFrom, widths[1..]);
    }
  }

  /** Running the effect a second time with the same inputs changes nothing. */
  lemma StepIdempotent(previous: bool, bp: BreakPoints, width: int, hiddenFrom: Option<string>, visibleFrom: Option<string>)
    ensures var once := Step(previous, bp, width, hiddenFrom, visibleFrom);
      Step(once, bp, width, hiddenFrom, visibleFrom) == once
  {
  }

  /** Worked examples on the default record. */
  lemma DefaultScenarios()
    ensures Decide(DefaultBreakPoints, 1000, Some("md"), None) == Some(false)
    ensures Decide(DefaultBreakPoints, 1000, Some("lg"), None) == Some(true)
    ensures Decide(DefaultBreakPoints, 1300, None, Some("lg")) == Some(true)
    ensures Decide(DefaultBreakPoints, 1300, None, Some("xl")) == Some(false)
  {
  }

  /** One mounted instance of the component. */
  class Responsive {
    /** The `isVisible` state. */
    var isVisible: bool
    /** The `windowWidth` state. */
    var windowWidth: int
    /** The props and the context value the effect depends on. */
    var hiddenFrom: Option<string>
    var visibleFrom: Option<string>
    var breakpoints: BreakPoints

    /** The first render: visible, with the width the window had at mount. */
    constructor (breakpoints: BreakPoints, hiddenFrom: Option<string>, visibleFrom: Option<string>, innerWidth: int)
      ensures isVisible
      ensures windowWidth == innerWidth
      ensures this.breakpoints == breakpoints
      ensures this.hiddenFrom == hiddenFrom && this.visibleFrom == visibleFrom
    {
      isVisible := true;
      windowWidth := innerWidth;
      this.breakpoints := breakpoints;
      this.hiddenFrom := hiddenFrom;
      this.visibleFrom := visibleFrom;
    }

    /** The visibility effect: a local flag starts true, each given prop is
        validated and may clear it, and only a run that reaches the end
        stores it. */
    method Recompute()
      modifies this`isVisible
      ensures Decide(breakpoints, windowWidth, hiddenFrom, visibleFrom) == None ==> isVisible == old(isVisible)
      ensures Decide(breakpoints, windowWidth, hiddenFrom, visibleFrom) != None ==>
        isVisible == Decide(breakpoints, windowWidth, hiddenFrom, visibleFrom).value
    {
      var visible := true;

      if IsGiven(hiddenFrom) {
        if !IsCorrectBreakPoint(hiddenFrom.value) {
          return;
        }
        if Lookup(breakpoints, hiddenFrom.value) < windowWidth {
          visible := false;
        }
      }

      if IsGiven(visibleFrom) {
        if !IsCorrectBreakPoint(visibleFrom.value) {
          return;
        }
        if Lookup(breakpoints, visibleFrom.value) > windowWidth {
          visible := false;
        }
      }

      isVisible := visible;
    }

    /** A resize notification: store the new width, then the effect that
        depends on the width runs. The props and the record are untouched. */
    method Resize(innerWidth: int)
      modifies this`isVisible, this`windowWidth
      ensures windowWidth == innerWidth
      ensures isVisible == Step(old(isVisible), breakpoints, innerWidth, hiddenFrom, visibleFrom)
    {
      windowWidth := innerWidth;
      Recompute();
    }

    /** A re-render with new props or a new context value, after which the
        effect runs. The width is untouched. */
    method Rerender(breakpoints: BreakPoints, hiddenFrom: Option<string>, visibleFrom: Option<string>)
      modifies this`isVisible, this`breakpoints, this`hiddenFrom, this`visibleFrom
      ensures this.breakpoints == breakpoints
      ensures this.hiddenFrom == hiddenFrom && this.visibleFrom == visibleFrom
      ensures isVisible == Step(old(isVisible), breakpoints, windowWidth, hiddenFrom, visibleFrom)
    {
      this.breakpoints := breakpoints;
      this.hiddenFrom := hiddenFrom;
      this.visibleFrom := visibleFrom;
      Recompute();
    }

    /** The render: the children (wrapped in the host element) when visible,
        nothing otherwise. */
    function Render<T>(children: T): (element: Option<T>)
      reads this
      ensures element != None <==> isVisible
      ensures element != None ==> element.value == children
    {
      if isVisible then Some(children) else None
    }
  }

  /** A resize across a threshold: with `hiddenFrom = "lg"` on the default
      record the content is shown at width 1000 (1200 >= 1000) and hidden
      after a resize to 1300 (1200 < 1300). */
  method ResizeScenario() returns (before: bool, after: bool)
    ensures before && !after
  {
    var r := new Responsive(DefaultBreakPoints, Some("lg"), None, 1000);
    r.Recompute();
    before := r.isVisible;
    r.Resize(1300);
    after := r.isVisible;
  }
}
