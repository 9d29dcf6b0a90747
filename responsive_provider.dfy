/** The breakpoint registry of lib/responsive-provider/ResponsiveProvider.tsx:
    the `BreakPoints` record, the context's default value, and the provider
    that hands its `breakpoints` prop to every descendant. */
module ResponsiveProvider {
  import opened Wrappers
  import opened Utils

  /** One pixel threshold per breakpoint name. Nothing orders the six values
      or forbids negative ones: the provider does not validate the record. */
  datatype BreakPoints = BreakPoints(xs: int, sm: int, md: int, lg: int, xl: int, xxl: int)

  /** `breakpoints[name]`, the indexing the component performs; only a name
      the validator accepts may be looked up, and it finds the value the
      dictionary view holds under that key. */
  function Lookup(bp: BreakPoints, name: string): (v: int)
    requires IsCorrectBreakPoint(name)
    ensures name in AsMap(bp) && AsMap(bp)[name] == v
  {
    if name == "xs" then bp.xs
    else if name == "sm" then bp.sm
    else if name == "md" then bp.md
    else if name == "lg" then bp.lg
    else if name == "xl" then bp.xl
    else bp.xxl
  }

  /** The record seen as the object it is at run time: a dictionary whose keys
      are exactly the six names. */
  function AsMap(bp: BreakPoints): (m: map<string, int>)
    ensures m.Keys == BreakPointNames
  {
    map["xs" := bp.xs, "sm" := bp.sm, "md" := bp.md, "lg" := bp.lg, "xl" := bp.xl, "xxl" := bp.xxl]
  }

  /** Two records that agree on every valid name are the same record: the six
      keys are all a `BreakPoints` value carries. */
  lemma LookupDetermines(a: BreakPoints, b: BreakPoints)
    requires forall name :: IsCorrectBreakPoint(name) ==> Lookup(a, name) == Lookup(b, name)
    ensures a == b
  {
    assert Lookup(a, "xs") == Lookup(b, "xs");
    assert Lookup(a, "sm") == Lookup(b, "sm");
    assert Lookup(a, "md") == Lookup(b, "md");
    assert Lookup(a, "lg") == Lookup(b, "lg");
    assert Lookup(a, "xl") == Lookup(b, "xl");
    assert Lookup(a, "xxl") == Lookup(b, "xxl");
  }

  /** The value the context holds when no provider is above a consumer. */
  const DefaultBreakPoints: BreakPoints := BreakPoints(480, 768, 992, 1200, 1600, 1920)

  /** The six thresholds in strictly increasing order from `xs` to `xxl`. */
  predicate Ascending(bp: BreakPoints)
  {
    bp.xs < bp.sm < bp.md < bp.lg < bp.xl < bp.xxl
  }

  /** The default record holds the documented values, and they happen to be
      strictly increasing (a fact about the constants, not an invariant that
      anything enforces). */
  lemma DefaultValues()
    ensures Lookup(DefaultBreakPoints, "xs") == 480 && Lookup(DefaultBreakPoints, "sm") == 768
    ensures Lookup(DefaultBreakPoints, "md") == 992 && Lookup(DefaultBreakPoints, "lg") == 1200
    ensures Lookup(DefaultBreakPoints, "xl") == 1600 && Lookup(DefaultBreakPoints, "xxl") == 1920
    ensures Ascending(DefaultBreakPoints)
  {
  }

  /** What a consumer reads from the context: the `breakpoints` prop of the
      nearest provider above it, or the default record when there is none. */
  function ContextValue(nearestProvider: Option<BreakPoints>): (bp: BreakPoints)
    ensures nearestProvider == None ==> bp == DefaultBreakPoints
    ensures nearestProvider != None ==> bp == nearestProvider.value
  {
    match nearestProvider
    case None => DefaultBreakPoints
    case Some(provided) => provided
  }

  /** Below a provider, every consumer sees exactly the record it was given,
      whatever its values: nothing validates it, so an unordered record is
      passed on as it is. */
  lemma ProviderPassesThrough(breakpoints: BreakPoints)
    ensures forall name :: IsCorrectBreakPoint(name) ==>
      Lookup(ContextValue(Some(breakpoints)), name) == Lookup(breakpoints, name)
    ensures !Ascending(breakpoints) ==> !Ascending(ContextValue(Some(breakpoints)))
  {
  }
}
