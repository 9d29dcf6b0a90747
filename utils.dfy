/** The breakpoint-name validator of lib/utils/isCorrectBreakPoint.ts. */
module Utils {

  /** The six names the validator accepts. */
  const BreakPointNames: set<string> := {"xs", "sm", "md", "lg", "xl", "xxl"}

  /** True exactly when `breakpoint` is one of the six recognised names.
      The comparison is exact string equality: no trimming, no case folding. */
  function IsCorrectBreakPoint(breakpoint: string): (ok: bool)
    ensures ok <==> breakpoint in BreakPointNames
  {
    breakpoint == "xs" || breakpoint == "sm" || breakpoint == "md" ||
    breakpoint == "lg" || breakpoint == "xl" || breakpoint == "xxl"
  }

  /** Every one of the six names is accepted. */
  lemma AcceptsEveryName()
    ensures IsCorrectBreakPoint("xs") && IsCorrectBreakPoint("sm") && IsCorrectBreakPoint("md")
    ensures IsCorrectBreakPoint("lg") && IsCorrectBreakPoint("xl") && IsCorrectBreakPoint("xxl")
  {
  }

  /** Matching is exact and case-sensitive: an upper-case name, a name with a
      trailing space and the empty string are all rejected. */
  lemma RejectsNearMisses()
    ensures !IsCorrectBreakPoint("XS")
    ensures !IsCorrectBreakPoint("md ")
    ensures !IsCorrectBreakPoint("")
  {
  }

  /** The six names are pairwise distinct, so exactly six strings are accepted. */
  lemma ExactlySixNames()
    ensures |BreakPointNames| == 6
  {
  }
}
