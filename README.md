# responsive-component, modelled in Dafny

The repository is a small React utility. A provider hands a record of six
named pixel thresholds (`xs`, `sm`, `md`, `lg`, `xl`, `xxl`) to its
descendants, with a documented default record when no provider is present.
A `Responsive` wrapper keeps two pieces of state, `isVisible` (initially
true) and the window width. It re-decides visibility whenever its
`hiddenFrom`/`visibleFrom` props, the record or the width change: a valid
`hiddenFrom` hides the content once the width exceeds its threshold, a
valid `visibleFrom` hides it while the width is below its threshold, and a
prop that names no breakpoint abandons the evaluation, leaving the previous
`isVisible` in place. A one-line validator decides which strings are
breakpoint names.

The project:

- `wrappers.dfy` (module `Wrappers`): the `Option` type.
- `utils.dfy` (module `Utils`): the validator `IsCorrectBreakPoint` and the set of six names.
- `responsive_provider.dfy` (module `ResponsiveProvider`): the `BreakPoints`
  record, lookup by name, the record as a dictionary, the default record and
  the context value a consumer sees.
- `responsive.dfy` (module `ResponsiveComponent`): the decision rule as a
  pure function `Decide` (`None` means "abandoned, keep the previous flag"),
  the state step `Step`, a run of resizes `AfterResizes`, and the class
  `Responsive`, whose `Recompute` is the effect written out with its early
  returns and proved to agree with `Decide`.

Props are `Option<string>`: `None` is an `undefined` prop and `Some("")` the
empty string; both are falsy in the source and so both count as absent
(`IsGiven`). Lookups (`Lookup`) are only allowed on names the validator
accepts. Pixel values and widths are unbounded integers.

With `hiddenFrom = "lg"` on the default record, a resize from 1000 to 1300
hides the content, because `1200 < 1300` holds; `ResizeScenario` proves it
visible before and hidden after.

## Model

| member | source | states |
|---|---|---|
| `Utils.IsCorrectBreakPoint` | lib/utils/isCorrectBreakPoint.ts:1-3 | total predicate; holds exactly for members of the six-name set |
| `Utils.AcceptsEveryName` | lib/utils/isCorrectBreakPoint.ts:2 | each of `xs`, `sm`, `md`, `lg`, `xl`, `xxl` is accepted |
| `Utils.RejectsNearMisses` | lib/utils/isCorrectBreakPoint.ts:2 | matching is exact and case-sensitive: `XS`, `md ` and the empty string are rejected |
| `Utils.ExactlySixNames` | lib/utils/isCorrectBreakPoint.ts:2 | the six names are distinct, so exactly six strings are accepted |
| `ResponsiveProvider.AsMap` | lib/responsive-provider/ResponsiveProvider.tsx:7-14 | a record, seen as a dictionary, has exactly the six keys |
| `ResponsiveProvider.Lookup` | lib/responsive/Responsive.tsx:47-59 | `breakpoints[name]` is only taken for a valid name and finds the dictionary's value under that key; `LookupDetermines` shows the six lookups fix the record |
| `ResponsiveProvider.LookupDetermines` | lib/responsive-provider/ResponsiveProvider.tsx:7-14 | a record is determined by its six lookups; it carries nothing else |
| `ResponsiveProvider.DefaultValues` | lib/responsive-provider/ResponsiveProvider.tsx:21-28 | the default record is 480, 768, 992, 1200, 1600, 1920 and strictly increasing |
| `ResponsiveProvider.ContextValue` | lib/responsive-provider/ResponsiveProvider.tsx:21-35 | a consumer sees the nearest provider's record unchanged, or the default when there is no provider |
| `ResponsiveProvider.ProviderPassesThrough` | lib/responsive-provider/ResponsiveProvider.tsx:30-35 | below a provider every lookup gives the provided value; an unordered record stays unordered |
| `ResponsiveComponent.IsGiven` | lib/responsive/Responsive.tsx:40-52 | a prop is taken into account iff it is neither `undefined` nor the empty string (JavaScript truthiness); `EmptyPropIsAbsent` shows `""` decides like an absent prop |
| `ResponsiveComponent.IsWrong` | lib/responsive/Responsive.tsx:40-54 | a prop aborts the effect iff it is a non-empty string outside the six names |
| `ResponsiveComponent.Decide` | lib/responsive/Responsive.tsx:37-64 | abandoned iff a given prop is not a breakpoint name; otherwise visible iff `bp[hiddenFrom] >= width` (when given) and `bp[visibleFrom] <= width` (when given) |
| `ResponsiveComponent.Step` | lib/responsive/Responsive.tsx:42-64 | a wrong prop leaves the stored flag unchanged; otherwise the flag becomes the conjunction of both conditions |
| `ResponsiveComponent.NoPropsVisible` | lib/responsive/Responsive.tsx:38-64 | with neither prop given the result is visible |
| `ResponsiveComponent.HiddenFromOnly` | lib/responsive/Responsive.tsx:40-50 | with only a valid `hiddenFrom = b`, visible iff `bp[b] >= width` |
| `ResponsiveComponent.VisibleFromOnly` | lib/responsive/Responsive.tsx:52-62 | with only a valid `visibleFrom = b`, visible iff `bp[b] <= width` |
| `ResponsiveComponent.BothPropsConjoin` | lib/responsive/Responsive.tsx:38-64 | with both props valid, visible iff both conditions hold |
| `ResponsiveComponent.WrongHiddenFromAborts` | lib/responsive/Responsive.tsx:42-45 | a wrong `hiddenFrom` abandons the run whatever `visibleFrom` is |
| `ResponsiveComponent.HidingDiscardedOnWrongVisibleFrom` | lib/responsive/Responsive.tsx:47-57 | a hiding `hiddenFrom` followed by a wrong `visibleFrom` keeps the previous flag |
| `ResponsiveComponent.EmptyPropIsAbsent` | lib/responsive/Responsive.tsx:40-52 | an empty-string prop decides like an absent one |
| `ResponsiveComponent.AfterResizes` | lib/responsive/Responsive.tsx:26-66 | the flag after a run of resizes: each further resize takes it one `Step` on from where the earlier ones left it, as `Resize` does on the class |
| `ResponsiveComponent.AfterResizesFollowsLastWidth` | lib/responsive/Responsive.tsx:26-66 | with valid props, after any non-empty run of resizes the flag is the rule applied to the last width |
| `ResponsiveComponent.AfterResizesFrozenOnWrongProp` | lib/responsive/Responsive.tsx:26-66 | with a wrong prop, no run of resizes changes the flag; so a prop wrong from mount keeps the initial visible flag for good |
| `ResponsiveComponent.StepIdempotent` | lib/responsive/Responsive.tsx:37-66 | re-running the effect on unchanged inputs changes nothing |
| `ResponsiveComponent.DefaultScenarios` | lib/responsive/Responsive.tsx:47-62 | on the default record: width 1000 hides for `md`, shows for `lg`; width 1300 shows for `visibleFrom = lg`, hides for `xl` |
| `ResponsiveComponent.Responsive.constructor` | lib/responsive/Responsive.tsx:18-20 | the initial state is visible, with the width read at mount |
| `ResponsiveComponent.Responsive.Recompute` | lib/responsive/Responsive.tsx:37-66 | the stored flag becomes the value `Decide` gives, or stays as it was when `Decide` abandons |
| `ResponsiveComponent.Responsive.Resize` | lib/responsive/Responsive.tsx:26-66 | the stored width becomes the new width and the flag takes one `Step`; props and record are untouched |
| `ResponsiveComponent.Responsive.Rerender` | lib/responsive/Responsive.tsx:37-66 | new props or record are stored and the flag takes one `Step`; the width is untouched |
| `ResponsiveComponent.Responsive.Render` | lib/responsive/Responsive.tsx:68-72 | the children are produced iff the stored flag is set |
| `ResponsiveComponent.ResizeScenario` | lib/responsive/Responsive.tsx:18-66 | with `hiddenFrom = "lg"` on the default record: visible at width 1000, hidden after a resize to 1300 |

## Left out

- The host element (`as`, default `div`) and the forwarding of the remaining props to it: view-layer output; `Render` only says whether the children are produced.
- Context mechanics (`createContext`, `useContext`, `Provider`): the record is an explicit value; `ContextValue` models only the fallback to the default.
- `window.innerWidth` and the `resize` listener subscription and removal: host I/O and lifecycle; the width read is a parameter of the constructor and of `Resize`.
- React's scheduling (an effect runs after render, only when a dependency changed): `Recompute` is called explicitly; `StepIdempotent` shows that an extra run is harmless.
- The `console.error` diagnostics and the `!breakpoints` check: output only, and a `BreakPoints` value is always present in the model.
- Breakpoint values and widths as JavaScript floating-point numbers (fractions, `NaN`): modelled as integers.
- A height axis: the code compares only the width.
