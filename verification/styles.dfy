/** Style primitives, style groups and the built-in group registry.

    A `Style` is one named, mutually exclusive setting with its SGR codes.
    Python compares styles by object identity, so every style carries an `id`:
    two styles are the same object exactly when they are equal as values. */
module Styles {

  datatype Style = Style(id: nat, name: string, group: string, codes: seq<nat>)

  /** A group of mutually exclusive styles with its dedicated reset style. */
  datatype Group = Group(name: string, styles: seq<Style>, reset: Style)

  const BackReset: Style := Style(1, "reset", "Back", [49])
  const ForeReset: Style := Style(2, "reset", "Fore", [39])
  const StyleReset: Style := Style(3, "reset", "Style", [0])
  const BlinkSlow: Style := Style(4, "slow", "Blink", [5])
  const BlinkRapid: Style := Style(5, "rapid", "Blink", [6])
  const BlinkReset: Style := Style(6, "reset", "Blink", [25])

  /** The registry, in the insertion order of the Python dict: every walk over
      the groups (in particular the diff of two sheets) follows this order. */
  const Groups: seq<Group> := [
    Group("Back", [BackReset], BackReset),
    Group("Fore", [ForeReset], ForeReset),
    Group("Style", [StyleReset], StyleReset),
    Group("Blink", [BlinkSlow, BlinkRapid, BlinkReset], BlinkReset)
  ]

  /** No two groups share a name (the registry is keyed by name). */
  predicate DistinctNames(gs: seq<Group>) {
    forall i, j | 0 <= i < j < |gs| :: gs[i].name != gs[j].name
  }

  /** The position of the group called `n` in `gs`, or `|gs|` when there is
      none (a registry lookup by name). */
  function IndexOfName(gs: seq<Group>, n: string): (r: nat)
    ensures r <= |gs|
    ensures r < |gs| ==> gs[r].name == n
    ensures forall i | 0 <= i < r :: gs[i].name != n
  {
    if |gs| == 0 then 0
    else if gs[0].name == n then 0
    else 1 + IndexOfName(gs[1..], n)
  }

  lemma {:induction false} IndexOfOwnName(gs: seq<Group>, i: nat)
    requires DistinctNames(gs) && i < |gs|
    ensures IndexOfName(gs, gs[i].name) == i
  {
  }

  /** Every member points back to its group and the reset is a member. */
  predicate WellFormedGroup(g: Group) {
    && g.reset in g.styles
    && forall k | 0 <= k < |g.styles| :: g.styles[k].group == g.name
  }

  predicate WellFormedRegistry(gs: seq<Group>) {
    && DistinctNames(gs)
    && forall i | 0 <= i < |gs| :: WellFormedGroup(gs[i])
  }

  /** The built-in registry holds four distinct groups, each owning its reset. */
  lemma BuiltinRegistryWellFormed()
    ensures WellFormedRegistry(Groups)
    ensures |Groups| == 4
    ensures forall i | 0 <= i < |Groups| :: Groups[i].reset.group == Groups[i].name
  {
  }
}
