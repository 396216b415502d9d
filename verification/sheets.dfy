/** Sheets: the active style per group at one point of the text.

    A sheet maps a group name to a style. In a node of a rich string, a group
    the sheet does not mention keeps the style of the enclosing nodes (see
    `Merge`); when two complete sheets are compared, a group one of them does
    not mention counts as being at its reset, so the value compared is the
    effective one, `Eff`. */
module Sheets {
  import opened Styles

  type Sheet = map<string, Style>

  /** The effective style of group `g` under `s`. */
  function Eff(s: Sheet, g: Group): Style {
    if g.name in s then s[g.name] else g.reset
  }

  /** Two sheets put every registry group in the same state. */
  predicate EffEq(a: Sheet, b: Sheet) {
    forall i | 0 <= i < |Groups| :: Eff(a, Groups[i]) == Eff(b, Groups[i])
  }

  /** Every entry's style belongs to the group named by its key. */
  predicate WellKeyed(s: Sheet) {
    forall k | k in s :: s[k].group == k
  }

  /** One step of a patch: make `style` the active style of `group`. */
  datatype Change = Change(group: Group, style: Style)

  /** `a | b` and `a + b`: a right-biased merge, entries of `b` win. */
  function Merge(a: Sheet, b: Sheet): (r: Sheet)
    ensures r.Keys == a.Keys + b.Keys
    ensures forall k | k in b :: r[k] == b[k]
    ensures forall k | k in a && k !in b :: r[k] == a[k]
  {
    a + b
  }

  /** The effective value after a merge is the overlay's entry if it has one,
      and the base's effective value otherwise; a merge keeps well-keyedness. */
  lemma MergeEffective(a: Sheet, b: Sheet)
    ensures forall g: Group :: Eff(Merge(a, b), g) == if g.name in b then b[g.name] else Eff(a, g)
    ensures WellKeyed(a) && WellKeyed(b) ==> WellKeyed(Merge(a, b))
  {
  }

  /** `Sheet(None)`: every group of `gs`, in order, set to its reset. */
  function ResetsOf(gs: seq<Group>): (r: Sheet)
    ensures r.Keys == set i | 0 <= i < |gs| :: gs[i].name
  {
    if |gs| == 0 then map[]
    else ResetsOf(gs[..|gs| - 1])[gs[|gs| - 1].name := gs[|gs| - 1].reset]
  }

  /** Over distinct names every group is set to its own reset. */
  lemma {:induction false} ResetsOfValue(gs: seq<Group>, i: nat)
    requires DistinctNames(gs) && i < |gs|
    ensures ResetsOf(gs)[gs[i].name] == gs[i].reset
    decreases |gs|
  {
    var n := |gs| - 1;
    if i < n {
      var init := gs[..n];
      assert DistinctNames(init);
      assert init[i] == gs[i] && gs[i].name != gs[n].name;
      ResetsOfValue(init, i);
    }
  }

  const AllReset: Sheet := ResetsOf(Groups)

  /** The all-reset sheet and the empty sheet put every group at its reset,
      so the two are interchangeable wherever effective values are compared. */
  lemma AllResetIsEmptyEffectively()
    ensures forall i | 0 <= i < |Groups| :: Eff(AllReset, Groups[i]) == Groups[i].reset
    ensures EffEq(AllReset, map[])
    ensures WellKeyed(AllReset)
  {
    BuiltinRegistryWellFormed();
    forall i | 0 <= i < |Groups| ensures AllReset[Groups[i].name] == Groups[i].reset {
      ResetsOfValue(Groups, i);
    }
  }

  /** The change for one group: nothing when its effective value is the same. */
  function ChangeFor(g: Group, before: Sheet, after: Sheet): seq<Change> {
    if Eff(before, g) != Eff(after, g) then [Change(g, Eff(after, g))] else []
  }

  /** The changes that take `before` to `after`, walking `gs` in order:
      one change per group whose effective value differs, and no other. */
  function PatchOver(gs: seq<Group>, before: Sheet, after: Sheet): (p: seq<Change>)
    ensures forall j | 0 <= j < |p| ::
      && p[j].group in gs
      && Eff(before, p[j].group) != Eff(after, p[j].group)
      && p[j].style == Eff(after, p[j].group)
    ensures forall i | 0 <= i < |gs| && Eff(before, gs[i]) != Eff(after, gs[i]) ::
      Change(gs[i], Eff(after, gs[i])) in p
  {
    if |gs| == 0 then [] else ChangeFor(gs[0], before, after) + PatchOver(gs[1..], before, after)
  }

  lemma PatchOverUnfold(gs: seq<Group>, before: Sheet, after: Sheet)
    requires |gs| > 0
    ensures Eff(before, gs[0]) != Eff(after, gs[0]) ==>
      PatchOver(gs, before, after) == [Change(gs[0], Eff(after, gs[0]))] + PatchOver(gs[1..], before, after)
    ensures Eff(before, gs[0]) == Eff(after, gs[0]) ==>
      PatchOver(gs, before, after) == PatchOver(gs[1..], before, after)
  {
  }

  /** `p` names groups of `gs` in the order of `gs`, each at most once
      (`p` is a subsequence of `gs`, group by group). */
  predicate InOrder(p: seq<Change>, gs: seq<Group>)
    decreases |gs|
  {
    if |p| == 0 then true
    else if |gs| == 0 then false
    else if p[0].group == gs[0] then InOrder(p[1..], gs[1..])
    else InOrder(p, gs[1..])
  }

  /** No two changes name the same group. */
  predicate DistinctChanges(p: seq<Change>) {
    forall j, k | 0 <= j < k < |p| :: p[j].group.name != p[k].group.name
  }

  /** The patch walks `gs` in order. */
  lemma {:induction false} PatchOverInOrder(gs: seq<Group>, before: Sheet, after: Sheet)
    ensures InOrder(PatchOver(gs, before, after), gs)
  {
    if |gs| > 0 {
      var rest := PatchOver(gs[1..], before, after);
      PatchOverInOrder(gs[1..], before, after);
      PatchOverUnfold(gs, before, after);
      var p := PatchOver(gs, before, after);
      if Eff(before, gs[0]) != Eff(after, gs[0]) {
        assert p[0].group == gs[0] && p[1..] == rest;
      } else if |p| > 0 {
        var m :| 0 <= m < |gs[1..]| && gs[1..][m] == p[0].group;
        assert p[0].group != gs[0];
      }
    }
  }

  /** Over groups with distinct names the patch names each group at most once. */
  lemma {:induction false} PatchOverDistinct(gs: seq<Group>, before: Sheet, after: Sheet)
    requires DistinctNames(gs)
    ensures DistinctChanges(PatchOver(gs, before, after))
  {
    if |gs| > 0 {
      var rest := PatchOver(gs[1..], before, after);
      assert DistinctNames(gs[1..]);
      PatchOverDistinct(gs[1..], before, after);
      PatchOverUnfold(gs, before, after);
      var p := PatchOver(gs, before, after);
      if Eff(before, gs[0]) != Eff(after, gs[0]) {
        assert p[0] == Change(gs[0], Eff(after, gs[0])) && p[1..] == rest;
        forall j, k | 0 <= j < k < |p| ensures p[j].group.name != p[k].group.name {
          assert p[k] == rest[k - 1];
          var m :| 0 <= m < |gs[1..]| && gs[1..][m] == rest[k - 1].group;
          if j > 0 {
            assert p[j] == rest[j - 1];
          } else {
            assert gs[m + 1].name != gs[0].name;
          }
        }
      }
    }
  }

  /** The patch walks `gs` in order, and over distinct groups it names each
      group at most once. */
  lemma PatchOverOrdered(gs: seq<Group>, before: Sheet, after: Sheet)
    ensures InOrder(PatchOver(gs, before, after), gs)
    ensures DistinctNames(gs) ==> DistinctChanges(PatchOver(gs, before, after))
  {
    PatchOverInOrder(gs, before, after);
    if DistinctNames(gs) {
      PatchOverDistinct(gs, before, after);
    }
  }

  /** The patch between two sheets over the registry, in registry order. */
  function Patch(before: Sheet, after: Sheet): seq<Change> {
    PatchOver(Groups, before, after)
  }

  /** Replays changes one after the other on top of `t`. */
  function ApplyChanges(t: Sheet, cs: seq<Change>): Sheet
    decreases |cs|
  {
    if |cs| == 0 then t else ApplyChanges(t[cs[0].group.name := cs[0].style], cs[1..])
  }

  /** Changes that do not name key `k` leave it as it was. */
  lemma {:induction false} ApplyChangesFrame(t: Sheet, cs: seq<Change>, k: string)
    requires forall j | 0 <= j < |cs| :: cs[j].group.name != k
    ensures var r := ApplyChanges(t, cs); (k in r <==> k in t) && (k in t ==> r[k] == t[k])
    decreases |cs|
  {
    if |cs| > 0 {
      ApplyChangesFrame(t[cs[0].group.name := cs[0].style], cs[1..], k);
    }
  }

  /** When no other change names the same group, the change at `j` is the
      one the key ends with. */
  lemma {:induction false} ApplyChangesHit(t: Sheet, cs: seq<Change>, j: nat)
    requires j < |cs|
    requires forall m | 0 <= m < |cs| && m != j :: cs[m].group.name != cs[j].group.name
    ensures var r := ApplyChanges(t, cs); cs[j].group.name in r && r[cs[j].group.name] == cs[j].style
    decreases |cs|
  {
    var t1 := t[cs[0].group.name := cs[0].style];
    if j == 0 {
      ApplyChangesFrame(t1, cs[1..], cs[0].group.name);
    } else {
      ApplyChangesHit(t1, cs[1..], j - 1);
    }
  }

  /** Replaying the patch sets a group whose effective value differs to its
      new value. */
  lemma ApplyPatchChanged(t: Sheet, gs: seq<Group>, before: Sheet, after: Sheet, i: nat)
    requires DistinctNames(gs) && i < |gs|
    requires Eff(before, gs[i]) != Eff(after, gs[i])
    ensures var r := ApplyChanges(t, PatchOver(gs, before, after));
      gs[i].name in r && r[gs[i].name] == Eff(after, gs[i])
  {
    var p := PatchOver(gs, before, after);
    PatchOverOrdered(gs, before, after);
    var j :| 0 <= j < |p| && p[j] == Change(gs[i], Eff(after, gs[i]));
    ApplyChangesHit(t, p, j);
  }

  /** Replaying the patch leaves the key of a group whose effective value is
      the same as it was. */
  lemma ApplyPatchUnchanged(t: Sheet, gs: seq<Group>, before: Sheet, after: Sheet, i: nat)
    requires DistinctNames(gs) && i < |gs|
    requires Eff(before, gs[i]) == Eff(after, gs[i])
    ensures var r := ApplyChanges(t, PatchOver(gs, before, after));
      (gs[i].name in r <==> gs[i].name in t) && (gs[i].name in t ==> r[gs[i].name] == t[gs[i].name])
  {
    var p := PatchOver(gs, before, after);
    forall m | 0 <= m < |p| ensures p[m].group.name != gs[i].name {
      var n :| 0 <= n < |gs| && gs[n] == p[m].group;
      assert n != i;
    }
    ApplyChangesFrame(t, p, gs[i].name);
  }

  lemma ApplyPatchAt(t: Sheet, gs: seq<Group>, before: Sheet, after: Sheet, i: nat)
    requires DistinctNames(gs) && i < |gs|
    ensures var r := ApplyChanges(t, PatchOver(gs, before, after));
      if Eff(before, gs[i]) != Eff(after, gs[i]) then gs[i].name in r && r[gs[i].name] == Eff(after, gs[i])
      else (gs[i].name in r <==> gs[i].name in t) && (gs[i].name in t ==> r[gs[i].name] == t[gs[i].name])
  {
    if Eff(before, gs[i]) != Eff(after, gs[i]) {
      ApplyPatchChanged(t, gs, before, after, i);
    } else {
      ApplyPatchUnchanged(t, gs, before, after, i);
    }
  }

  /** Replaying the patch leaves every key outside the walked groups alone. */
  lemma ApplyPatchElsewhere(t: Sheet, gs: seq<Group>, before: Sheet, after: Sheet, k: string)
    requires IndexOfName(gs, k) == |gs|
    ensures var r := ApplyChanges(t, PatchOver(gs, before, after));
      (k in r <==> k in t) && (k in t ==> r[k] == t[k])
  {
    ApplyChangesFrame(t, PatchOver(gs, before, after), k);
  }

  /** `Sheet.diff(before, after)`: the sheet of changes, filled in registry order. */
  function Diff(before: Sheet, after: Sheet): (r: Sheet)
    ensures forall i | 0 <= i < |Groups| ::
      Groups[i].name in r <==> Eff(before, Groups[i]) != Eff(after, Groups[i])
    ensures forall i | 0 <= i < |Groups| && Groups[i].name in r ::
      r[Groups[i].name] == Eff(after, Groups[i])
    ensures forall k | k in r :: IndexOfName(Groups, k) < |Groups|
  {
    BuiltinRegistryWellFormed();
    var r := ApplyChanges(map[], Patch(before, after));
    assert forall i | 0 <= i < |Groups| ::
      && (Groups[i].name in r <==> Eff(before, Groups[i]) != Eff(after, Groups[i]))
      && (Groups[i].name in r ==> r[Groups[i].name] == Eff(after, Groups[i])) by {
      forall i | 0 <= i < |Groups|
        ensures Groups[i].name in r <==> Eff(before, Groups[i]) != Eff(after, Groups[i])
        ensures Groups[i].name in r ==> r[Groups[i].name] == Eff(after, Groups[i])
      {
        ApplyPatchAt(map[], Groups, before, after, i);
      }
    }
    assert forall k | k in r :: IndexOfName(Groups, k) < |Groups| by {
      forall k | k in r ensures IndexOfName(Groups, k) < |Groups| {
        if IndexOfName(Groups, k) == |Groups| {
          ApplyPatchElsewhere(map[], Groups, before, after, k);
        }
      }
    }
    r
  }

  /** `a - b` is `b.diff(a)`: what has to be applied to `b` to reach `a`. */
  function Sub(a: Sheet, b: Sheet): (r: Sheet)
    ensures forall i | 0 <= i < |Groups| ::
      Groups[i].name in r <==> Eff(b, Groups[i]) != Eff(a, Groups[i])
    ensures forall k | k in r :: IndexOfName(Groups, k) < |Groups|
    ensures EffEq(Merge(b, r), a)
    ensures WellKeyed(a) ==> WellKeyed(r)
  {
    MergeDiffReachesNew(b, a);
    if WellKeyed(a) then DiffWellKeyed(b, a); Diff(b, a) else Diff(b, a)
  }

  /** Merging the diff onto the before sheet reaches the after one on every group. */
  lemma MergeDiffReachesNew(before: Sheet, after: Sheet)
    ensures EffEq(Merge(before, Diff(before, after)), after)
  {
    var d := Diff(before, after);
    forall i | 0 <= i < |Groups|
      ensures Eff(Merge(before, d), Groups[i]) == Eff(after, Groups[i])
    {
      MergeEffective(before, d);
    }
  }

  /** A sheet needs no change to reach itself, or any sheet that sets every
      group to the same effective value. */
  lemma DiffOfEquivalentIsEmpty(a: Sheet, b: Sheet)
    requires EffEq(a, b)
    ensures Diff(a, b) == map[]
    ensures Patch(a, b) == []
  {
    var d := Diff(a, b);
    assert forall k :: k !in d;

  }

  /** Replaying the patch on any sheet that is effectively `before` gives a sheet
      that is effectively `after`. */
  lemma ReplayPatchReachesNew(t: Sheet, before: Sheet, after: Sheet)
    requires EffEq(t, before)
    ensures EffEq(ApplyChanges(t, Patch(before, after)), after)
  {
    BuiltinRegistryWellFormed();
    var r := ApplyChanges(t, Patch(before, after));
    forall i | 0 <= i < |Groups| ensures Eff(r, Groups[i]) == Eff(after, Groups[i]) {
      ApplyPatchAt(t, Groups, before, after, i);
    }
  }

  /** The diff of two well-keyed sheets is well-keyed: registry resets belong
      to their own group. */
  lemma DiffWellKeyed(before: Sheet, after: Sheet)
    requires WellKeyed(after)
    ensures WellKeyed(Diff(before, after))
  {
    BuiltinRegistryWellFormed();
    var d := Diff(before, after);
    forall k | k in d ensures d[k].group == k {
      var i := IndexOfName(Groups, k);
      assert Groups[i].name == k;
    }
  }

  /** What the `Sheet` constructor accepts. */
  datatype SheetArg =
    | NoneArg                      // Sheet(None): every group at its reset
    | StyleArg(style: Style)       // Sheet(style): that style under its group
    | ListArg(styles: seq<Style>)  // Sheet([s1, s2, ...]): keyed by group, later wins
    | MapArg(entries: Sheet)       // Sheet(dict) or Sheet(sheet): a copy

  /** No style after position `j` belongs to the group of `styles[j]`. */
  predicate LastOfGroup(styles: seq<Style>, j: nat)
    requires j < |styles|
  {
    forall m | j < m < |styles| :: styles[m].group != styles[j].group
  }

  /** A sheet from a list of styles, each keyed by its group's name; when
      several styles share a group, the one listed last is kept. */
  function ListSheet(styles: seq<Style>): (r: Sheet)
    ensures WellKeyed(r)
    ensures forall j | 0 <= j < |styles| :: styles[j].group in r
    ensures forall k | k in r :: r[k] in styles
    ensures forall j | 0 <= j < |styles| && LastOfGroup(styles, j) :: r[styles[j].group] == styles[j]
  {
    if |styles| == 0 then map[]
    else
      var n := |styles| - 1;
      var last := styles[n];
      var init := ListSheet(styles[..n]);
      ListStepCovers(styles, init);
      ListStepFrom(styles, init);
      ListStepLastWins(styles, init);
      init[last.group := last]
  }

  // Adding the last style of a list to the sheet built from the others.

  lemma ListStepCovers(styles: seq<Style>, init: Sheet)
    requires |styles| > 0
    requires var front := styles[..|styles| - 1]; forall j | 0 <= j < |front| :: front[j].group in init
    ensures var last := styles[|styles| - 1];
      forall j | 0 <= j < |styles| :: styles[j].group in init[last.group := last]
  {
    var n := |styles| - 1;
    forall j | 0 <= j < n ensures styles[j].group in init {
      assert styles[..n][j] == styles[j];
    }
  }

  lemma ListStepFrom(styles: seq<Style>, init: Sheet)
    requires |styles| > 0
    requires forall k | k in init :: init[k] in styles[..|styles| - 1]
    ensures var last := styles[|styles| - 1]; var r := init[last.group := last];
      forall k | k in r :: r[k] in styles
  {
    var n := |styles| - 1;
    forall k | k in init ensures init[k] in styles {
      var j :| 0 <= j < n && styles[..n][j] == init[k];
      assert styles[j] == init[k];
    }
  }

  lemma ListStepLastWins(styles: seq<Style>, init: Sheet)
    requires |styles| > 0
    requires var front := styles[..|styles| - 1];
      forall j | 0 <= j < |front| && LastOfGroup(front, j) ::
        front[j].group in init && init[front[j].group] == front[j]
    ensures var last := styles[|styles| - 1]; var r := init[last.group := last];
      forall j | 0 <= j < |styles| && LastOfGroup(styles, j) ::
        styles[j].group in r && r[styles[j].group] == styles[j]
  {
    var n := |styles| - 1;
    var front := styles[..n];
    forall j | 0 <= j < n && LastOfGroup(styles, j)
      ensures styles[j].group in init && init[styles[j].group] == styles[j]
    {
      FrontLastOfGroup(styles, j);
    }
  }

  /** A style last of its group in a list is also last of it without the
      list's final element, which belongs to another group. */
  lemma FrontLastOfGroup(styles: seq<Style>, j: nat)
    requires j < |styles| - 1 && LastOfGroup(styles, j)
    ensures var front := styles[..|styles| - 1];
      && front[j] == styles[j]
      && LastOfGroup(front, j)
      && styles[|styles| - 1].group != styles[j].group
  {
    var front := styles[..|styles| - 1];
    forall m | j < m < |front| ensures front[m].group != front[j].group {
      assert front[m] == styles[m];
    }
  }

  /** The all-reset sheet sets exactly the registry's groups, each to its reset. */
  lemma AllResetKeys()
    ensures forall i | 0 <= i < |Groups| :: Groups[i].name in AllReset && AllReset[Groups[i].name] == Groups[i].reset
    ensures forall k | k in AllReset :: IndexOfName(Groups, k) < |Groups|
    ensures WellKeyed(AllReset)
  {
    AllResetIsEmptyEffectively();
    BuiltinRegistryWellFormed();
    ResetsOfRegistered(Groups);
  }

  /** Every key of the resets sheet names one of the groups. */
  lemma ResetsOfRegistered(gs: seq<Group>)
    requires DistinctNames(gs)
    ensures forall k | k in ResetsOf(gs) :: IndexOfName(gs, k) < |gs|
  {
    forall k | k in ResetsOf(gs) ensures IndexOfName(gs, k) < |gs| {
      var i :| 0 <= i < |gs| && gs[i].name == k;
      IndexOfOwnName(gs, i);
    }
  }

  /** The `Sheet` constructor. */
  function MakeSheet(arg: SheetArg): (r: Sheet)
    ensures arg.NoneArg? ==> forall i | 0 <= i < |Groups| :: Groups[i].name in r && r[Groups[i].name] == Groups[i].reset
    ensures arg.NoneArg? ==> forall k | k in r :: IndexOfName(Groups, k) < |Groups|
    ensures arg.StyleArg? ==> r.Keys == {arg.style.group} && r[arg.style.group] == arg.style
    ensures arg.ListArg? ==>
      && (forall j | 0 <= j < |arg.styles| :: arg.styles[j].group in r)
      && (forall k | k in r :: r[k] in arg.styles)
      && (forall j | 0 <= j < |arg.styles| && LastOfGroup(arg.styles, j) :: r[arg.styles[j].group] == arg.styles[j])
    ensures arg.MapArg? ==> r == arg.entries
    ensures !arg.MapArg? || WellKeyed(arg.entries) ==> WellKeyed(r)
  {
    match arg
    case NoneArg =>
      AllResetKeys();
      AllReset
    case StyleArg(st) => map[st.group := st]
    case ListArg(sts) => ListSheet(sts)
    case MapArg(m) => m
  }
}
