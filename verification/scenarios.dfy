/** Worked scenarios: the nested red/green string of the reference test and
    a plain `rsjoin`. */
module Scenarios {
  import opened Wrappers
  import opened Styles
  import opened Sheets
  import opened RichText
  import opened Optimizer
  import opened ControlCodes
  import opened Rendering
  import opened Builders

  /** Palette styles used by the reference test: red text and green
      background (codes 31 and 42 of ECMA-48). */
  const Red: Style := Style(7, "red", "Fore", [31])
  const Green: Style := Style(8, "green", "Back", [42])

  const RedSheet: Sheet := map["Fore" := Red]
  const GreenSheet: Sheet := map["Back" := Green]

  /** The reference tree: "DDD" and "ddd" around a red node holding "RRR",
      a green node with "GGG", and "rrr". */
  const Nested: RichStr :=
    Rich([Plain("DDD"),
          Rich([Plain("RRR"), Rich([Plain("GGG")], GreenSheet), Plain("rrr")], RedSheet),
          Plain("ddd")], map[])

  /** The sheets in force at the three depths. */
  const Outer: Sheet := Merge(AllReset, map[])
  const InRed: Sheet := Merge(Outer, RedSheet)
  const InGreen: Sheet := Merge(InRed, GreenSheet)

  lemma FlattenAllCons(x: Node, xs: seq<Node>, s: Sheet)
    ensures FlattenAll([x] + xs, s) == Flatten(x, s) + FlattenAll(xs, s)
  {
    assert ([x] + xs)[0] == x && ([x] + xs)[1..] == xs;
  }

  lemma FlattenAllOne(x: Node, s: Sheet)
    ensures FlattenAll([x], s) == Flatten(x, s)
  {
    FlattenAllCons(x, [], s);
    assert [x] + [] == [x];
  }

  lemma FlattenRed()
    ensures Flatten(Rich([Plain("RRR"), Rich([Plain("GGG")], GreenSheet), Plain("rrr")], RedSheet), Outer) ==
      Flatten(Plain("RRR"), InRed) + (Flatten(Plain("GGG"), InGreen) + Flatten(Plain("rrr"), InRed))
  {
    var g := Rich([Plain("GGG")], GreenSheet);
    assert [Plain("RRR"), g, Plain("rrr")] == [Plain("RRR")] + ([g] + [Plain("rrr")]);
    FlattenAllCons(Plain("RRR"), [g] + [Plain("rrr")], InRed);
    FlattenAllCons(g, [Plain("rrr")], InRed);
    FlattenAllOne(Plain("rrr"), InRed);
    FlattenAllOne(Plain("GGG"), InGreen);
  }

  /** A sheet item followed by a text item, before `rest`. */
  function Pair(s: Sheet, t: string, rest: seq<Flat>): seq<Flat> {
    [SheetItem(s), TextItem(t)] + rest
  }

  /** The flat representation of the reference string. */
  const NestedFlat: seq<Flat> :=
    Pair(Outer, "DDD", Pair(InRed, "RRR", Pair(InGreen, "GGG", Pair(InRed, "rrr",
      Pair(Outer, "ddd", [SheetItem(AllReset)])))))

  lemma Regroup(p0: seq<Flat>, p1: seq<Flat>, p2: seq<Flat>, p3: seq<Flat>, p4: seq<Flat>, z: seq<Flat>)
    ensures (p0 + ((p1 + (p2 + p3)) + (p4 + [])) ) + z == p0 + (p1 + (p2 + (p3 + (p4 + z))))
  {
  }

  lemma NestedSheetRepr()
    ensures SheetRepr(Nested) == NestedFlat
  {
    var r := Rich([Plain("RRR"), Rich([Plain("GGG")], GreenSheet), Plain("rrr")], RedSheet);
    assert Nested.children == [Plain("DDD")] + ([r] + [Plain("ddd")]);
    FlattenAllCons(Plain("DDD"), [r] + [Plain("ddd")], Outer);
    FlattenAllCons(r, [Plain("ddd")], Outer);
    FlattenAllCons(Plain("ddd"), [], Outer);
    assert [Plain("ddd")] + [] == [Plain("ddd")];
    FlattenRed();
    var p0, p4 := Flatten(Plain("DDD"), Outer), Flatten(Plain("ddd"), Outer);
    var p1, p2, p3 := Flatten(Plain("RRR"), InRed), Flatten(Plain("GGG"), InGreen), Flatten(Plain("rrr"), InRed);
    assert Flatten(Nested, AllReset) == p0 + ((p1 + (p2 + p3)) + (p4 + []));
    Regroup(p0, p1, p2, p3, p4, [SheetItem(AllReset)]);
  }

  /** No group of `gs` differs: the patch is empty. */
  lemma {:induction false} PatchOverSame(gs: seq<Group>, before: Sheet, after: Sheet)
    requires forall i | 0 <= i < |gs| :: Eff(before, gs[i]) == Eff(after, gs[i])
    ensures PatchOver(gs, before, after) == []
    decreases |gs|
  {
    if |gs| > 0 {
      PatchOverUnfold(gs, before, after);
      PatchOverSame(gs[1..], before, after);
    }
  }

  /** A patch between sheets that differ in exactly one group of `gs` is
      the single change for that group. */
  lemma {:induction false} PatchOverOnly(gs: seq<Group>, before: Sheet, after: Sheet, n: nat)
    requires n < |gs|
    requires Eff(before, gs[n]) != Eff(after, gs[n])
    requires forall i | 0 <= i < |gs| && i != n :: Eff(before, gs[i]) == Eff(after, gs[i])
    ensures PatchOver(gs, before, after) == [Change(gs[n], Eff(after, gs[n]))]
    decreases n
  {
    PatchOverUnfold(gs, before, after);
    if n == 0 {
      PatchOverSame(gs[1..], before, after);
    } else {
      PatchOverOnly(gs[1..], before, after, n - 1);
    }
  }

  /** A sheet whose every registry group is effectively at its reset. */
  predicate AllAtReset(s: Sheet) {
    && Eff(s, Groups[0]) == BackReset && Eff(s, Groups[1]) == ForeReset
    && Eff(s, Groups[2]) == StyleReset && Eff(s, Groups[3]) == BlinkReset
  }

  lemma EffOuter()
    ensures AllAtReset(Outer)
  {
    AllResetIsEmptyEffectively();
    EffMerge(AllReset, map[], Groups[0]);
    EffMerge(AllReset, map[], Groups[1]);
    EffMerge(AllReset, map[], Groups[2]);
    EffMerge(AllReset, map[], Groups[3]);
  }

  lemma EffMerge(a: Sheet, b: Sheet, g: Group)
    ensures g.name in b ==> Eff(Merge(a, b), g) == b[g.name]
    ensures g.name !in b ==> Eff(Merge(a, b), g) == Eff(a, g)
  {
  }

  lemma RedOverReset(o: Sheet)
    requires AllAtReset(o)
    ensures var r := Merge(o, RedSheet);
      && Eff(r, Groups[0]) == BackReset && Eff(r, Groups[1]) == Red
      && Eff(r, Groups[2]) == StyleReset && Eff(r, Groups[3]) == BlinkReset
  {
    EffMerge(o, RedSheet, Groups[0]);
    EffMerge(o, RedSheet, Groups[1]);
    EffMerge(o, RedSheet, Groups[2]);
    EffMerge(o, RedSheet, Groups[3]);
  }

  lemma GreenOverRed(r: Sheet)
    requires && Eff(r, Groups[0]) == BackReset && Eff(r, Groups[1]) == Red
             && Eff(r, Groups[2]) == StyleReset && Eff(r, Groups[3]) == BlinkReset
    ensures var g := Merge(r, GreenSheet);
      && Eff(g, Groups[0]) == Green && Eff(g, Groups[1]) == Red
      && Eff(g, Groups[2]) == StyleReset && Eff(g, Groups[3]) == BlinkReset
  {
    EffMerge(r, GreenSheet, Groups[0]);
    EffMerge(r, GreenSheet, Groups[1]);
    EffMerge(r, GreenSheet, Groups[2]);
    EffMerge(r, GreenSheet, Groups[3]);
  }

  lemma EffInRed()
    ensures && Eff(InRed, Groups[0]) == BackReset && Eff(InRed, Groups[1]) == Red
            && Eff(InRed, Groups[2]) == StyleReset && Eff(InRed, Groups[3]) == BlinkReset
  {
    EffOuter();
    RedOverReset(Outer);
  }

  lemma EffInGreen()
    ensures && Eff(InGreen, Groups[0]) == Green && Eff(InGreen, Groups[1]) == Red
            && Eff(InGreen, Groups[2]) == StyleReset && Eff(InGreen, Groups[3]) == BlinkReset
  {
    EffInRed();
    GreenOverRed(InRed);
  }

  /** Over the built-in registry: sheets that differ in group `n` only. */
  lemma PatchOnlyAt(before: Sheet, after: Sheet, n: nat)
    requires n < 4 && Eff(before, Groups[n]) != Eff(after, Groups[n])
    requires n != 0 ==> Eff(before, Groups[0]) == Eff(after, Groups[0])
    requires n != 1 ==> Eff(before, Groups[1]) == Eff(after, Groups[1])
    requires n != 2 ==> Eff(before, Groups[2]) == Eff(after, Groups[2])
    requires n != 3 ==> Eff(before, Groups[3]) == Eff(after, Groups[3])
    ensures Patch(before, after) == [Change(Groups[n], Eff(after, Groups[n]))]
  {
    forall i | 0 <= i < |Groups| && i != n ensures Eff(before, Groups[i]) == Eff(after, Groups[i]) {
      // One case per registry group, so that each requires above applies.
      if i == 0 {
      } else if i == 1 {
      } else if i == 2 {
      } else {
      }
    }
    PatchOverOnly(Groups, before, after, n);
  }

  lemma PatchIntoOuter()
    ensures Patch(InitialState, Outer) == [] && Patch(Outer, InitialState) == []
  {
    EffOuter();
    AllResetIsEmptyEffectively();
    forall i | 0 <= i < |Groups| ensures Eff(InitialState, Groups[i]) == Eff(Outer, Groups[i]) {
      // One case per registry group, so that the facts of `EffOuter` apply.
      if i == 0 {
      } else if i == 1 {
      } else if i == 2 {
      } else {
      }
    }
    DiffOfEquivalentIsEmpty(InitialState, Outer);
    DiffOfEquivalentIsEmpty(Outer, InitialState);
  }

  lemma PatchIntoRed()
    ensures Patch(Outer, InRed) == [Change(Groups[1], Red)]
  {
    EffOuter();
    EffInRed();
    PatchOnlyAt(Outer, InRed, 1);
  }

  lemma PatchIntoGreen()
    ensures Patch(InRed, InGreen) == [Change(Groups[0], Green)]
  {
    EffInRed();
    EffInGreen();
    PatchOnlyAt(InRed, InGreen, 0);
  }

  lemma PatchOutOfGreen()
    ensures Patch(InGreen, InRed) == [Change(Groups[0], BackReset)]
  {
    EffInRed();
    EffInGreen();
    PatchOnlyAt(InGreen, InRed, 0);
  }

  lemma PatchOutOfRed()
    ensures Patch(InRed, Outer) == [Change(Groups[1], ForeReset)]
  {
    EffOuter();
    EffInRed();
    PatchOnlyAt(InRed, Outer, 1);
  }

  /** A sheet followed by a text: the patch into the sheet, then the text. */
  lemma RunPair(s: Sheet, t: string, rest: seq<Flat>, state: Sheet, prev: Sheet)
    ensures Run(Pair(s, t, rest), state, prev) == Emits(Patch(prev, s)) + ([TextOp(t)] + Run(rest, s, s))
  {
    var b := Pair(s, t, rest);
    RunUnfold(b, state, prev);
    assert b[1..] == [TextItem(t)] + rest;
    RunUnfold(b[1..], s, prev);
    assert b[1..][1..] == rest;
  }

  lemma EmitsOne(g: Group, st: Style)
    ensures Emits([Change(g, st)]) == [StyleOp(g, st)]
  {
  }

  /** A style op followed by a text op, before `rest`. */
  function Styled(g: Group, st: Style, t: string, rest: seq<Op>): seq<Op> {
    [StyleOp(g, st)] + ([TextOp(t)] + rest)
  }

  /** The output of the optimizer for the reference string: each style is
      switched on before the first text that needs it and switched off by
      its group's reset right after the last one, in nesting order. */
  const NestedOps: seq<Op> :=
    [TextOp("DDD")] + Styled(Groups[1], Red, "RRR", Styled(Groups[0], Green, "GGG",
      Styled(Groups[0], BackReset, "rrr", Styled(Groups[1], ForeReset, "ddd", []))))

  /** One pair whose patch is the single change `(g, st)`. */
  lemma RunStyledPair(s: Sheet, t: string, rest: seq<Flat>, prev: Sheet, state: Sheet, g: Group, st: Style)
    requires Patch(prev, s) == [Change(g, st)]
    ensures Run(Pair(s, t, rest), state, prev) == Styled(g, st, t, Run(rest, s, s))
  {
    RunPair(s, t, rest, state, prev);
    EmitsOne(g, st);
  }

  /** The optimizer's trace over the flat shape of the reference string,
      given the patches between its sheets. */
  lemma Trace(o: Sheet, r: Sheet, g: Sheet, z: Sheet)
    requires Patch(InitialState, o) == [] && Patch(o, InitialState) == []
    requires Patch(o, r) == [Change(Groups[1], Red)]
    requires Patch(r, o) == [Change(Groups[1], ForeReset)]
    requires Patch(g, r) == [Change(Groups[0], BackReset)]
    requires Patch(r, g) == [Change(Groups[0], Green)]
    ensures Run(Pair(o, "DDD", Pair(r, "RRR", Pair(g, "GGG", Pair(r, "rrr", Pair(o, "ddd", [SheetItem(z)]))))),
                InitialState, InitialState) == NestedOps
  {
    var last := [SheetItem(z)];
    RunUnfold(last, o, o);
    assert last[1..] == [];
    assert Run(last, o, o) == [];
    var b4 := Pair(o, "ddd", last);
    RunStyledPair(o, "ddd", last, r, r, Groups[1], ForeReset);
    var b3 := Pair(r, "rrr", b4);
    RunStyledPair(r, "rrr", b4, g, g, Groups[0], BackReset);
    var b2 := Pair(g, "GGG", b3);
    RunStyledPair(g, "GGG", b3, r, r, Groups[0], Green);
    var b1 := Pair(r, "RRR", b2);
    RunStyledPair(r, "RRR", b2, o, o, Groups[1], Red);
    RunPair(o, "DDD", b1, InitialState, InitialState);
    assert Emits([]) == [];
    assert [] + ([TextOp("DDD")] + Run(b1, o, o)) == [TextOp("DDD")] + Run(b1, o, o);
  }

  lemma NestedOpcodes()
    ensures OptimizedOpcodeRepr(Nested) == NestedOps
  {
    NestedSheetRepr();
    PatchIntoOuter();
    PatchIntoRed();
    PatchOutOfRed();
    PatchIntoGreen();
    PatchOutOfGreen();
    Trace(Outer, InRed, InGreen, AllReset);
  }

  lemma TwoDigitSgr(n: nat)
    requires 10 <= n < 100
    ensures Sgr([n]) == [Esc, '[', DigitChar(n / 10), DigitChar(n % 10), 'm']
  {
    assert DecStr(n) == DecStr(n / 10) + [DigitChar(n % 10)];
  }

  /** colorama's `Fore.RED`, `Back.GREEN`, `Back.RESET` and `Fore.RESET`. */
  const RedOn: string := [Esc] + "[31m"
  const GreenOn: string := [Esc] + "[42m"
  const BackOff: string := [Esc] + "[49m"
  const ForeOff: string := [Esc] + "[39m"

  lemma TwoDigitStyleSgr(st: Style, s: string)
    requires |st.codes| == 1 && 10 <= st.codes[0] < 100
    requires s == [Esc, '[', DigitChar(st.codes[0] / 10), DigitChar(st.codes[0] % 10), 'm']
    ensures StyleSgr(st) == s
  {
    assert st.codes == [st.codes[0]];
    TwoDigitSgr(st.codes[0]);
  }

  lemma NestedSgrs()
    ensures StyleSgr(Red) == RedOn && StyleSgr(Green) == GreenOn
    ensures StyleSgr(BackReset) == BackOff && StyleSgr(ForeReset) == ForeOff
  {
    TwoDigitStyleSgr(Red, RedOn);
    TwoDigitStyleSgr(Green, GreenOn);
    TwoDigitStyleSgr(BackReset, BackOff);
    TwoDigitStyleSgr(ForeReset, ForeOff);
  }

  lemma RenderOpsCons(op: Op, ops: seq<Op>)
    ensures RenderOps([op] + ops) == RenderOp(op) + RenderOps(ops)
  {
    assert ([op] + ops)[0] == op && ([op] + ops)[1..] == ops;
  }

  /** The string the reference test expects. */
  const NestedText: string :=
    "DDD" + RedOn + "RRR" + GreenOn + "GGG" + BackOff + "rrr" + ForeOff + "ddd"

  lemma Reassociate(a: string, b: string, c: string, d: string, e: string,
                    f: string, g: string, h: string, i: string)
    ensures a + (b + (c + (d + (e + (f + (g + (h + (i + ""))))))))
         == a + b + c + d + e + f + g + h + i
  {
  }

  lemma RenderStyled(g: Group, st: Style, t: string, rest: seq<Op>)
    ensures RenderOps(Styled(g, st, t, rest)) == StyleSgr(st) + (t + RenderOps(rest))
  {
    RenderOpsCons(StyleOp(g, st), [TextOp(t)] + rest);
    RenderOpsCons(TextOp(t), rest);
  }

  lemma RenderNestedOps()
    ensures RenderOps(NestedOps) == NestedText
  {
    NestedSgrs();
    var s4 := Styled(Groups[1], ForeReset, "ddd", []);
    var s3 := Styled(Groups[0], BackReset, "rrr", s4);
    var s2 := Styled(Groups[0], Green, "GGG", s3);
    var s1 := Styled(Groups[1], Red, "RRR", s2);
    RenderStyled(Groups[1], ForeReset, "ddd", []);
    RenderStyled(Groups[0], BackReset, "rrr", s4);
    RenderStyled(Groups[0], Green, "GGG", s3);
    RenderStyled(Groups[1], Red, "RRR", s2);
    RenderOpsCons(TextOp("DDD"), s1);
    assert RenderOps([]) == "";
    Reassociate("DDD", RedOn, "RRR", GreenOn, "GGG", BackOff, "rrr", ForeOff, "ddd");
  }

  /** `str()` of the reference string is the expected one. */
  lemma NestedRendersAsExpected()
    ensures Render(Nested) == NestedText
  {
    NestedOpcodes();
    RenderNestedOps();
  }

  lemma JoinABC()
    ensures StrJoin("-", ["a", "b", "c"]) == "a-b-c"
  {
    var ts := ["a", "b", "c"];
    assert ts[1..] == ["b", "c"] && ["b", "c"][1..] == ["c"] && ["c"][1..] == [];
    assert PrefixedText("-", ["c"]) == "-c";
    assert PrefixedText("-", ["b", "c"]) == "-b-c";
  }

  /** `rsjoin("-", ["a", "b", "c"])` renders as `a-b-c`. */
  lemma RsJoinABC()
    ensures RsJoin(Plain("-"), Plains(["a", "b", "c"]), None).Success?
    ensures Render(RsJoin(Plain("-"), Plains(["a", "b", "c"]), None).value) == "a-b-c"
  {
    RsJoinRendersLikeJoin("-", ["a", "b", "c"], None);
    JoinABC();
  }

  /** Setting Fore to red and straight back to its reset before a text
      leaves every text shown as requested, but is not minimal: the second
      style touches a group already touched since the last text. */
  lemma SetAndResetIsNotMinimal()
    ensures !Minimal([StyleOp(Groups[1], Red)] + ([StyleOp(Groups[1], ForeReset)] + [TextOp("x")]), AllReset, AllReset)
  {
    AllResetIsEmptyEffectively();
    var rest := [StyleOp(Groups[1], ForeReset)] + [TextOp("x")];
    var ops := [StyleOp(Groups[1], Red)] + rest;
    assert ops[0] == StyleOp(Groups[1], Red) && ops[1..] == rest;
    var t1 := Apply(AllReset, ops[0]);
    assert Eff(t1, Groups[1]) == Red;
    assert rest[0] == StyleOp(Groups[1], ForeReset);
    assert Eff(AllReset, Groups[1]) == ForeReset;
    assert !Minimal(rest, AllReset, t1);
  }
}
