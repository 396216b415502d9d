/** `RichStr.__str__`: the optimized items of a rich string, each written as
    its control sequence or its text, concatenated. */
module Rendering {
  import opened Styles
  import opened Sheets
  import opened RichText
  import opened ControlCodes
  import opened Optimizer

  /** `str(item)`: a style renders as its control sequence, text as itself. */
  function RenderOp(op: Op): string {
    match op
    case StyleOp(_, st) => StyleSgr(st)
    case TextOp(t) => t
  }

  function RenderOps(ops: seq<Op>): string
    decreases |ops|
  {
    if |ops| == 0 then "" else RenderOp(ops[0]) + RenderOps(ops[1..])
  }

  /** `str(richStr)` */
  function Render(r: RichStr): string {
    RenderOps(OptimizedOpcodeRepr(r))
  }

  function Concat(ss: seq<string>): string
    decreases |ss|
  {
    if |ss| == 0 then "" else ss[0] + Concat(ss[1..])
  }

  /** The text of a node: its leaves concatenated left to right. */
  function Text(n: Node): string
    decreases n
  {
    match n
    case Plain(t) => t
    case Rich(cs, _) => TextAll(cs)
  }

  function TextAll(cs: seq<Node>): string
    decreases cs
  {
    if |cs| == 0 then "" else Text(cs[0]) + TextAll(cs[1..])
  }

  lemma {:induction false} RenderOpsAppend(a: seq<Op>, b: seq<Op>)
    ensures RenderOps(a + b) == RenderOps(a) + RenderOps(b)
    decreases |a|
  {
    if |a| == 0 {
      assert a + b == b;
    } else {
      RenderOpsAppend(a[1..], b);
      assert (a + b)[1..] == a[1..] + b;
      var h := RenderOp(a[0]);
      assert RenderOps(a + b) == h + RenderOps(a[1..] + b);
      assert RenderOps(a) == h + RenderOps(a[1..]);
      assert h + (RenderOps(a[1..]) + RenderOps(b)) == (h + RenderOps(a[1..])) + RenderOps(b);
    }
  }

  /** A rendered item is a control sequence when it is a style. */
  lemma RenderStyleIsSgr(g: Group, st: Style)
    ensures var s := RenderOp(StyleOp(g, st));
      |s| >= 3 && s[0] == Esc && s[1] == '[' && s[|s| - 1] == 'm'
      && ParseSgr(s) == Wrappers.Some(st.codes)
      && forall tok | tok in SplitSemi(s[2..|s| - 1]) && |tok| > 1 :: tok[0] != '0'
  {
  }

  // ---- The rich string as a whole ----

  /** Each leaf with the sheet it is effectively displayed in. */
  function PaintLeaves(inherited: Sheet, ls: seq<Leaf>): (r: seq<Painted>)
    ensures |r| == |ls|
    ensures forall i | 0 <= i < |ls| :: r[i] == Painted(Cascade(inherited, ls[i].ancestors), ls[i].text)
  {
    if |ls| == 0 then [] else [Painted(Cascade(inherited, ls[0].ancestors), ls[0].text)] + PaintLeaves(inherited, ls[1..])
  }

  lemma {:induction false} RequestedOfExpand(inherited: Sheet, ls: seq<Leaf>, state: Sheet, final: Sheet)
    ensures Requested(Expand(inherited, ls) + [SheetItem(final)], state) == PaintLeaves(inherited, ls)
    decreases |ls|
  {
    var buf := Expand(inherited, ls) + [SheetItem(final)];
    if |ls| == 0 {
      assert buf == [SheetItem(final)];
      assert Requested(buf, state) == Requested(buf[1..], final);
    } else {
      var c := Cascade(inherited, ls[0].ancestors);
      var rest := Expand(inherited, ls[1..]) + [SheetItem(final)];
      assert buf == [SheetItem(c), TextItem(ls[0].text)] + rest;
      assert buf[1..] == [TextItem(ls[0].text)] + rest;
      assert buf[1..][1..] == rest;
      RequestedOfExpand(inherited, ls[1..], c, final);
    }
  }

  /** A rich string renders faithfully: its opcodes are exactly the reference
      output for its leaves, each in the sheet its ancestors give it (inner
      sheets winning); they style registry groups only, each under its own
      group when every sheet of the tree is well keyed; on a reset terminal
      each leaf is shown in effectively its sheet, the output is minimal, and
      it leaves every group reset. */
  lemma RichStrRendersFaithfully(r: RichStr)
    ensures RegistryOps(OptimizedOpcodeRepr(r))
    ensures AllKeyed(r) ==> KeyedOps(OptimizedOpcodeRepr(r))
    ensures SameLook(Displayed(OptimizedOpcodeRepr(r), AllReset), PaintLeaves(AllReset, Leaves(r)))
    ensures EffEq(Replay(AllReset, OptimizedOpcodeRepr(r)), AllReset)
    ensures NonRedundant(OptimizedOpcodeRepr(r), AllReset)
    ensures Minimal(OptimizedOpcodeRepr(r), AllReset, AllReset)
    ensures OptimizedOpcodeRepr(r) == Expected(PaintLeaves(AllReset, Leaves(r)), InitialState)
  {
    FlattenIsExpandedLeaves(r, AllReset);
    RequestedOfExpand(AllReset, Leaves(r), InitialState, AllReset);
    OptimizeFaithful(SheetRepr(r));
    if AllKeyed(r) {
      SheetReprKeyed(r);
    }
  }

  // ---- Well-keyed trees ----

  /** Every sheet of the tree files each style under its own group. */
  predicate AllKeyed(n: Node)
    decreases n
  {
    match n
    case Plain(_) => true
    case Rich(cs, s) => WellKeyed(s) && forall i | 0 <= i < |cs| :: AllKeyed(cs[i])
  }

  lemma {:induction false} FlattenKeyed(n: Node, inherited: Sheet)
    requires WellKeyed(inherited) && AllKeyed(n)
    ensures KeyedItems(Flatten(n, inherited))
    decreases n
  {
    match n
    case Plain(t) =>
      var items := [SheetItem(inherited), TextItem(t)];
      assert items[1] == TextItem(t);
    case Rich(cs, s) =>
      MergeEffective(inherited, s);
      FlattenAllKeyed(cs, Merge(inherited, s));
  }

  lemma {:induction false} FlattenAllKeyed(cs: seq<Node>, sheet: Sheet)
    requires WellKeyed(sheet) && forall i | 0 <= i < |cs| :: AllKeyed(cs[i])
    ensures KeyedItems(FlattenAll(cs, sheet))
    decreases cs
  {
    if |cs| > 0 {
      var a: seq<Flat> := Flatten(cs[0], sheet);
      var b: seq<Flat> := FlattenAll(cs[1..], sheet);
      FlattenKeyed(cs[0], sheet);
      FlattenAllKeyed(cs[1..], sheet);
      assert FlattenAll(cs, sheet) == a + b;
      forall i | 0 <= i < |a + b| && (a + b)[i].SheetItem? ensures WellKeyed((a + b)[i].sheet) {
        if i >= |a| {
          assert (a + b)[i] == b[i - |a|];
        }
      }
    }
  }

  /** The flat representation of a well-keyed tree has well-keyed sheets only. */
  lemma SheetReprKeyed(r: RichStr)
    requires AllKeyed(r)
    ensures KeyedItems(SheetRepr(r))
  {
    AllResetIsEmptyEffectively();
    FlattenKeyed(r, AllReset);
    var f := Flatten(r, AllReset);
    var buf := SheetRepr(r);
    forall i | 0 <= i < |buf| && buf[i].SheetItem? ensures WellKeyed(buf[i].sheet) {
      if i < |f| {
        assert buf[i] == f[i];
      }
    }
  }

  // ---- Trees without styles ----

  /** A sheet that leaves every group at its reset. */
  predicate Neutral(s: Sheet) {
    EffEq(s, map[])
  }

  predicate AllNeutral(n: Node)
    decreases n
  {
    match n
    case Plain(_) => true
    case Rich(cs, s) => Neutral(s) && forall i | 0 <= i < |cs| :: AllNeutral(cs[i])
  }

  predicate NeutralItems(buf: seq<Flat>) {
    forall i | 0 <= i < |buf| && buf[i].SheetItem? :: Neutral(buf[i].sheet)
  }

  lemma {:induction false} FlattenNeutral(n: Node, inherited: Sheet)
    requires Neutral(inherited) && AllNeutral(n)
    ensures NeutralItems(Flatten(n, inherited))
    ensures Concat(FlatTexts(Flatten(n, inherited))) == Text(n)
    decreases n
  {
    match n
    case Plain(t) =>
      var items := [SheetItem(inherited), TextItem(t)];
      assert items[1..] == [TextItem(t)] && items[1..][1..] == [];
      assert FlatTexts(items) == [] + FlatTexts([TextItem(t)]);
      assert FlatTexts([TextItem(t)]) == [t] + FlatTexts([]);
      assert Concat([t]) == t + Concat([]);
    case Rich(cs, s) =>
      FlattenAllNeutral(cs, Merge(inherited, s));
  }

  lemma {:induction false} FlattenAllNeutral(cs: seq<Node>, sheet: Sheet)
    requires Neutral(sheet) && forall i | 0 <= i < |cs| :: AllNeutral(cs[i])
    ensures NeutralItems(FlattenAll(cs, sheet))
    ensures Concat(FlatTexts(FlattenAll(cs, sheet))) == TextAll(cs)
    decreases cs
  {
    if |cs| > 0 {
      var a: seq<Flat> := Flatten(cs[0], sheet);
      var b: seq<Flat> := FlattenAll(cs[1..], sheet);
      FlattenNeutral(cs[0], sheet);
      FlattenAllNeutral(cs[1..], sheet);
      assert FlattenAll(cs, sheet) == a + b;
      forall i | 0 <= i < |a + b| && (a + b)[i].SheetItem? ensures Neutral((a + b)[i].sheet) {
        if i >= |a| {
          assert (a + b)[i] == b[i - |a|];
        }
      }
      FlatTextsAppend(a, b);
      ConcatAppend(FlatTexts(a), FlatTexts(b));
    }
  }

  lemma {:induction false} FlatTextsAppend(a: seq<Flat>, b: seq<Flat>)
    ensures FlatTexts(a + b) == FlatTexts(a) + FlatTexts(b)
    decreases |a|
  {
    if |a| == 0 {
      assert a + b == b;
    } else {
      FlatTextsAppend(a[1..], b);
      assert (a + b)[0] == a[0] && (a + b)[1..] == a[1..] + b;
      var h := FlatText(a[0]);
      var x, y := FlatTexts(a[1..]), FlatTexts(b);
      assert FlatTexts(a + b) == h + (x + y);
      assert FlatTexts(a) == h + x;
      assert h + (x + y) == (h + x) + y;
    }
  }

  lemma {:induction false} ConcatAppend(a: seq<string>, b: seq<string>)
    ensures Concat(a + b) == Concat(a) + Concat(b)
    decreases |a|
  {
    if |a| == 0 {
      assert a + b == b;
    } else {
      ConcatAppend(a[1..], b);
      assert (a + b)[1..] == a[1..] + b;
    }
  }

  /** Between neutral sheets the optimizer emits nothing but the texts. */
  lemma {:induction false} RunNeutral(buf: seq<Flat>, state: Sheet, prev: Sheet)
    requires Neutral(state) && Neutral(prev) && NeutralItems(buf)
    ensures RenderOps(Run(buf, state, prev)) == Concat(FlatTexts(buf))
    decreases |buf|
  {
    if |buf| == 0 {
      DiffOfEquivalentIsEmpty(prev, InitialState);
    } else {
      RunUnfold(buf, state, prev);
      assert NeutralItems(buf[1..]) by {
        forall i | 0 <= i < |buf[1..]| && buf[1..][i].SheetItem? ensures Neutral(buf[1..][i].sheet) {
          assert buf[1..][i] == buf[i + 1];
        }
      }
      if buf[0].SheetItem? {
        RunNeutral(buf[1..], buf[0].sheet, prev);
        assert FlatTexts(buf) == [] + FlatTexts(buf[1..]);
        assert FlatTexts(buf) == FlatTexts(buf[1..]);
        assert Run(buf, state, prev) == Run(buf[1..], buf[0].sheet, prev);
      } else {
        assert FlatTexts(buf) == [buf[0].text] + FlatTexts(buf[1..]);
        RunNeutral(buf[1..], state, state);
        assert EffEq(prev, state);
        DiffOfEquivalentIsEmpty(prev, state);
        var rest := Run(buf[1..], state, state);
        assert Run(buf, state, prev) == [TextOp(buf[0].text)] + rest;
        assert ([TextOp(buf[0].text)] + rest)[1..] == rest;
      }
    }
  }

  /** A rich string whose sheets are all neutral renders as the plain
      concatenation of its leaves: no control sequence at all. */
  lemma NeutralRendersPlain(r: RichStr)
    requires AllNeutral(r)
    ensures Render(r) == Text(r)
  {
    AllResetIsEmptyEffectively();
    FlattenNeutral(r, AllReset);
    var buf := SheetRepr(r);
    var f := Flatten(r, AllReset);
    assert NeutralItems(buf) by {
      forall i | 0 <= i < |buf| && buf[i].SheetItem? ensures Neutral(buf[i].sheet) {
        if i < |f| {
          assert buf[i] == f[i];
        }
      }
    }
    RunNeutral(buf, InitialState, InitialState);
    FlatTextsAppend(f, [SheetItem(AllReset)]);
    assert FlatTexts([SheetItem(AllReset)]) == [];
    assert FlatTexts(buf) == FlatTexts(f);
  }
}
