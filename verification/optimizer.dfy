/** The optimizer (`optimizeSheetsToOpCodes`, `RichStr.optimizedOpcodeRepr`).

    The correctness of the optimizer is stated against a model of the
    terminal: a sheet that every emitted style updates for its group. */
module Optimizer {
  import opened Styles
  import opened Sheets
  import opened RichText

  /** An output item: a style to emit (with the group it was diffed under) or
      a piece of text. Only the style's codes reach the output string. */
  datatype Op = StyleOp(group: Group, style: Style) | TextOp(text: string)

  function Emits(cs: seq<Change>): (r: seq<Op>)
    ensures |r| == |cs|
    ensures forall j | 0 <= j < |cs| :: r[j] == StyleOp(cs[j].group, cs[j].style)
  {
    if |cs| == 0 then [] else [StyleOp(cs[0].group, cs[0].style)] + Emits(cs[1..])
  }

  /** `Sheet()`: the optimizer starts from, and returns to, the empty sheet. */
  const InitialState: Sheet := map[]

  /** The loop of `optimizeSheetsToOpCodes`: `state` is the last sheet seen
      (replaced, not merged), `prev` the state the last text was written
      in. Before a text the patch from `prev` to `state` is emitted; after
      the last item the patch back to the initial state. */
  function Run(buf: seq<Flat>, state: Sheet, prev: Sheet): seq<Op>
    decreases |buf|
  {
    if |buf| == 0 then Emits(Patch(prev, InitialState))
    else match buf[0]
      case SheetItem(s) => Run(buf[1..], s, prev)
      case TextItem(t) => Emits(Patch(prev, state)) + [TextOp(t)] + Run(buf[1..], state, state)
  }

  function OptimizeSheetsToOpCodes(buf: seq<Flat>): seq<Op> {
    Run(buf, InitialState, InitialState)
  }

  function OptimizedOpcodeRepr(r: RichStr): seq<Op> {
    OptimizeSheetsToOpCodes(SheetRepr(r))
  }

  // ---- The terminal model ----

  /** A text together with the sheet it is displayed in. */
  datatype Painted = Painted(sheet: Sheet, text: string)

  /** The terminal after one op: a style becomes the active style of the
      group it was diffed under, which is the group the style belongs to
      whenever `KeyedOps` holds. */
  function Apply(t: Sheet, op: Op): Sheet {
    match op
    case StyleOp(g, st) => t[g.name := st]
    case TextOp(_) => t
  }

  /** The terminal's state after `ops`, starting from `t`. */
  function Replay(t: Sheet, ops: seq<Op>): Sheet
    decreases |ops|
  {
    if |ops| == 0 then t else Replay(Apply(t, ops[0]), ops[1..])
  }

  /** Each text of `ops` with the terminal state it is written in. */
  function Displayed(ops: seq<Op>, t: Sheet): seq<Painted>
    decreases |ops|
  {
    if |ops| == 0 then []
    else match ops[0]
      case TextOp(x) => [Painted(t, x)] + Displayed(ops[1..], t)
      case StyleOp(_, _) => Displayed(ops[1..], Apply(t, ops[0]))
  }

  /** Each text of the flat representation with the sheet last given before
      it (`state` before the first sheet). */
  function Requested(buf: seq<Flat>, state: Sheet): seq<Painted>
    decreases |buf|
  {
    if |buf| == 0 then []
    else match buf[0]
      case SheetItem(s) => Requested(buf[1..], s)
      case TextItem(x) => [Painted(state, x)] + Requested(buf[1..], state)
  }

  /** The same texts, each in effectively the same style. */
  predicate SameLook(xs: seq<Painted>, ys: seq<Painted>) {
    && |xs| == |ys|
    && forall i | 0 <= i < |xs| :: xs[i].text == ys[i].text && EffEq(xs[i].sheet, ys[i].sheet)
  }

  /** Every emitted style changes what the terminal shows for its group. */
  predicate NonRedundant(ops: seq<Op>, t: Sheet)
    decreases |ops|
  {
    if |ops| == 0 then true
    else
      && (ops[0].StyleOp? ==> Eff(t, ops[0].group) != ops[0].style)
      && NonRedundant(ops[1..], Apply(t, ops[0]))
  }

  // ---- Replay over concatenations ----

  lemma {:induction false} ReplayOfAppend(a: seq<Op>, b: seq<Op>, t: Sheet)
    ensures Replay(t, a + b) == Replay(Replay(t, a), b)
    decreases |a|
  {
    if |a| == 0 {
      assert a + b == b;
    } else {
      ReplayOfAppend(a[1..], b, Apply(t, a[0]));
      assert (a + b)[0] == a[0] && (a + b)[1..] == a[1..] + b;
    }
  }

  lemma {:induction false} DisplayedOfAppend(a: seq<Op>, b: seq<Op>, t: Sheet)
    ensures Displayed(a + b, t) == Displayed(a, t) + Displayed(b, Replay(t, a))
    decreases |a|
  {
    if |a| == 0 {
      assert a + b == b;
    } else {
      var t1 := Apply(t, a[0]);
      DisplayedOfAppend(a[1..], b, t1);
      assert (a + b)[0] == a[0] && (a + b)[1..] == a[1..] + b;
      assert Replay(t, a) == Replay(t1, a[1..]);
      var x, y := Displayed(a[1..], t1), Displayed(b, Replay(t1, a[1..]));
      if a[0].TextOp? {
        var p := [Painted(t, a[0].text)];
        assert t1 == t;
        assert Displayed(a + b, t) == p + (x + y);
        assert Displayed(a, t) == p + x;
        assert p + (x + y) == (p + x) + y;
      }
    }
  }

  lemma ReplayAppend(a: seq<Op>, b: seq<Op>, t: Sheet)
    ensures Replay(t, a + b) == Replay(Replay(t, a), b)
    ensures Displayed(a + b, t) == Displayed(a, t) + Displayed(b, Replay(t, a))
  {
    ReplayOfAppend(a, b, t);
    DisplayedOfAppend(a, b, t);
  }

  /** Emitting a patch displays nothing and replays its changes in order. */
  lemma {:induction false} ReplayEmits(t: Sheet, cs: seq<Change>)
    ensures Replay(t, Emits(cs)) == ApplyChanges(t, cs)
    ensures Displayed(Emits(cs), t) == []
    decreases |cs|
  {
    if |cs| > 0 {
      ReplayEmits(t[cs[0].group.name := cs[0].style], cs[1..]);
      assert Emits(cs)[1..] == Emits(cs[1..]);
    }
  }

  lemma EmitsCons(c: Change, cs: seq<Change>)
    ensures Emits([c] + cs) == [StyleOp(c.group, c.style)] + Emits(cs)
  {
    assert ([c] + cs)[1..] == cs;
  }

  /** One emission step: writing the patch from `prev` to `state` on a
      terminal that looks like `prev` makes it look like `state`. */
  lemma EmitStep(t: Sheet, prev: Sheet, state: Sheet)
    requires EffEq(t, prev)
    ensures var ops := Emits(Patch(prev, state));
      && EffEq(Replay(t, ops), state)
      && Displayed(ops, t) == []
  {
    ReplayEmits(t, Patch(prev, state));
    ReplayPatchReachesNew(t, prev, state);
  }

  lemma SameLookCons(a: Painted, b: Painted, xs: seq<Painted>, ys: seq<Painted>)
    requires a.text == b.text && EffEq(a.sheet, b.sheet) && SameLook(xs, ys)
    ensures SameLook([a] + xs, [b] + ys)
  {
    var l, r := [a] + xs, [b] + ys;
    forall i | 0 <= i < |l| ensures l[i].text == r[i].text && EffEq(l[i].sheet, r[i].sheet) {
      if i > 0 {
        assert l[i] == xs[i - 1] && r[i] == ys[i - 1];
      }
    }
  }

  lemma RunUnfoldRun(buf: seq<Flat>, state: Sheet, prev: Sheet)
    requires |buf| > 0
    ensures buf[0].SheetItem? ==> Run(buf, state, prev) == Run(buf[1..], buf[0].sheet, prev)
    ensures buf[0].TextItem? ==>
      Run(buf, state, prev) == Emits(Patch(prev, state)) + ([TextOp(buf[0].text)] + Run(buf[1..], state, state))
  {
  }

  lemma RequestedUnfold(buf: seq<Flat>, state: Sheet)
    requires |buf| > 0
    ensures buf[0].SheetItem? ==> Requested(buf, state) == Requested(buf[1..], buf[0].sheet)
    ensures buf[0].TextItem? ==> Requested(buf, state) == [Painted(state, buf[0].text)] + Requested(buf[1..], state)
  {
  }

  lemma RunUnfold(buf: seq<Flat>, state: Sheet, prev: Sheet)
    requires |buf| > 0
    ensures buf[0].SheetItem? ==> Run(buf, state, prev) == Run(buf[1..], buf[0].sheet, prev)
    ensures buf[0].TextItem? ==>
      Run(buf, state, prev) == Emits(Patch(prev, state)) + ([TextOp(buf[0].text)] + Run(buf[1..], state, state))
    ensures buf[0].SheetItem? ==> Requested(buf, state) == Requested(buf[1..], buf[0].sheet)
    ensures buf[0].TextItem? ==> Requested(buf, state) == [Painted(state, buf[0].text)] + Requested(buf[1..], state)
  {
    RunUnfoldRun(buf, state, prev);
    RequestedUnfold(buf, state);
  }


  /** The loop invariant of the optimizer: while the terminal looks like
      `prev`, the rest of the output shows every remaining text in the sheet
      requested for it and leaves the terminal effectively reset. */
  lemma {:induction false} RunFaithful(buf: seq<Flat>, state: Sheet, prev: Sheet, t: Sheet)
    requires EffEq(t, prev)
    ensures SameLook(Displayed(Run(buf, state, prev), t), Requested(buf, state))
    ensures EffEq(Replay(t, Run(buf, state, prev)), AllReset)
    decreases |buf|
  {
    AllResetIsEmptyEffectively();
    if |buf| == 0 {
      EmitStep(t, prev, InitialState);
    } else {
      RunUnfold(buf, state, prev);
      if buf[0].SheetItem? {
        RunFaithful(buf[1..], buf[0].sheet, prev, t);
      } else {
        TextStep(buf, state, prev, t);
      }
    }
  }

  /** A text written between a patch and the rest of the output. */
  lemma TextBetween(pre: seq<Op>, x: string, rest: seq<Op>, t: Sheet, state: Sheet, reqRest: seq<Painted>)
    requires EffEq(Replay(t, pre), state) && Displayed(pre, t) == []
    requires var t1 := Replay(t, pre);
      && SameLook(Displayed(rest, t1), reqRest)
      && EffEq(Replay(t1, rest), AllReset)
    ensures var ops := pre + ([TextOp(x)] + rest);
      && SameLook(Displayed(ops, t), [Painted(state, x)] + reqRest)
      && EffEq(Replay(t, ops), AllReset)
  {
    var t1 := Replay(t, pre);
    ReplayAppend(pre, [TextOp(x)] + rest, t);
    ReplayAppend([TextOp(x)], rest, t1);
    assert Displayed([TextOp(x)], t1) == [Painted(t1, x)];
    assert Replay(t1, [TextOp(x)]) == t1;
    SameLookCons(Painted(t1, x), Painted(state, x), Displayed(rest, t1), reqRest);
  }

  /** The step of the invariant for a text item. */
  lemma {:induction false} TextStep(buf: seq<Flat>, state: Sheet, prev: Sheet, t: Sheet)
    requires EffEq(t, prev) && |buf| > 0 && buf[0].TextItem?
    ensures SameLook(Displayed(Run(buf, state, prev), t), Requested(buf, state))
    ensures EffEq(Replay(t, Run(buf, state, prev)), AllReset)
    decreases |buf|, 0
  {
    var pre := Emits(Patch(prev, state));
    RunUnfold(buf, state, prev);
    EmitStep(t, prev, state);
    RunFaithful(buf[1..], state, state, Replay(t, pre));
    TextBetween(pre, buf[0].text, Run(buf[1..], state, state), t, state, Requested(buf[1..], state));
  }

  /** The optimizer is faithful: its output is exactly the reference output
      for the requested texts; it emits styles of registry groups only, each
      filed under its own group when the input's sheets are well keyed;
      replayed on a reset terminal it shows every text in effectively the
      sheet the input gave it, is minimal (so never emits a style that leaves
      its group as it was), and ends with every group reset. */
  lemma OptimizeFaithful(buf: seq<Flat>)
    ensures OptimizeSheetsToOpCodes(buf) == Expected(Requested(buf, InitialState), InitialState)
    ensures RegistryOps(OptimizeSheetsToOpCodes(buf))
    ensures KeyedItems(buf) ==> KeyedOps(OptimizeSheetsToOpCodes(buf))
    ensures SameLook(Displayed(OptimizeSheetsToOpCodes(buf), AllReset), Requested(buf, InitialState))
    ensures EffEq(Replay(AllReset, OptimizeSheetsToOpCodes(buf)), AllReset)
    ensures NonRedundant(OptimizeSheetsToOpCodes(buf), AllReset)
    ensures Minimal(OptimizeSheetsToOpCodes(buf), AllReset, AllReset)
  {
    AllResetIsEmptyEffectively();
    RunFaithful(buf, InitialState, InitialState, AllReset);
    RunMinimal(buf, InitialState, InitialState, AllReset);
    MinimalIsNonRedundant(OptimizeSheetsToOpCodes(buf), AllReset, AllReset);
    RunIsExpected(buf, InitialState, InitialState);
    ExpectedRegistered(Requested(buf, InitialState), InitialState);
    if KeyedItems(buf) {
      RequestedKeyed(buf, InitialState);
    }
  }

  // ---- The exact output ----

  /** The reference output for the requested texts, independent of the
      optimizer's bookkeeping: before each text the patch from the sheet of
      the text before it (`prev` for the first) to its own sheet, and after
      the last text the patch back to the initial state. */
  function Expected(req: seq<Painted>, prev: Sheet): seq<Op>
    decreases |req|
  {
    if |req| == 0 then Emits(Patch(prev, InitialState))
    else Emits(Patch(prev, req[0].sheet)) + ([TextOp(req[0].text)] + Expected(req[1..], req[0].sheet))
  }

  /** The optimizer's loop produces the reference output. */
  lemma {:induction false} RunIsExpected(buf: seq<Flat>, state: Sheet, prev: Sheet)
    ensures Run(buf, state, prev) == Expected(Requested(buf, state), prev)
    decreases |buf|
  {
    if |buf| > 0 {
      RunUnfold(buf, state, prev);
      if buf[0].SheetItem? {
        RunIsExpected(buf[1..], buf[0].sheet, prev);
      } else {
        RunIsExpected(buf[1..], state, state);
        var req := Requested(buf, state);
        assert req[0] == Painted(state, buf[0].text) && req[1..] == Requested(buf[1..], state);
      }
    }
  }

  /** Every style op names a group of the registry. */
  predicate RegistryOps(ops: seq<Op>) {
    forall j | 0 <= j < |ops| && ops[j].StyleOp? :: ops[j].group in Groups
  }

  /** Every style op's style belongs to the group it is filed under, so the
      terminal model's update of that group is the one the style's own
      control sequence makes. */
  predicate KeyedOps(ops: seq<Op>) {
    forall j | 0 <= j < |ops| && ops[j].StyleOp? :: ops[j].style.group == ops[j].group.name
  }

  /** Every sheet of the flat representation is well keyed. */
  predicate KeyedItems(buf: seq<Flat>) {
    forall i | 0 <= i < |buf| && buf[i].SheetItem? :: WellKeyed(buf[i].sheet)
  }

  lemma OpsAppend(a: seq<Op>, b: seq<Op>)
    ensures RegistryOps(a) && RegistryOps(b) ==> RegistryOps(a + b)
    ensures KeyedOps(a) && KeyedOps(b) ==> KeyedOps(a + b)
  {
    var ab := a + b;
    forall j | |a| <= j < |ab| ensures ab[j] == b[j - |a|] {
    }
    forall j | 0 <= j < |a| ensures ab[j] == a[j] {
    }
  }

  /** A patch changes registry groups only, and into a well-keyed sheet it
      files each style under its own group. */
  lemma EmitsPatchKeyed(before: Sheet, after: Sheet)
    ensures RegistryOps(Emits(Patch(before, after)))
    ensures WellKeyed(after) ==> KeyedOps(Emits(Patch(before, after)))
  {
    BuiltinRegistryWellFormed();
    var p := Patch(before, after);
    var ops := Emits(p);
    if WellKeyed(after) {
      forall j | 0 <= j < |ops| && ops[j].StyleOp? ensures ops[j].style.group == ops[j].group.name {
        var g := p[j].group;
        var i :| 0 <= i < |Groups| && Groups[i] == g;
        assert ops[j] == StyleOp(g, Eff(after, g));
      }
    }
  }

  lemma {:induction false} ExpectedRegistered(req: seq<Painted>, prev: Sheet)
    ensures RegistryOps(Expected(req, prev))
    ensures (forall i | 0 <= i < |req| :: WellKeyed(req[i].sheet)) ==> KeyedOps(Expected(req, prev))
    decreases |req|
  {
    if |req| == 0 {
      EmitsPatchKeyed(prev, InitialState);
    } else {
      var tail := Expected(req[1..], req[0].sheet);
      var x := [TextOp(req[0].text)];
      var e := Emits(Patch(prev, req[0].sheet));
      ExpectedRegistered(req[1..], req[0].sheet);
      EmitsPatchKeyed(prev, req[0].sheet);
      OpsAppend(x, tail);
      OpsAppend(e, x + tail);
      if forall i | 0 <= i < |req| :: WellKeyed(req[i].sheet) {
        forall i | 0 <= i < |req[1..]| ensures WellKeyed(req[1..][i].sheet) {
          assert req[1..][i] == req[i + 1];
        }
      }
    }
  }

  /** The sheets texts are requested in are the well-keyed sheets of the input
      (or the well-keyed sheet in force before them). */
  lemma {:induction false} RequestedKeyed(buf: seq<Flat>, state: Sheet)
    requires WellKeyed(state) && KeyedItems(buf)
    ensures forall i | 0 <= i < |Requested(buf, state)| :: WellKeyed(Requested(buf, state)[i].sheet)
    decreases |buf|
  {
    if |buf| > 0 {
      RequestedUnfold(buf, state);
      assert KeyedItems(buf[1..]) by {
        forall i | 0 <= i < |buf[1..]| && buf[1..][i].SheetItem? ensures WellKeyed(buf[1..][i].sheet) {
          assert buf[1..][i] == buf[i + 1];
        }
      }
      var next := if buf[0].SheetItem? then buf[0].sheet else state;
      RequestedKeyed(buf[1..], next);
      if buf[0].TextItem? {
        var req := Requested(buf, state);
        forall i | 0 <= i < |req| ensures WellKeyed(req[i].sheet) {
          if i > 0 {
            assert req[i] == Requested(buf[1..], state)[i - 1];
          }
        }
      }
    }
  }

  // ---- Minimality ----

  /** Between two texts, each emitted style is for a group no style has
      touched since the last text, and moves that group away from the style
      the last text was shown in. `shown` is the terminal when the last text
      was written, `t` the terminal now. So a group gets at most one style
      between two texts, and only when its style really changes. */
  predicate Minimal(ops: seq<Op>, shown: Sheet, t: Sheet)
    decreases |ops|
  {
    if |ops| == 0 then true
    else match ops[0]
      case TextOp(_) => Minimal(ops[1..], t, t)
      case StyleOp(g, st) =>
        && Eff(t, g) == Eff(shown, g)
        && st != Eff(shown, g)
        && Minimal(ops[1..], shown, Apply(t, ops[0]))
  }

  /** Emitting changes for distinct, untouched groups, each away from the
      style last shown, keeps the output minimal. */
  lemma {:induction false} EmitsMinimal(cs: seq<Change>, shown: Sheet, t: Sheet, rest: seq<Op>)
    requires DistinctChanges(cs)
    requires forall j | 0 <= j < |cs| ::
      Eff(t, cs[j].group) == Eff(shown, cs[j].group) && cs[j].style != Eff(shown, cs[j].group)
    requires Minimal(rest, shown, Replay(t, Emits(cs)))
    ensures Minimal(Emits(cs) + rest, shown, t)
    decreases |cs|
  {
    if |cs| == 0 {
      assert Emits(cs) + rest == rest;
    } else {
      var c := cs[0];
      var tail := cs[1..];
      var op := StyleOp(c.group, c.style);
      var t1 := Apply(t, op);
      assert cs == [c] + tail;
      EmitsCons(c, tail);
      assert Emits(cs)[0] == op && Emits(cs)[1..] == Emits(tail);
      assert Replay(t, Emits(cs)) == Replay(t1, Emits(tail));
      forall j | 0 <= j < |tail|
        ensures Eff(t1, tail[j].group) == Eff(shown, tail[j].group) && tail[j].style != Eff(shown, tail[j].group)
      {
        assert tail[j] == cs[j + 1];
        assert cs[j + 1].group.name != c.group.name;
      }
      forall j, k | 0 <= j < k < |tail| ensures tail[j].group.name != tail[k].group.name {
        assert tail[j] == cs[j + 1] && tail[k] == cs[k + 1];
      }
      EmitsMinimal(tail, shown, t1, rest);
      var ops := Emits(cs) + rest;
      assert ops[0] == op && ops[1..] == Emits(tail) + rest;
    }
  }

  /** The patch between two sheets, written while both the terminal and the
      last text look like `before`, is minimal. */
  lemma PatchMinimal(t: Sheet, shown: Sheet, before: Sheet, after: Sheet, rest: seq<Op>)
    requires EffEq(t, before) && EffEq(shown, before)
    requires Minimal(rest, shown, Replay(t, Emits(Patch(before, after))))
    ensures Minimal(Emits(Patch(before, after)) + rest, shown, t)
  {
    BuiltinRegistryWellFormed();
    PatchOverDistinct(Groups, before, after);
    var p := Patch(before, after);
    forall j | 0 <= j < |p|
      ensures Eff(t, p[j].group) == Eff(shown, p[j].group) && p[j].style != Eff(shown, p[j].group)
    {
      var i :| 0 <= i < |Groups| && Groups[i] == p[j].group;
    }
    EmitsMinimal(p, shown, t, rest);
  }

  /** The loop of the optimizer emits a minimal output. */
  lemma {:induction false} RunMinimal(buf: seq<Flat>, state: Sheet, prev: Sheet, t: Sheet)
    requires EffEq(t, prev)
    ensures Minimal(Run(buf, state, prev), t, t)
    decreases |buf|
  {
    if |buf| == 0 {
      PatchMinimal(t, t, prev, InitialState, []);
      assert Emits(Patch(prev, InitialState)) + [] == Emits(Patch(prev, InitialState));
    } else {
      RunUnfold(buf, state, prev);
      if buf[0].SheetItem? {
        RunMinimal(buf[1..], buf[0].sheet, prev, t);
      } else {
        var pre := Emits(Patch(prev, state));
        var t1 := Replay(t, pre);
        EmitStep(t, prev, state);
        var rest := Run(buf[1..], state, state);
        RunMinimal(buf[1..], state, state, t1);
        var after := [TextOp(buf[0].text)] + rest;
        assert after[0] == TextOp(buf[0].text) && after[1..] == rest;
        PatchMinimal(t, t, prev, state, after);
      }
    }
  }

  /** A minimal output never emits a style its group already shows. */
  lemma {:induction false} MinimalIsNonRedundant(ops: seq<Op>, shown: Sheet, t: Sheet)
    requires Minimal(ops, shown, t)
    ensures NonRedundant(ops, t)
    decreases |ops|
  {
    if |ops| > 0 {
      match ops[0]
      case TextOp(_) => MinimalIsNonRedundant(ops[1..], t, t);
      case StyleOp(_, _) => MinimalIsNonRedundant(ops[1..], shown, Apply(t, ops[0]));
    }
  }

  // ---- Text passes through ----

  /** The text an op contributes: one string for a text op, none for a style op. */
  function OpText(op: Op): seq<string>
  {
    if op.TextOp? then [op.text] else []
  }

  function OpTexts(ops: seq<Op>): seq<string>
    decreases |ops|
  {
    if |ops| == 0 then [] else OpText(ops[0]) + OpTexts(ops[1..])
  }

  /** The text a flattened item contributes. */
  function FlatText(item: Flat): seq<string>
  {
    if item.TextItem? then [item.text] else []
  }

  function FlatTexts(buf: seq<Flat>): seq<string>
    decreases |buf|
  {
    if |buf| == 0 then [] else FlatText(buf[0]) + FlatTexts(buf[1..])
  }

  lemma {:induction false} OpTextsAppend(a: seq<Op>, b: seq<Op>)
    ensures OpTexts(a + b) == OpTexts(a) + OpTexts(b)
    decreases |a|
  {
    if |a| == 0 {
      assert a + b == b;
    } else {
      OpTextsAppend(a[1..], b);
      assert (a + b)[0] == a[0] && (a + b)[1..] == a[1..] + b;
      var h := OpText(a[0]);
      var x, y := OpTexts(a[1..]), OpTexts(b);
      assert OpTexts(a + b) == h + (x + y);
      assert OpTexts(a) == h + x;
      assert h + (x + y) == (h + x) + y;
    }
  }

  lemma OpTextsCons(op: Op, ops: seq<Op>)
    ensures op.TextOp? ==> OpTexts([op] + ops) == [op.text] + OpTexts(ops)
  {
    assert ([op] + ops)[0] == op && ([op] + ops)[1..] == ops;
  }

  lemma {:induction false} OpTextsOfEmits(cs: seq<Change>)
    ensures OpTexts(Emits(cs)) == []
    decreases |cs|
  {
    if |cs| > 0 {
      OpTextsOfEmits(cs[1..]);
      assert Emits(cs)[1..] == Emits(cs[1..]);
    }
  }

  lemma {:induction false} RunPassesText(buf: seq<Flat>, state: Sheet, prev: Sheet)
    ensures OpTexts(Run(buf, state, prev)) == FlatTexts(buf)
    decreases |buf|
  {
    if |buf| == 0 {
      OpTextsOfEmits(Patch(prev, InitialState));
    } else {
      RunUnfold(buf, state, prev);
      if buf[0].SheetItem? {
        RunPassesText(buf[1..], buf[0].sheet, prev);
      } else {
        var x := TextOp(buf[0].text);
        var e := Emits(Patch(prev, state));
        var rest := Run(buf[1..], state, state);
        RunPassesText(buf[1..], state, state);
        OpTextsOfEmits(Patch(prev, state));
        OpTextsAppend(e, [x] + rest);
        OpTextsCons(x, rest);
        assert OpTexts(e + ([x] + rest)) == [] + ([buf[0].text] + OpTexts(rest));
      }
    }
  }

  /** Every text item passes through unchanged and in order. */
  lemma OptimizePassesText(buf: seq<Flat>)
    ensures OpTexts(OptimizeSheetsToOpCodes(buf)) == FlatTexts(buf)
  {
    RunPassesText(buf, InitialState, InitialState);
  }

  // ---- The closing resets ----

  /** The sheet the last text was requested in (`state` when there is none). */
  function LastRequested(buf: seq<Flat>, state: Sheet): Sheet {
    var req := Requested(buf, state);
    if |req| == 0 then state else req[|req| - 1].sheet
  }

  /** The state the last text was written in: `prev` if no text is left. */
  function Settled(buf: seq<Flat>, state: Sheet, prev: Sheet): Sheet {
    if |Requested(buf, state)| == 0 then prev else LastRequested(buf, state)
  }

  lemma SettledUnfold(buf: seq<Flat>, state: Sheet, prev: Sheet)
    requires |buf| > 0
    ensures buf[0].SheetItem? ==> Settled(buf, state, prev) == Settled(buf[1..], buf[0].sheet, prev)
    ensures buf[0].TextItem? ==> Settled(buf, state, prev) == Settled(buf[1..], state, state)
  {
    RequestedUnfold(buf, state);
    if buf[0].TextItem? {
      var req := Requested(buf[1..], state);
      var full := [Painted(state, buf[0].text)] + req;
      if |req| == 0 {
        assert full[|full| - 1].sheet == state;
      } else {
        assert full[|full| - 1] == req[|req| - 1];
      }
    }
  }

  lemma {:induction false} RunEndsWithPatch(buf: seq<Flat>, state: Sheet, prev: Sheet) returns (body: seq<Op>)
    ensures Run(buf, state, prev) == body + Emits(Patch(Settled(buf, state, prev), InitialState))
    ensures |body| == 0 || body[|body| - 1].TextOp?
    decreases |buf|, 1
  {
    if |buf| == 0 {
      body := [];
      assert Settled(buf, state, prev) == prev;
      var fin := Emits(Patch(prev, InitialState));
      assert Run(buf, state, prev) == fin;
      assert body + fin == fin;
    } else if buf[0].SheetItem? {
      RunUnfold(buf, state, prev);
      SettledUnfold(buf, state, prev);
      body := RunEndsWithPatch(buf[1..], buf[0].sheet, prev);
    } else {
      body := TextEndsWithPatch(buf, state, prev);
    }
  }

  lemma JoinEndingInText(e: seq<Op>, x: Op, tail: seq<Op>, fin: seq<Op>)
    requires x.TextOp? && (|tail| == 0 || tail[|tail| - 1].TextOp?)
    ensures e + ([x] + (tail + fin)) == (e + ([x] + tail)) + fin
    ensures var body := e + ([x] + tail); |body| > 0 && body[|body| - 1].TextOp?
  {
    var body := e + ([x] + tail);
    if |tail| == 0 {
      assert body[|body| - 1] == x;
    } else {
      assert body[|body| - 1] == tail[|tail| - 1];
    }
  }

  lemma {:induction false} TextEndsWithPatch(buf: seq<Flat>, state: Sheet, prev: Sheet) returns (body: seq<Op>)
    requires |buf| > 0 && buf[0].TextItem?
    ensures Run(buf, state, prev) == body + Emits(Patch(Settled(buf, state, prev), InitialState))
    ensures |body| > 0 && body[|body| - 1].TextOp?
    decreases |buf|, 0
  {
    RunUnfold(buf, state, prev);
    SettledUnfold(buf, state, prev);
    var tail := RunEndsWithPatch(buf[1..], state, state);
    var fin := Emits(Patch(Settled(buf[1..], state, state), InitialState));
    var e := Emits(Patch(prev, state));
    var x := TextOp(buf[0].text);
    JoinEndingInText(e, x, tail, fin);
    body := e + ([x] + tail);
  }

  /** After the last text the optimizer emits exactly the resets of the
      groups that are not effectively at their reset in the last requested
      sheet, in registry order. */
  lemma OptimizeEndsWithResets(buf: seq<Flat>) returns (body: seq<Op>)
    ensures var last := LastRequested(buf, InitialState);
      && OptimizeSheetsToOpCodes(buf) == body + Emits(Patch(last, InitialState))
      && (|body| == 0 || body[|body| - 1].TextOp?)
      && (forall j | 0 <= j < |Patch(last, InitialState)| ::
            var c := Patch(last, InitialState)[j];
            c.style == c.group.reset && Eff(last, c.group) != c.group.reset)
      && (forall i | 0 <= i < |Groups| && Eff(last, Groups[i]) != Groups[i].reset ::
            Change(Groups[i], Groups[i].reset) in Patch(last, InitialState))
  {
    body := RunEndsWithPatch(buf, InitialState, InitialState);
    var last := LastRequested(buf, InitialState);
    assert Settled(buf, InitialState, InitialState) == last;
  }
}
