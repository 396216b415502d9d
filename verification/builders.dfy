/** Building rich strings: `RichStr.__add__`/`__radd__`, `Styler`,
    `interleavedChain` and `rsjoin`. */
module Builders {
  import opened Wrappers
  import opened Styles
  import opened Sheets
  import opened RichText
  import opened Rendering

  /** `a + b` for a rich string `a`: a new, unstyled rich string of the two. */
  function Add(a: RichStr, b: Node): RichStr {
    NewRichStr([a, b], None)
  }

  /** `b + a` where `b` is not a rich string (`RichStr.__radd__`). */
  function RAdd(a: RichStr, b: Node): RichStr {
    NewRichStr([b, a], None)
  }

  lemma FlattenAllPair(x: Node, y: Node, sheet: Sheet)
    ensures FlattenAll([x, y], sheet) == Flatten(x, sheet) + Flatten(y, sheet)
  {
    assert [x, y][0] == x && [x, y][1..] == [y];
    assert [y][0] == y && [y][1..] == [];
    assert FlattenAll([y], sheet) == Flatten(y, sheet) + FlattenAll([], sheet);
    assert FlattenAll([y], sheet) == Flatten(y, sheet);
  }

  /** Adding puts the two operands side by side: the flattening of the sum is
      the flattening of each operand, in order, under the same inherited
      sheet, and its text is the two texts concatenated. */
  lemma AddConcatenates(a: RichStr, b: Node, inherited: Sheet)
    ensures Flatten(Add(a, b), inherited) == Flatten(a, inherited) + Flatten(b, inherited)
    ensures Flatten(RAdd(a, b), inherited) == Flatten(b, inherited) + Flatten(a, inherited)
    ensures Text(Add(a, b)) == Text(a) + Text(b)
    ensures Text(RAdd(a, b)) == Text(b) + Text(a)
  {
    assert Merge(inherited, map[]) == inherited;
    FlattenAllPair(a, b, inherited);
    FlattenAllPair(b, a, inherited);
    TextAllPair(a, b);
    TextAllPair(b, a);
  }

  lemma TextAllPair(x: Node, y: Node)
    ensures TextAll([x, y]) == Text(x) + Text(y)
  {
    assert [x, y][0] == x && [x, y][1..] == [y];
    assert [y][0] == y && [y][1..] == [];
    assert TextAll([y]) == Text(y) + TextAll([]);
    assert Text(y) + "" == Text(y);
  }

  /** A reusable painter: its sheet is given to every rich string it makes. */
  datatype Styler = Styler(sheet: Sheet)

  /** A styler keeps a sheet it is given and builds one with the `Sheet`
      constructor from anything else; `None` gives every group its reset. */
  function NewStyler(arg: SheetArg): (s: Styler)
    ensures arg.MapArg? ==> s.sheet == arg.entries
    ensures arg.StyleArg? ==> s.sheet.Keys == {arg.style.group} && s.sheet[arg.style.group] == arg.style
    ensures arg.ListArg? ==>
      && (forall j | 0 <= j < |arg.styles| :: arg.styles[j].group in s.sheet)
      && (forall k | k in s.sheet :: s.sheet[k] in arg.styles)
      && (forall j | 0 <= j < |arg.styles| && LastOfGroup(arg.styles, j) ::
            s.sheet[arg.styles[j].group] == arg.styles[j])
    ensures arg.NoneArg? ==>
      && (forall i | 0 <= i < |Groups| :: Groups[i].name in s.sheet && s.sheet[Groups[i].name] == Groups[i].reset)
      && (forall k | k in s.sheet :: IndexOfName(Groups, k) < |Groups|)
      && EffEq(s.sheet, map[])
  {
    AllResetIsEmptyEffectively();
    Styler(MakeSheet(arg))
  }

  /** Calling a styler: a rich string of the arguments under its sheet. */
  function Call(st: Styler, strs: seq<Node>): RichStr {
    NewRichStr(strs, Some(st.sheet))
  }

  /** A styler built from one style paints every text below it in that style,
      unless a deeper sheet overrides the style's group. */
  lemma StylerPaints(style: Style, strs: seq<Node>, inherited: Sheet)
    requires forall i | 0 <= i < |strs| :: NoSheetSets(strs[i], style.group)
    ensures AllSheetsMap(Flatten(Call(NewStyler(StyleArg(style)), strs), inherited), style.group, style)
  {
    var s := NewStyler(StyleArg(style)).sheet;
    FlattenAllKeepsInherited(strs, Merge(inherited, s), style.group);
  }

  /** A styler built from `None` sets every group back to its reset under
      it, whatever the enclosing sheets chose, unless a deeper sheet sets
      the group again. */
  lemma NoneStylerResets(strs: seq<Node>, inherited: Sheet, i: nat)
    requires i < |Groups|
    requires forall c | 0 <= c < |strs| :: NoSheetSets(strs[c], Groups[i].name)
    ensures AllSheetsMap(Flatten(Call(NewStyler(NoneArg), strs), inherited), Groups[i].name, Groups[i].reset)
  {
    var g := Groups[i];
    var st := NewStyler(NoneArg);
    assert g.name in st.sheet && st.sheet[g.name] == g.reset;
    var m := Merge(inherited, st.sheet);
    assert m[g.name] == g.reset;
    CallFlattens(st, strs, inherited);
    FlattenAllKeepsInherited(strs, m, g.name);
  }

  /** A styler's output flattens its arguments under its sheet merged over
      the inherited one. */
  lemma CallFlattens(st: Styler, strs: seq<Node>, inherited: Sheet)
    ensures Flatten(Call(st, strs), inherited) == FlattenAll(strs, Merge(inherited, st.sheet))
  {
  }

  /** `[d, x0, d, x1, ...]`: the delimiter before every item of `xs`. */
  function Prefixed(delim: Node, xs: seq<Node>): (r: seq<Node>)
    ensures |r| == 2 * |xs|
  {
    if |xs| == 0 then [] else [delim, xs[0]] + Prefixed(delim, xs[1..])
  }

  lemma {:induction false} PrefixedAt(delim: Node, xs: seq<Node>, i: nat)
    requires i < |xs|
    ensures Prefixed(delim, xs)[2 * i] == delim && Prefixed(delim, xs)[2 * i + 1] == xs[i]
    decreases i
  {
    if i > 0 {
      PrefixedAt(delim, xs[1..], i - 1);
      var rest := Prefixed(delim, xs[1..]);
      assert Prefixed(delim, xs)[2 * i] == rest[2 * (i - 1)];
      assert Prefixed(delim, xs)[2 * i + 1] == rest[2 * (i - 1) + 1];
    }
  }

  /** `interleavedChain(delim, *items)`: the first item, then the delimiter
      and the next item for each further one. With no item the generator's
      first `next` fails, which surfaces as an error. */
  function InterleavedChain(delim: Node, items: seq<Node>): (r: Result<seq<Node>, string>)
    ensures r.Failure? <==> |items| == 0
    ensures r.Success? ==> |r.value| == 2 * |items| - 1
    ensures r.Success? ==> forall i | 0 <= i < |items| :: r.value[2 * i] == items[i]
    ensures r.Success? ==> forall i | 0 <= i < |items| - 1 :: r.value[2 * i + 1] == delim
  {
    if |items| == 0 then Failure("generator raised StopIteration")
    else
      var r := [items[0]] + Prefixed(delim, items[1..]);
      assert forall i | 0 <= i < |items| - 1 :: r[2 * i + 1] == delim && r[2 * i + 2] == items[i + 1] by {
        forall i | 0 <= i < |items| - 1 ensures r[2 * i + 1] == delim && r[2 * i + 2] == items[i + 1] {
          PrefixedAt(delim, items[1..], i);
        }
      }
      assert forall i | 0 <= i < |items| :: r[2 * i] == items[i] by {
        forall i | 0 <= i < |items| ensures r[2 * i] == items[i] {
          if i > 0 {
            assert r[2 * (i - 1) + 2] == items[(i - 1) + 1];
          }
        }
      }
      Success(r)
  }

  /** Python truthiness of a delimiter: only the empty string is false (a
      rich string defines neither `__bool__` nor `__len__`). */
  predicate Truthy(delim: Node) {
    delim != Plain("")
  }

  /** `rsjoin(delim, items, sheet)` */
  function RsJoin(delim: Node, items: seq<Node>, sheet: Option<Sheet>): (r: Result<RichStr, string>)
    ensures r.Failure? <==> Truthy(delim) && |items| == 0
    ensures r.Success? ==> r.value.sheet == ValueOr(sheet, map[])
    ensures r.Success? && !Truthy(delim) ==> r.value.children == items
    ensures r.Success? && Truthy(delim) ==>
      && |r.value.children| == 2 * |items| - 1
      && (forall i | 0 <= i < |items| :: r.value.children[2 * i] == items[i])
      && (forall i | 0 <= i < |items| - 1 :: r.value.children[2 * i + 1] == delim)
  {
    if Truthy(delim) then
      match InterleavedChain(delim, items)
      case Success(substrs) => Success(NewRichStr(substrs, sheet))
      case Failure(e) => Failure(e)
    else Success(NewRichStr(items, sheet))
  }

  /** The delimiter followed by each text in turn. */
  function PrefixedText(d: string, ts: seq<string>): string
    decreases |ts|
  {
    if |ts| == 0 then "" else d + ts[0] + PrefixedText(d, ts[1..])
  }

  /** `d.join(ts)` */
  function StrJoin(d: string, ts: seq<string>): string {
    if |ts| == 0 then "" else ts[0] + PrefixedText(d, ts[1..])
  }

  function Plains(ts: seq<string>): (r: seq<Node>)
    ensures |r| == |ts| && forall i | 0 <= i < |ts| :: r[i] == Plain(ts[i])
  {
    if |ts| == 0 then [] else [Plain(ts[0])] + Plains(ts[1..])
  }

  lemma {:induction false} TextOfPrefixed(d: string, ts: seq<string>)
    ensures TextAll(Prefixed(Plain(d), Plains(ts))) == PrefixedText(d, ts)
    decreases |ts|
  {
    if |ts| > 0 {
      TextOfPrefixed(d, ts[1..]);
      var ps := Plains(ts);
      assert ps[1..] == Plains(ts[1..]);
      var tail := Prefixed(Plain(d), ps[1..]);
      var pre := Prefixed(Plain(d), ps);
      assert pre == [Plain(d), Plain(ts[0])] + tail;
      assert pre[0] == Plain(d) && pre[1..] == [Plain(ts[0])] + tail;
      assert pre[1..][0] == Plain(ts[0]) && pre[1..][1..] == tail;
      assert TextAll(pre) == d + TextAll(pre[1..]);
      assert TextAll(pre[1..]) == ts[0] + TextAll(tail);
    }
  }

  lemma {:induction false} TextOfPlains(ts: seq<string>)
    ensures TextAll(Plains(ts)) == PrefixedText("", ts)
    decreases |ts|
  {
    if |ts| > 0 {
      TextOfPlains(ts[1..]);
      assert Plains(ts)[1..] == Plains(ts[1..]);
      assert "" + ts[0] == ts[0];
    }
  }

  lemma {:induction false} RsJoinTextUndelimited(ts: seq<string>, sheet: Option<Sheet>)
    ensures RsJoin(Plain(""), Plains(ts), sheet) == Success(NewRichStr(Plains(ts), sheet))
    ensures Text(NewRichStr(Plains(ts), sheet)) == StrJoin("", ts)
  {
    TextOfPlains(ts);
    if |ts| > 0 {
      assert PrefixedText("", ts) == "" + ts[0] + PrefixedText("", ts[1..]);
    }
  }

  lemma {:induction false} RsJoinTextDelimited(d: string, ts: seq<string>, sheet: Option<Sheet>)
    requires d != "" && |ts| > 0
    ensures RsJoin(Plain(d), Plains(ts), sheet) ==
      Success(NewRichStr([Plain(ts[0])] + Prefixed(Plain(d), Plains(ts[1..])), sheet))
    ensures Text(NewRichStr([Plain(ts[0])] + Prefixed(Plain(d), Plains(ts[1..])), sheet)) == StrJoin(d, ts)
  {
    var ps := Plains(ts);
    assert ps[1..] == Plains(ts[1..]);
    var tail := Prefixed(Plain(d), ps[1..]);
    var chain := [ps[0]] + tail;
    assert InterleavedChain(Plain(d), ps) == Success(chain);
    TextOfPrefixed(d, ts[1..]);
    assert chain[0] == Plain(ts[0]) && chain[1..] == tail;
    assert TextAll(chain) == ts[0] + TextAll(tail);
  }

  /** On plain texts `rsjoin` joins like `str.join`: the text of the result is
      the texts with the delimiter between each two. */
  lemma RsJoinText(d: string, ts: seq<string>, sheet: Option<Sheet>)
    requires d == "" || |ts| > 0
    ensures RsJoin(Plain(d), Plains(ts), sheet).Success?
    ensures Text(RsJoin(Plain(d), Plains(ts), sheet).value) == StrJoin(d, ts)
  {
    if d == "" {
      RsJoinTextUndelimited(ts, sheet);
    } else {
      RsJoinTextDelimited(d, ts, sheet);
    }
  }

  predicate AllPlain(cs: seq<Node>) {
    forall i | 0 <= i < |cs| :: cs[i].Plain?
  }

  lemma {:induction false} PrefixedPlain(d: string, ts: seq<string>)
    ensures AllPlain(Prefixed(Plain(d), Plains(ts)))
    decreases |ts|
  {
    if |ts| > 0 {
      PrefixedPlain(d, ts[1..]);
      assert Plains(ts)[1..] == Plains(ts[1..]);
    }
  }

  /** What `rsjoin` builds from plain texts holds plain texts only. */
  lemma RsJoinPlainChildren(d: string, ts: seq<string>, sheet: Option<Sheet>)
    requires d == "" || |ts| > 0
    ensures RsJoin(Plain(d), Plains(ts), sheet).Success?
    ensures AllPlain(RsJoin(Plain(d), Plains(ts), sheet).value.children)
  {
    if d == "" {
      RsJoinTextUndelimited(ts, sheet);
    } else {
      RsJoinTextDelimited(d, ts, sheet);
      PrefixedPlain(d, ts[1..]);
    }
  }

  /** Joining plain texts under a neutral sheet (or none) renders exactly
      as `str.join`: no control code is written. */
  lemma RsJoinRendersLikeJoin(d: string, ts: seq<string>, sheet: Option<Sheet>)
    requires d == "" || |ts| > 0
    requires sheet.None? || Neutral(sheet.value)
    ensures RsJoin(Plain(d), Plains(ts), sheet).Success?
    ensures Render(RsJoin(Plain(d), Plains(ts), sheet).value) == StrJoin(d, ts)
  {
    RsJoinText(d, ts, sheet);
    RsJoinPlainChildren(d, ts, sheet);
    var r := RsJoin(Plain(d), Plains(ts), sheet).value;
    assert r.sheet == ValueOr(sheet, map[]);
    PlainUnderNeutral(r);
    NeutralRendersPlain(r);
  }

  lemma PlainUnderNeutral(r: RichStr)
    requires AllPlain(r.children) && Neutral(r.sheet)
    ensures AllNeutral(r)
  {
  }
}
