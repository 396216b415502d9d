/** Styled text trees and their depth-first flattening (`RichStr.dfs` and
    `RichStr.sheetRepr`).

    A tree is an inductive value, so it is acyclic by construction: the
    Python code's "do not build a cycle" obligation on callers disappears. */
module RichText {
  import opened Wrappers
  import opened Styles
  import opened Sheets

  /** A child of a `RichStr`: literal text or a nested `RichStr`. */
  datatype Node = Plain(text: string) | Rich(children: seq<Node>, sheet: Sheet)

  /** The `RichStr` class: the nodes that carry children and a sheet. */
  type RichStr = n: Node | n.Rich? witness Rich([], map[])

  /** An item of the flat representation: a sheet or a piece of text. */
  datatype Flat = SheetItem(sheet: Sheet) | TextItem(text: string)

  /** `RichStr(*args, sheet=None)`: a missing sheet becomes the empty one. */
  function NewRichStr(args: seq<Node>, sheet: Option<Sheet>): (r: RichStr)
    ensures r.children == args
    ensures sheet.None? ==> r.sheet == map[]
    ensures sheet.Some? ==> r.sheet == sheet.value
  {
    Rich(args, ValueOr(sheet, map[]))
  }

  /** `dfs`: the items for node `n` when its parent's effective sheet is
      `inherited`. A text child yields the parent's sheet and then the text;
      a nested node merges its own sheet over the inherited one. */
  function Flatten(n: Node, inherited: Sheet): seq<Flat>
    decreases n
  {
    match n
    case Plain(t) => [SheetItem(inherited), TextItem(t)]
    case Rich(cs, s) => FlattenAll(cs, Merge(inherited, s))
  }

  function FlattenAll(cs: seq<Node>, sheet: Sheet): seq<Flat>
    decreases cs
  {
    if |cs| == 0 then [] else Flatten(cs[0], sheet) + FlattenAll(cs[1..], sheet)
  }

  /** `sheetRepr`: the flattening from the all-reset sheet, followed by the
      all-reset sheet itself. */
  function SheetRepr(r: RichStr): seq<Flat> {
    Flatten(r, AllReset) + [SheetItem(AllReset)]
  }

  // ---- An independent description of the leaves ----

  /** A leaf with the sheets of its ancestors, outermost first. */
  datatype Leaf = Leaf(ancestors: seq<Sheet>, text: string)

  function Leaves(n: Node): seq<Leaf>
    decreases n
  {
    match n
    case Plain(t) => [Leaf([], t)]
    case Rich(cs, s) => Under(s, LeavesAll(cs))
  }

  function LeavesAll(cs: seq<Node>): seq<Leaf>
    decreases cs
  {
    if |cs| == 0 then [] else Leaves(cs[0]) + LeavesAll(cs[1..])
  }

  /** Puts every leaf under one more ancestor sheet. */
  function Under(s: Sheet, ls: seq<Leaf>): (r: seq<Leaf>)
    ensures |r| == |ls|
    ensures forall i | 0 <= i < |ls| :: r[i] == Leaf([s] + ls[i].ancestors, ls[i].text)
  {
    if |ls| == 0 then [] else [Leaf([s] + ls[0].ancestors, ls[0].text)] + Under(s, ls[1..])
  }

  /** The sheet a leaf sees: the inherited sheet with every ancestor's sheet
      merged over it in turn, so an inner sheet wins over an outer one. */
  function Cascade(inherited: Sheet, ancestors: seq<Sheet>): Sheet
    decreases |ancestors|
  {
    if |ancestors| == 0 then inherited else Cascade(Merge(inherited, ancestors[0]), ancestors[1..])
  }

  /** Each leaf as its effective sheet followed by its text. */
  function Expand(inherited: Sheet, ls: seq<Leaf>): (r: seq<Flat>)
    ensures |r| == 2 * |ls|
  {
    if |ls| == 0 then []
    else [SheetItem(Cascade(inherited, ls[0].ancestors)), TextItem(ls[0].text)] + Expand(inherited, ls[1..])
  }

  /** Leaf `i` sits at positions `2i` (its sheet) and `2i+1` (its text). */
  lemma {:induction false} ExpandAt(inherited: Sheet, ls: seq<Leaf>, i: nat)
    requires i < |ls|
    ensures Expand(inherited, ls)[2 * i] == SheetItem(Cascade(inherited, ls[i].ancestors))
    ensures Expand(inherited, ls)[2 * i + 1] == TextItem(ls[i].text)
    decreases i
  {
    if i > 0 {
      ExpandAt(inherited, ls[1..], i - 1);
      var rest := Expand(inherited, ls[1..]);
      assert Expand(inherited, ls)[2 * i] == rest[2 * (i - 1)];
      assert Expand(inherited, ls)[2 * i + 1] == rest[2 * (i - 1) + 1];
    }
  }

  lemma {:induction false} ExpandAppend(inherited: Sheet, a: seq<Leaf>, b: seq<Leaf>)
    ensures Expand(inherited, a + b) == Expand(inherited, a) + Expand(inherited, b)
    decreases |a|
  {
    if |a| > 0 {
      ExpandAppend(inherited, a[1..], b);
      assert (a + b)[1..] == a[1..] + b;
    } else {
      assert a + b == b;
    }
  }

  lemma {:induction false} ExpandUnder(inherited: Sheet, s: Sheet, ls: seq<Leaf>)
    ensures Expand(inherited, Under(s, ls)) == Expand(Merge(inherited, s), ls)
    decreases |ls|
  {
    if |ls| > 0 {
      ExpandUnder(inherited, s, ls[1..]);
      assert Under(s, ls)[1..] == Under(s, ls[1..]);
      assert ([s] + ls[0].ancestors)[1..] == ls[0].ancestors;
    }
  }

  /** The flattening is exactly the leaves in document order, each preceded by
      the inherited sheet with its ancestors' sheets merged over it. */
  lemma {:induction false} FlattenIsExpandedLeaves(n: Node, inherited: Sheet)
    ensures Flatten(n, inherited) == Expand(inherited, Leaves(n))
    decreases n
  {
    match n
    case Plain(t) =>
    case Rich(cs, s) =>
      FlattenAllIsExpandedLeaves(cs, Merge(inherited, s));
      ExpandUnder(inherited, s, LeavesAll(cs));
  }

  lemma {:induction false} FlattenAllIsExpandedLeaves(cs: seq<Node>, sheet: Sheet)
    ensures FlattenAll(cs, sheet) == Expand(sheet, LeavesAll(cs))
    decreases cs
  {
    if |cs| > 0 {
      FlattenIsExpandedLeaves(cs[0], sheet);
      FlattenAllIsExpandedLeaves(cs[1..], sheet);
      ExpandAppend(sheet, Leaves(cs[0]), LeavesAll(cs[1..]));
    }
  }

  /** `sheetRepr` alternates sheets and texts: one pair per leaf, in document
      order, with the leaf's effective sheet, then the all-reset sheet. */
  lemma SheetReprShape(r: RichStr)
    ensures var buf := SheetRepr(r); var ls := Leaves(r);
      && |buf| == 2 * |ls| + 1
      && buf[|buf| - 1] == SheetItem(AllReset)
      && forall i | 0 <= i < |ls| ::
           buf[2 * i] == SheetItem(Cascade(AllReset, ls[i].ancestors)) && buf[2 * i + 1] == TextItem(ls[i].text)
  {
    FlattenIsExpandedLeaves(r, AllReset);
    forall i | 0 <= i < |Leaves(r)|
      ensures SheetRepr(r)[2 * i] == SheetItem(Cascade(AllReset, Leaves(r)[i].ancestors))
      ensures SheetRepr(r)[2 * i + 1] == TextItem(Leaves(r)[i].text)
    {
      ExpandAt(AllReset, Leaves(r), i);
    }
  }

  /** A node's sheet reaches every leaf below it unless a deeper sheet
      overrides the same group. */
  predicate NoSheetSets(n: Node, k: string)
    decreases n
  {
    match n
    case Plain(_) => true
    case Rich(cs, s) => k !in s && forall i | 0 <= i < |cs| :: NoSheetSets(cs[i], k)
  }

  /** Every sheet among `items` maps `k` to `v`. */
  predicate AllSheetsMap(items: seq<Flat>, k: string, v: Style) {
    forall i | 0 <= i < |items| && items[i].SheetItem? :: k in items[i].sheet && items[i].sheet[k] == v
  }

  lemma {:induction false} FlattenKeepsInherited(n: Node, inherited: Sheet, k: string)
    requires k in inherited && NoSheetSets(n, k)
    ensures AllSheetsMap(Flatten(n, inherited), k, inherited[k])
    decreases n
  {
    match n
    case Plain(t) =>
    case Rich(cs, s) =>
      FlattenAllKeepsInherited(cs, Merge(inherited, s), k);
  }

  lemma {:induction false} FlattenAllKeepsInherited(cs: seq<Node>, sheet: Sheet, k: string)
    requires k in sheet && forall i | 0 <= i < |cs| :: NoSheetSets(cs[i], k)
    ensures AllSheetsMap(FlattenAll(cs, sheet), k, sheet[k])
    decreases cs
  {
    if |cs| > 0 {
      FlattenKeepsInherited(cs[0], sheet, k);
      FlattenAllKeepsInherited(cs[1..], sheet, k);
      var a: seq<Flat> := Flatten(cs[0], sheet);
      var b: seq<Flat> := FlattenAll(cs[1..], sheet);
      var ab: seq<Flat> := a + b;
      assert FlattenAll(cs, sheet) == ab;
      forall i | 0 <= i < |ab| && ab[i].SheetItem?
        ensures k in ab[i].sheet && ab[i].sheet[k] == sheet[k]
      {
        if i >= |a| {
          assert ab[i] == b[i - |a|];
        }
      }
    }
  }
}
