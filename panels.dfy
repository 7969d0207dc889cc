/**
 * The `mortise` panel tree as one object: the nodes of the tree, the axes each rendered
 * panel holds, whether the root owns a figure, and the legend managers panels have asked for.
 * A panel is named by its index in `nodes`; node `0` is the root.
 */
module Panels {
  import opened Outcomes
  import opened Geometry
  import opened Tree
  import opened LegendInfo
  import opened Legends

  /** The part of a matplotlib axes the layout reads and writes: placement, view limits and drawn entries. */
  datatype Axes<H> = Axes(rect: Rect, xlim: Range, ylim: Range, canvas: Canvas<H>)

  /** The view range of a new axes. */
  const DefaultRange: Range := Range(0.0, 1.0)

  /** A new axes at `r`: default limits, nothing drawn, no legend. */
  function Fresh<H>(r: Rect): Axes<H> {
    Axes(r, DefaultRange, DefaultRange, Canvas([], None))
  }

  /** The conditions the panel methods raise on. */
  datatype PanelError =
    | BadPosition(pos: string)
    | Occupied(side: Side)
    | Unrendered
    | NoManager
    | UnknownLegendMode(mode: string)

  // ----- tree queries -----

  /**
   * `get_tenon(pos, index)`: an unknown side raises; otherwise the tenon at `index` of that
   * side, with Python's negative indexing, or None when there is none.
   */
  function GetTenon(ns: seq<Node>, i: nat, pos: string, index: int): (r: Result<Option<nat>, PanelError>)
    requires Shape(ns) && i < |ns|
    ensures r.Err? <==> ParseSide(pos).None?
    ensures r.Err? ==> r.error == BadPosition(pos)
    ensures r.Ok? ==> var list := Kids(ns, i, ParseSide(pos).value);
      && (r.value.Some? <==> -|list| <= index < |list|)
      && (r.value.Some? ==> r.value.value in list && KidOk(ns, i, ParseSide(pos).value, r.value.value))
      && (0 <= index < |list| ==> r.value == Some(list[index]))
      && (-|list| <= index < 0 ==> r.value == Some(list[|list| + index]))
  {
    match ParseSide(pos)
    case None => Err(BadPosition(pos))
    case Some(s) =>
      var list := ns[i].kids.Get(s);
      if list == [] then Ok(None)
      else
        var k := if index < 0 then |list| + index else index;
        if 0 <= k < |list| then Ok(Some(list[k])) else Ok(None)
  }

  /**
   * Where `tenon(pos)` on node `i` attaches the new panel: an unknown side raises; a free side
   * takes it at `i`; an occupied side of the root passes it down to the outermost tenon of that
   * side; an occupied side of any other node raises.
   */
  ghost function Target(ns: seq<Node>, i: nat, pos: string): (r: Result<(nat, Side), PanelError>)
    requires Shape(ns) && i < |ns|
    ensures r.Err? <==> ParseSide(pos).None? || (Kids(ns, i, ParseSide(pos).value) != [] && i != 0)
    ensures r.Ok? ==> var (t, s) := r.value;
      && Some(s) == ParseSide(pos)
      && t < |ns| && Desc(ns, i, t) && Column(ns, s, i, t) && Kids(ns, t, s) == []
      && (t == i <==> Kids(ns, i, s) == [])
  {
    match ParseSide(pos)
    case None => Err(BadPosition(pos))
    case Some(s) =>
      OnlyRootIsParentless(ns, i);
      if Kids(ns, i, s) != [] && ns[i].parent.None? then
        Ok((Outermost(ns, i, s), s))
      else if Kids(ns, i, s) != [] then
        Err(Occupied(s))
      else
        assert Desc(ns, i, i) && Column(ns, s, i, i);
        Ok((i, s))
  }

  /** The opening of `tenon(pos)`: parse the side, then keep `i`, pass down from the root, or raise. */
  method LocateTarget(ns: seq<Node>, i: nat, pos: string) returns (r: Result<(nat, Side), PanelError>)
    requires Shape(ns) && i < |ns|
    ensures r == Target(ns, i, pos)
  {
    var p := ParseSide(pos);
    if p.None? {
      return Err(BadPosition(pos));
    }
    var s := p.value;
    if ns[i].kids.Get(s) != [] && ns[i].parent.None? {
      var t := FindOutermost(ns, i, s);
      return Ok((t, s));
    } else if ns[i].kids.Get(s) != [] {
      return Err(Occupied(s));
    }
    return Ok((i, s));
  }

  // ----- the re-render of `tenon` -----

  /** The rectangle a full render of the root into the figure inset gives node `j`. */
  function FigureRect(ns: seq<Node>, j: nat): (r: Rect)
    requires Shape(ns) && j < |ns|
    ensures Proper(r) && Inside(r, Inset)
  {
    RootReaches(ns, j);
    PlacedInside(ns, 0, Inset, j);
    PlacedRect(ns, 0, Inset, j)
  }

  /**
   * The axes of one node after `fig.clear()`, a full render and the style restore: a new axes at
   * its place, carrying over the saved x and y limits when the node had axes before.
   */
  function Restored<H>(r: Rect, saved: Option<Axes<H>>): Axes<H> {
    match saved
    case None => Fresh(r)
    case Some(ax) => Fresh(r).(xlim := ax.xlim, ylim := ax.ylim)
  }

  /** `_auto_align_new_tenon`: a top/bottom tenon takes the parent's x limits, a left/right one its y limits. */
  function AlignNew<H>(parent: Axes<H>, child: Axes<H>, s: Side): (r: Axes<H>)
    ensures r.rect == child.rect && r.canvas == child.canvas
    ensures Horizontal(s) ==> r.ylim == parent.ylim && r.xlim == child.xlim
    ensures !Horizontal(s) ==> r.xlim == parent.xlim && r.ylim == child.ylim
  {
    if Horizontal(s) then child.(ylim := parent.ylim) else child.(xlim := parent.xlim)
  }

  // ----- `align_axes` -----

  /** The axes `align_axes(direction)` sets the x limits of, and the y limits of. */
  predicate AlignsX(direction: string) {
    direction == "x" || direction == "both"
  }

  predicate AlignsY(direction: string) {
    direction == "y" || direction == "both"
  }

  /** The default targets of `align_axes`: the top and bottom tenons for x, then the left and right ones for y. */
  function AlignTargets(ns: seq<Node>, i: nat, direction: string): (ts: seq<nat>)
    requires Shape(ns) && i < |ns|
    ensures forall t :: t in ts <==>
      t in (if AlignsX(direction) then Kids(ns, i, Top) + Kids(ns, i, Bottom) else []) ||
      t in (if AlignsY(direction) then Kids(ns, i, Left) + Kids(ns, i, Right) else [])
    ensures forall k :: 0 <= k < |ts| ==> ts[k] < |ns|
  {
    var k := ns[i].kids;
    KidsBelow(ns, i);
    assert k.top == Kids(ns, i, Top) && k.bottom == Kids(ns, i, Bottom);
    assert k.left == Kids(ns, i, Left) && k.right == Kids(ns, i, Right);
    (if AlignsX(direction) then k.top + k.bottom else []) + (if AlignsY(direction) then k.left + k.right else [])
  }

  /** One target's axes after `align_axes`: rendered targets take the limits of the aligned directions. */
  function Aligned1<H>(target: Option<Axes<H>>, direction: string, xl: Range, yl: Range): (r: Option<Axes<H>>)
    ensures r.None? <==> target.None?
    ensures r.Some? ==> && r.value.rect == target.value.rect && r.value.canvas == target.value.canvas
                        && r.value.xlim == (if AlignsX(direction) then xl else target.value.xlim)
                        && r.value.ylim == (if AlignsY(direction) then yl else target.value.ylim)
  {
    match target
    case None => None
    case Some(ax) =>
      var ax' := if AlignsX(direction) then ax.(xlim := xl) else ax;
      Some(if AlignsY(direction) then ax'.(ylim := yl) else ax')
  }

  /** Aligning a target a second time with the same limits changes nothing. */
  lemma AlignedTwice<H>(target: Option<Axes<H>>, direction: string, xl: Range, yl: Range)
    ensures Aligned1(Aligned1(target, direction, xl, yl), direction, xl, yl) == Aligned1(target, direction, xl, yl)
  {
  }

  /** The loop of `align_axes` over its targets `ts`. */
  method AlignAll<H>(a: seq<Option<Axes<H>>>, ts: seq<nat>, direction: string, xl: Range, yl: Range)
    returns (b: seq<Option<Axes<H>>>)
    ensures |b| == |a|
    ensures forall j :: 0 <= j < |a| ==> b[j] == if j in ts then Aligned1(a[j], direction, xl, yl) else a[j]
  {
    b := a;
    for k := 0 to |ts|
      invariant |b| == |a|
      invariant forall j :: 0 <= j < |a| ==> b[j] == if j in ts[..k] then Aligned1(a[j], direction, xl, yl) else a[j]
    {
      var t := ts[k];
      assert forall j :: j in ts[..k + 1] <==> j in ts[..k] || j == t;
      if t < |b| {
        AlignedTwice(a[t], direction, xl, yl);
        b := b[t := Aligned1(b[t], direction, xl, yl)];
      }
    }
    assert ts[..|ts|] == ts;
  }

  // ----- legends -----

  /** Python's `position or default`: a missing or empty position takes the default. */
  function OrDefault(position: Option<string>, default: string): (r: string)
    ensures position.Some? && position.value != "" ==> r == position.value
    ensures position.None? || position.value == "" ==> r == default
  {
    if position.Some? && position.value != "" then position.value else default
  }

  /** The canvases of the rendered panels, by panel id. */
  function CanvasesOf<H>(axes: seq<Option<Axes<H>>>): (cs: map<nat, Canvas<H>>)
    ensures forall j: nat :: j in cs <==> j < |axes| && axes[j].Some?
    ensures forall j :: j in cs ==> cs[j] == axes[j].value.canvas
  {
    map j: nat | j < |axes| && axes[j].Some? :: axes[j].value.canvas
  }

  /** The axes with the canvases `cs` written back into the rendered panels. */
  function WithCanvases<H>(axes: seq<Option<Axes<H>>>, cs: map<nat, Canvas<H>>): (r: seq<Option<Axes<H>>>)
    ensures |r| == |axes|
    ensures forall j :: 0 <= j < |axes| ==>
      r[j] == if axes[j].Some? && j in cs then Some(axes[j].value.(canvas := cs[j])) else axes[j]
  {
    seq(|axes|, j requires 0 <= j < |axes| =>
      if axes[j].Some? && j in cs then Some(axes[j].value.(canvas := cs[j])) else axes[j])
  }

  /** Writing back the canvases just read changes nothing. */
  lemma WriteBackReadIsIdentity<H>(axes: seq<Option<Axes<H>>>)
    ensures WithCanvases(axes, CanvasesOf(axes)) == axes
  {
    var r := WithCanvases(axes, CanvasesOf(axes));
    forall j | 0 <= j < |axes| ensures r[j] == axes[j] {
      if axes[j].Some? {
        assert (j as nat) in CanvasesOf(axes);
      }
    }
  }

  /** Writing back canvases and reading them again gives the written canvases, on the rendered panels. */
  lemma ReadAfterWriteBack<H>(axes: seq<Option<Axes<H>>>, cs: map<nat, Canvas<H>>)
    requires forall j: nat :: j in cs <==> j < |axes| && axes[j].Some?
    ensures CanvasesOf(WithCanvases(axes, cs)) == cs
  {
    var r := WithCanvases(axes, cs);
    assert forall j: nat :: j < |r| ==> (r[j].Some? <==> axes[j].Some?);
  }

  /** The panels a walk of `_add_all_mortises_to_legend_manager` from `i` registers: `n` below `i`, every node on the way holding a manager. */
  predicate Reach(ns: seq<Node>, owners: set<nat>, i: nat, n: nat)
    decreases n
  {
    n in owners && (n == i || (i < n < |ns| && ns[n].parent.Some? && ns[n].parent.value < n &&
                               Reach(ns, owners, i, ns[n].parent.value)))
  }

  /** Owned(ns, owners, i, n): every panel on the way from `i` down to `n` holds a manager. */
  ghost predicate Owned(ns: seq<Node>, owners: set<nat>, i: nat, n: nat) {
    forall m :: Desc(ns, i, m) && Desc(ns, m, n) ==> m in owners
  }

  /** The walk from `i` reaches `n` exactly when `n` lies below `i` and every panel on the way holds a manager. */
  lemma {:induction false} ReachIsOwnedPath(ns: seq<Node>, owners: set<nat>, i: nat, n: nat)
    decreases n
    ensures Reach(ns, owners, i, n) <==> Desc(ns, i, n) && Owned(ns, owners, i, n)
  {
    if n != i && i < n < |ns| && ns[n].parent.Some? && ns[n].parent.value < n {
      var p := ns[n].parent.value;
      ReachIsOwnedPath(ns, owners, i, p);
      if Desc(ns, i, n) && Owned(ns, owners, i, n) {
        forall m | Desc(ns, i, m) && Desc(ns, m, p) ensures m in owners {
          DescLe(ns, m, p);
        }
      }
      if Reach(ns, owners, i, n) {
        forall m | Desc(ns, i, m) && Desc(ns, m, n) ensures m in owners {
          if m != n {
            assert Desc(ns, m, p);
          }
        }
      }
    } else if n == i && i in owners {
      forall m | Desc(ns, i, m) && Desc(ns, m, n) ensures m in owners {
        DescLe(ns, i, m);
        DescLe(ns, m, n);
      }
    }
  }

  /**
   * The axes after `tenon` re-rendered the figure: every panel holds a new axes at its place in
   * the figure inset, with the limits saved before the re-render, and nothing drawn; with
   * `autoAlign` the new panel `|saved|` then takes the limits of its parent `t` along the side `s`.
   */
  function Redrawn<H>(ns: seq<Node>, saved: seq<Option<Axes<H>>>, t: nat, s: Side, autoAlign: bool)
    : (r: seq<Option<Axes<H>>>)
    requires Shape(ns) && |ns| == |saved| + 1 && t < |saved|
    ensures |r| == |ns|
    ensures forall j :: 0 <= j < |ns| ==> r[j].Some? && r[j].value.rect == FigureRect(ns, j)
    ensures forall j :: 0 <= j < |ns| ==> r[j].value.canvas == Canvas([], None)
    ensures forall j :: 0 <= j < |saved| && saved[j].Some? ==>
      r[j].value.xlim == saved[j].value.xlim && r[j].value.ylim == saved[j].value.ylim
  {
    seq(|ns|, j requires 0 <= j < |ns| => Some(RedrawnAt(ns, saved, t, s, autoAlign, j)))
  }

  /** Panel `j` of `Redrawn`. */
  function RedrawnAt<H>(ns: seq<Node>, saved: seq<Option<Axes<H>>>, t: nat, s: Side, autoAlign: bool, j: nat)
    : (ax: Axes<H>)
    requires Shape(ns) && |ns| == |saved| + 1 && t < |saved| && j < |ns|
    ensures ax.rect == FigureRect(ns, j) && ax.canvas == Canvas([], None)
    ensures j < |saved| && saved[j].Some? ==> ax.xlim == saved[j].value.xlim && ax.ylim == saved[j].value.ylim
  {
    var c := |saved|;
    var base := Restored(FigureRect(ns, j), if j < c then saved[j] else None);
    if j == c && autoAlign then AlignNew(Restored(FigureRect(ns, t), saved[t]), base, s) else base
  }

  /** The four side loops of `render` together render exactly the subtree of `i` below `i`. */
  lemma RenderCombine<H>(ns: seq<Node>, i: nat, a: Rect,
                         a0: seq<Option<Axes<H>>>, a1: seq<Option<Axes<H>>>, a2: seq<Option<Axes<H>>>,
                         a3: seq<Option<Axes<H>>>, a4: seq<Option<Axes<H>>>)
    requires Shape(ns) && i < |ns|
    requires |a0| == |a1| == |a2| == |a3| == |a4| == |ns|
    requires forall j :: 0 <= j < |ns| ==>
      a1[j] == if Desc(ns, i, j) && Under(ns, Kids(ns, i, Left), j) then Some(Fresh(PlacedRect(ns, i, a, j))) else a0[j]
    requires forall j :: 0 <= j < |ns| ==>
      a2[j] == if Desc(ns, i, j) && Under(ns, Kids(ns, i, Right), j) then Some(Fresh(PlacedRect(ns, i, a, j))) else a1[j]
    requires forall j :: 0 <= j < |ns| ==>
      a3[j] == if Desc(ns, i, j) && Under(ns, Kids(ns, i, Top), j) then Some(Fresh(PlacedRect(ns, i, a, j))) else a2[j]
    requires forall j :: 0 <= j < |ns| ==>
      a4[j] == if Desc(ns, i, j) && Under(ns, Kids(ns, i, Bottom), j) then Some(Fresh(PlacedRect(ns, i, a, j))) else a3[j]
    ensures forall j :: 0 <= j < |ns| ==>
      a4[j] == if Desc(ns, i, j) && j != i then Some(Fresh(PlacedRect(ns, i, a, j))) else a0[j]
  {
    forall j | 0 <= j < |ns|
      ensures a4[j] == if Desc(ns, i, j) && j != i then Some(Fresh(PlacedRect(ns, i, a, j))) else a0[j]
    {
      UnderIsDesc(ns, i, Left, j);
      UnderIsDesc(ns, i, Right, j);
      UnderIsDesc(ns, i, Top, j);
      UnderIsDesc(ns, i, Bottom, j);
      if j != i && Desc(ns, i, j) {
        DescLe(ns, i, j);
        DescSplit(ns, i, j);
      }
    }
  }

  /** The slot the cursor loop of side `s` builds at step `k` is the `k`-th allotment of that side. */
  lemma SlotIsAllotment(ns: seq<Node>, i: nat, s: Side, a: Rect, k: nat, cur: real, fixed: real, pw: real, ph: real)
    requires Shape(ns) && i < |ns| && k < |Kids(ns, i, s)|
    requires var e := Env(ns, i);
      var z := ns[Kids(ns, i, s)[k]].size;
      && cur == CursorStart(s, a, e, ns[i].size) + Advance(s, e, a, SizesOf(ns, Kids(ns, i, s))[..k])
      && fixed == CursorFixed(s, a, e, ns[i].size)
      && pw == Frac(z.w, e.totalW, a.w) && ph == Frac(z.h, e.totalH, a.h)
    ensures ChildAllocs(ns, i, s, a)[k] == if Horizontal(s) then Rect(cur, fixed, pw, ph) else Rect(fixed, cur, pw, ph)
  {
    var e := Env(ns, i);
    var zs := SizesOf(ns, Kids(ns, i, s));
    assert zs[k] == ns[Kids(ns, i, s)[k]].size;
    assert ChildAllocs(ns, i, s, a) == SideAllocs(s, a, e, ns[i].size, zs);
    AllocAt(s, a, e, ns[i].size, zs, k);
  }

  /** The re-render in `tenon`, restored limits included, followed by the auto-alignment of the new panel gives `Redrawn`. */
  lemma RedrawnIs<H>(ns: seq<Node>, saved: seq<Option<Axes<H>>>, t: nat, s: Side, autoAlign: bool,
                     restored: seq<Option<Axes<H>>>, last: seq<Option<Axes<H>>>)
    requires Shape(ns) && |ns| == |saved| + 1 && t < |saved|
    requires |restored| == |ns|
    requires forall j :: 0 <= j < |ns| ==>
      restored[j] == Some(Restored(FigureRect(ns, j), if j < |saved| then saved[j] else None))
    requires last == if autoAlign && restored[t].Some? && restored[|saved|].Some?
                     then restored[|saved| := Some(AlignNew(restored[t].value, restored[|saved|].value, s))]
                     else restored
    ensures last == Redrawn(ns, saved, t, s, autoAlign)
  {
    var want := Redrawn(ns, saved, t, s, autoAlign);
    var c := |saved|;
    assert |last| == |want|;
    forall j | 0 <= j < |ns| ensures last[j] == want[j] {
      assert want[j] == Some(RedrawnAt(ns, saved, t, s, autoAlign, j));
      if j != c {
        assert last[j] == restored[j];
      }
    }
  }

  /** Rendering the `k`-th tenon of side `s` extends the rendered part of the side's run by that tenon's subtree. */
  lemma RenderStep<H>(ns: seq<Node>, i: nat, a: Rect, s: Side, k: nat,
                      before: seq<Option<Axes<H>>>, mid: seq<Option<Axes<H>>>, after: seq<Option<Axes<H>>>)
    requires Shape(ns) && i < |ns| && k < |Kids(ns, i, s)|
    requires |before| == |mid| == |after| == |ns|
    requires var list := Kids(ns, i, s);
      forall j :: 0 <= j < |ns| ==>
        mid[j] == if Desc(ns, i, j) && Under(ns, list[..k], j) then Some(Fresh(PlacedRect(ns, i, a, j))) else before[j]
    requires var c := Kids(ns, i, s)[k];
      c < |ns| &&
      forall j :: 0 <= j < |ns| ==>
        after[j] == if Desc(ns, c, j) then Some(Fresh(PlacedRect(ns, c, ChildAllocs(ns, i, s, a)[k], j))) else mid[j]
    ensures var list := Kids(ns, i, s);
      forall j :: 0 <= j < |ns| ==>
        after[j] == if Desc(ns, i, j) && Under(ns, list[..k + 1], j) then Some(Fresh(PlacedRect(ns, i, a, j))) else before[j]
  {
    var list := Kids(ns, i, s);
    var c := list[k];
    forall j | 0 <= j < |ns|
      ensures after[j] == if Desc(ns, i, j) && Under(ns, list[..k + 1], j) then Some(Fresh(PlacedRect(ns, i, a, j))) else before[j]
    {
      UnderStep(ns, list, k, j);
      if Desc(ns, c, j) {
        AllocShift(ns, i, a, s, k, j);
      }
    }
  }

  /**
   * What the mode dispatch of `create_legend` leaves behind, for a manager with registered panels
   * `ms` whose figure legend was `before` and is `after`, and axes `ax0` before and `ax1` after.
   */
  ghost predicate LegendsShown<H>(mode: string, position: Option<string>, ncol: Option<int>, positions: map<nat, string>,
                                  ms: seq<nat>, ax0: seq<Option<Axes<H>>>, r: Result<Output<H>, PanelError>,
                                  ax1: seq<Option<Axes<H>>>, before: Option<GlobalLegend<H>>, after: Option<GlobalLegend<H>>)
  {
    var cs := CanvasesOf(ax0);
    if mode == "global" then
      var g := GlobalFor(ms, cs, OrDefault(position, "upper center"), ncol);
      r == Ok(GlobalOut(g)) && ax1 == ax0 && after == (if g.Some? then g else before)
    else if mode == "local" then
      r == Ok(LocalOut(LocalsFor(ms, cs, positions))) && ax1 == WithCanvases(ax0, AfterLocals(ms, cs, positions))
      && after == before
    else if mode == "mixed" then
      var g := GlobalFor(ms, cs, OrDefault(position, "upper center"), ncol);
      r == Ok(MixedOut(g, LocalsFor(ms, cs, positions))) && ax1 == WithCanvases(ax0, AfterLocals(ms, cs, positions))
      && after == (if g.Some? then g else before)
    else
      var g := GlobalFor(ms, cs, "upper center", None);
      match ChooseMode(|Collected(ms, cs).unique|, |ms|)
      case GlobalMode =>
        r == Ok(GlobalOut(g)) && ax1 == ax0 && after == (if g.Some? then g else before)
      case LocalMode =>
        r == Ok(LocalOut(LocalsFor(ms, cs, map[]))) && ax1 == WithCanvases(ax0, AfterLocals(ms, cs, map[]))
        && after == before
      case MixedMode =>
        r == Ok(MixedOut(g, LocalsFor(ms, cs, map[]))) && ax1 == WithCanvases(ax0, AfterLocals(ms, cs, map[]))
        && after == (if g.Some? then g else before)
  }

  /**
   * The mode dispatch of `create_legend` on the manager `m` and the rendered canvases `cs`:
   * 'global' and 'mixed' place the figure legend at `position` or 'upper center', 'local' and
   * 'mixed' place the local legends at `positions`, 'auto' lets the manager choose.
   */
  method Dispatch<H>(m: LegendManager<H>, mode: string, position: Option<string>, ncol: Option<int>,
                     positions: map<nat, string>, cs: map<nat, Canvas<H>>)
    returns (r: Result<Output<H>, PanelError>, cs': map<nat, Canvas<H>>)
    requires mode in ["global", "local", "mixed", "auto"]
    modifies m
    ensures m.mortises == old(m.mortises)
    ensures mode == "global" ==>
      var g := GlobalFor(m.mortises, cs, OrDefault(position, "upper center"), ncol);
      r == Ok(GlobalOut(g)) && cs' == cs && m.globalLegend == (if g.Some? then g else old(m.globalLegend))
    ensures mode == "local" ==>
      r == Ok(LocalOut(LocalsFor(m.mortises, cs, positions))) && cs' == AfterLocals(m.mortises, cs, positions)
      && m.globalLegend == old(m.globalLegend)
    ensures mode == "mixed" ==>
      var g := GlobalFor(m.mortises, cs, OrDefault(position, "upper center"), ncol);
      r == Ok(MixedOut(g, LocalsFor(m.mortises, cs, positions))) && cs' == AfterLocals(m.mortises, cs, positions)
      && m.globalLegend == (if g.Some? then g else old(m.globalLegend))
    ensures mode == "auto" ==>
      var g := GlobalFor(m.mortises, cs, "upper center", None);
      match ChooseMode(|Collected(m.mortises, cs).unique|, |m.mortises|)
      case GlobalMode =>
        r == Ok(GlobalOut(g)) && cs' == cs && m.globalLegend == (if g.Some? then g else old(m.globalLegend))
      case LocalMode =>
        r == Ok(LocalOut(LocalsFor(m.mortises, cs, map[]))) && cs' == AfterLocals(m.mortises, cs, map[])
        && m.globalLegend == old(m.globalLegend)
      case MixedMode =>
        r == Ok(MixedOut(g, LocalsFor(m.mortises, cs, map[]))) && cs' == AfterLocals(m.mortises, cs, map[])
        && m.globalLegend == (if g.Some? then g else old(m.globalLegend))
  {
    cs' := cs;
    if mode == "global" {
      var g := m.CreateGlobalLegend(OrDefault(position, "upper center"), ncol, cs);
      r := Ok(GlobalOut(g));
    } else if mode == "local" {
      var locals;
      locals, cs' := m.CreateLocalLegends(positions, cs);
      r := Ok(LocalOut(locals));
    } else if mode == "mixed" {
      var g, locals;
      g, locals, cs' := m.CreateMixedLegends(OrDefault(position, "upper center"), positions, ncol, cs);
      r := Ok(MixedOut(g, locals));
    } else {
      var out;
      out, cs' := m.AutoLayoutLegends("auto", cs);
      r := if out.Ok? then Ok(out.value) else Err(UnknownLegendMode(mode));
    }
  }

  class Layout<H> {
    /** The panels; node `0` is the root `mortise`. */
    var nodes: seq<Node>
    /** The axes of each panel, None until it is rendered. */
    var axes: seq<Option<Axes<H>>>
    /** Whether the root holds the figure it renders into (`root._fig`). */
    var figure: bool
    /** The legend managers panels have asked for, by panel id. */
    var managers: map<nat, LegendManager<H>>

    /** The shape of the tree and one axes slot per panel; managers of distinct panels are distinct objects. */
    ghost predicate Wf()
      reads this
    {
      && Shape(nodes)
      && |axes| == |nodes|
      && (forall n :: n in managers ==> n < |nodes|)
      && Distinct()
    }

    /** Distinct panels hold distinct managers. */
    ghost predicate Distinct()
      reads this
    {
      forall m, n :: m in managers && n in managers && m != n ==> managers[m] != managers[n]
    }

    /** Between operations: once the root owns a figure, every panel is rendered. */
    ghost predicate Valid()
      reads this
    {
      Wf() && (figure ==> forall j :: 0 <= j < |axes| ==> axes[j].Some?)
    }

    /**
     * `mortise(figsize, axoff, auto_render)`: a root panel of the figure's size; with
     * `auto_render` it makes a figure and renders itself into the inset.
     */
    constructor (figsize: Size, axoff: bool, autoRender: bool)
      requires figsize.w > 0.0 && figsize.h > 0.0
      ensures Valid()
      ensures nodes == [Node(figsize, None, NoSides(), axoff, None, None, None)]
      ensures figure == autoRender && managers == map[]
      ensures axes == if autoRender then [Some(Fresh(Inset))] else [None]
    {
      nodes := [Node(figsize, None, NoSides(), axoff, None, None, None)];
      axes := [None];
      figure := false;
      managers := map[];
      new;
      if autoRender {
        Render(0, Inset);
        LeafFills(nodes, 0, Inset);
        figure := true;
      }
    }

    /** One of the summing loops of `calculate_layout`: the widths of the panels `list`. */
    method SumWidths(list: seq<nat>) returns (w: real)
      requires Wf() && forall k :: 0 <= k < |list| ==> list[k] < |nodes|
      ensures w == SumW(SizesOf(nodes, list))
    {
      ghost var zs := SizesOf(nodes, list);
      w := 0.0;
      for k := 0 to |list|
        invariant w == SumW(zs[..k])
      {
        SumSnoc(zs, k);
        w := w + nodes[list[k]].size.w;
      }
      assert zs[..|list|] == zs;
    }

    /** One of the summing loops of `calculate_layout`: the heights of the panels `list`. */
    method SumHeights(list: seq<nat>) returns (h: real)
      requires Wf() && forall k :: 0 <= k < |list| ==> list[k] < |nodes|
      ensures h == SumH(SizesOf(nodes, list))
    {
      ghost var zs := SizesOf(nodes, list);
      h := 0.0;
      for k := 0 to |list|
        invariant h == SumH(zs[..k])
      {
        SumSnoc(zs, k);
        h := h + nodes[list[k]].size.h;
      }
      assert zs[..|list|] == zs;
    }

    /** `calculate_layout`: the panel's size plus its direct tenons' sizes, and the offset of the panel itself. */
    method CalculateLayout(i: nat) returns (e: Envelope)
      requires Wf() && i < |nodes|
      ensures e == Env(nodes, i)
    {
      var k := nodes[i].kids;
      assert k.left == Kids(nodes, i, Left) && k.right == Kids(nodes, i, Right);
      assert k.top == Kids(nodes, i, Top) && k.bottom == Kids(nodes, i, Bottom);
      var left := SumWidths(k.left);
      var right := SumWidths(k.right);
      var top := SumHeights(k.top);
      var bottom := SumHeights(k.bottom);
      e := Envelope(nodes[i].size.w + (left + right), nodes[i].size.h + (top + bottom), left, bottom);
    }

    /**
     * `render(x, y, width, height)` of node `i`: a new axes for every panel of `i`'s subtree, at
     * the place `PlacedRect` gives it within `a`; panels outside the subtree keep theirs.
     */
    method Render(i: nat, a: Rect)
      requires Wf() && i < |nodes|
      modifies this`axes
      decreases |nodes| - i, 4
      ensures Wf() && |axes| == |nodes|
      ensures forall j :: 0 <= j < |nodes| ==>
        axes[j] == if Desc(nodes, i, j) then Some(Fresh(PlacedRect(nodes, i, a, j))) else old(axes[j])
    {
      var e := CalculateLayout(i);
      var own := OwnRect(a, e, nodes[i].size);
      PlacedSelf(nodes, i, a);
      axes := axes[i := Some(Fresh(own))];
      RenderSides(i, a, e);
    }

    /** The four loops of `_render_tenons`, left, right, top and bottom: the subtree of `i` below `i` is rendered. */
    method RenderSides(i: nat, a: Rect, e: Envelope)
      requires Wf() && i < |nodes| && e == Env(nodes, i)
      modifies this`axes
      decreases |nodes| - i, 3
      ensures Wf() && |axes| == |nodes|
      ensures forall j :: 0 <= j < |nodes| ==>
        axes[j] == if Desc(nodes, i, j) && j != i then Some(Fresh(PlacedRect(nodes, i, a, j))) else old(axes[j])
    {
      ghost var a0 := axes;
      RenderSide(i, Left, a, e);
      ghost var a1 := axes;
      RenderSide(i, Right, a, e);
      ghost var a2 := axes;
      RenderSide(i, Top, a, e);
      ghost var a3 := axes;
      RenderSide(i, Bottom, a, e);
      RenderCombine(nodes, i, a, a0, a1, a2, a3, axes);
    }

    /** The loop of `_render_tenons` for side `s` of node `i`: each tenon rendered into the next slot of the run. */
    method RenderSide(i: nat, s: Side, a: Rect, e: Envelope)
      requires Wf() && i < |nodes| && e == Env(nodes, i)
      modifies this`axes
      decreases |nodes| - i, 2
      ensures Wf() && |axes| == |nodes|
      ensures forall j :: 0 <= j < |nodes| ==>
        axes[j] == if Desc(nodes, i, j) && Under(nodes, Kids(nodes, i, s), j)
                   then Some(Fresh(PlacedRect(nodes, i, a, j))) else old(axes[j])
    {
      var list := nodes[i].kids.Get(s);
      assert list == Kids(nodes, i, s);
      var own := nodes[i].size;
      ghost var zs := SizesOf(nodes, list);
      var cur := CursorStart(s, a, e, own);
      var fixed := CursorFixed(s, a, e, own);
      AdvanceZero(s, e, a, zs);
      for k := 0 to |list|
        invariant Wf() && |axes| == |nodes|
        invariant cur == CursorStart(s, a, e, own) + Advance(s, e, a, zs[..k])
        invariant forall j :: 0 <= j < |nodes| ==>
          axes[j] == if Desc(nodes, i, j) && Under(nodes, list[..k], j)
                     then Some(Fresh(PlacedRect(nodes, i, a, j))) else old(axes[j])
      {
        cur := RenderNext(i, s, a, e, k, cur, fixed, old(axes));
      }
      forall j | 0 <= j < |nodes| ensures Under(nodes, list[..|list|], j) == Under(nodes, list, j) {
        UnderDone(nodes, list, j);
      }
    }

    /**
     * One turn of that loop, from the state in which the first `k` tenons of side `s` have been
     * rendered over `base` to the state in which the first `k + 1` have, with the cursor moved on.
     */
    method RenderNext(i: nat, s: Side, a: Rect, e: Envelope, k: nat, cur: real, fixed: real,
                      ghost base: seq<Option<Axes<H>>>) returns (cur': real)
      requires Wf() && i < |nodes| && e == Env(nodes, i) && k < |Kids(nodes, i, s)| && |base| == |nodes|
      requires cur == CursorStart(s, a, e, nodes[i].size) + Advance(s, e, a, SizesOf(nodes, Kids(nodes, i, s))[..k])
      requires fixed == CursorFixed(s, a, e, nodes[i].size)
      requires forall j :: 0 <= j < |nodes| ==>
        axes[j] == if Desc(nodes, i, j) && Under(nodes, Kids(nodes, i, s)[..k], j)
                   then Some(Fresh(PlacedRect(nodes, i, a, j))) else base[j]
      modifies this`axes
      decreases |nodes| - i, 1
      ensures Wf() && |axes| == |nodes|
      ensures cur' == CursorStart(s, a, e, nodes[i].size) + Advance(s, e, a, SizesOf(nodes, Kids(nodes, i, s))[..k + 1])
      ensures forall j :: 0 <= j < |nodes| ==>
        axes[j] == if Desc(nodes, i, j) && Under(nodes, Kids(nodes, i, s)[..k + 1], j)
                   then Some(Fresh(PlacedRect(nodes, i, a, j))) else base[j]
    {
      ghost var prev := axes;
      var step := RenderTenon(i, s, a, e, k, cur, fixed);
      RenderStep(nodes, i, a, s, k, base, prev, axes);
      cur' := cur + step;
    }

    /**
     * One step of that loop: the `k`-th tenon of side `s` is rendered at the cursor `cur`, and the
     * cursor moves on by the tenon's width (left/right) or height (top/bottom).
     */
    method RenderTenon(i: nat, s: Side, a: Rect, e: Envelope, k: nat, cur: real, fixed: real)
      returns (step: real)
      requires Wf() && i < |nodes| && e == Env(nodes, i) && k < |Kids(nodes, i, s)|
      requires cur == CursorStart(s, a, e, nodes[i].size) + Advance(s, e, a, SizesOf(nodes, Kids(nodes, i, s))[..k])
      requires fixed == CursorFixed(s, a, e, nodes[i].size)
      modifies this`axes
      decreases |nodes| - i, 0
      ensures Wf() && |axes| == |nodes|
      ensures cur + step == CursorStart(s, a, e, nodes[i].size) + Advance(s, e, a, SizesOf(nodes, Kids(nodes, i, s))[..k + 1])
      ensures var c := Kids(nodes, i, s)[k];
        c < |nodes| &&
        forall j :: 0 <= j < |nodes| ==>
          axes[j] == if Desc(nodes, c, j) then Some(Fresh(PlacedRect(nodes, c, ChildAllocs(nodes, i, s, a)[k], j)))
                     else old(axes[j])
    {
      var c := nodes[i].kids.Get(s)[k];
      ChildDesc(nodes, i, s, c);
      var z := nodes[c].size;
      var pw := Frac(z.w, e.totalW, a.w);
      var ph := Frac(z.h, e.totalH, a.h);
      var r := if Horizontal(s) then Rect(cur, fixed, pw, ph) else Rect(fixed, cur, pw, ph);
      SlotIsAllotment(nodes, i, s, a, k, cur, fixed, pw, ph);
      Render(c, r);
      step := if Horizontal(s) then pw else ph;
      AdvanceStep(s, e, a, SizesOf(nodes, Kids(nodes, i, s)), k);
    }

    /**
     * `tenon(pos, size, pad, title, title_pos, axoff, auto_align)`: attach a new panel where
     * `Target` says; when that parent is rendered and the root owns a figure, clear the figure,
     * re-render the whole tree into the inset, restore the saved limits and, with `auto_align`,
     * align the new panel with its parent. Returns the new panel's id.
     */
    method Tenon(i: nat, pos: string, size: real, pad: real, title: Option<string>, titlePos: string,
                 axoff: bool, autoAlign: bool) returns (r: Result<nat, PanelError>)
      requires Valid() && i < |nodes| && size > 0.0
      modifies this`nodes, this`axes
      ensures Valid()
      ensures var target := Target(old(nodes), i, pos);
        && (target.Err? ==> r == Err(target.error) && nodes == old(nodes) && axes == old(axes))
        && (target.Ok? ==>
              var (t, s) := target.value;
              && r == Ok(|old(nodes)|)
              && nodes == Attach(old(nodes), t, s, size, pad, title, titlePos, axoff)
              && axes == if figure && old(axes[t]).Some? then Redrawn(nodes, old(axes), t, s, autoAlign)
                         else old(axes) + [None])
    {
      var target := LocateTarget(nodes, i, pos);
      if target.Err? {
        return Err(target.error);
      }
      var (t, s) := target.value;
      AttachLeaf(t, s, size, pad, title, titlePos, axoff);
      if axes[t].Some? && figure {
        Redraw(t, s, autoAlign);
      }
      r := Ok(|nodes| - 1);
    }

    /** The new panel goes in as the last node, on side `s` of `t`, not yet rendered. */
    method AttachLeaf(t: nat, s: Side, size: real, pad: real, title: Option<string>, titlePos: string, axoff: bool)
      requires Wf() && t < |nodes| && Kids(nodes, t, s) == [] && size > 0.0
      modifies this`nodes, this`axes
      ensures Wf()
      ensures nodes == Attach(old(nodes), t, s, size, pad, title, titlePos, axoff)
      ensures axes == old(axes) + [None]
    {
      AttachShape(nodes, t, s, size, pad, title, titlePos, axoff);
      nodes := Attach(nodes, t, s, size, pad, title, titlePos, axoff);
      axes := axes + [None];
    }

    /**
     * The re-render of `tenon` after the new panel, the last node, was attached on side `s` of `t`:
     * `_save_styles`, `fig.clear()`, `render(fig, 0.1, 0.1, 0.8, 0.8)` of the root, `_restore_styles`,
     * and with `autoAlign` the alignment of the new panel.
     */
    method Redraw(t: nat, s: Side, autoAlign: bool)
      requires Wf() && t < |nodes| - 1
      modifies this`axes
      ensures Wf()
      ensures axes == Redrawn(nodes, old(axes)[..|nodes| - 1], t, s, autoAlign)
    {
      var saved := axes[..|nodes| - 1];
      RenderRestored(saved);
      AlignRedrawn(saved, t, s, autoAlign);
    }

    /** After the re-render and the restored limits, `auto_align` aligns the new panel, the last node, with `t`. */
    method AlignRedrawn(saved: seq<Option<Axes<H>>>, t: nat, s: Side, autoAlign: bool)
      requires Wf() && |saved| == |nodes| - 1 && t < |saved|
      requires forall j :: 0 <= j < |nodes| ==>
        axes[j] == Some(Restored(FigureRect(nodes, j), if j < |saved| then saved[j] else None))
      modifies this`axes
      ensures Wf()
      ensures axes == Redrawn(nodes, saved, t, s, autoAlign)
    {
      ghost var restored := axes;
      if autoAlign {
        AutoAlignNewTenon(t, |saved|, s);
      }
      RedrawnIs(nodes, saved, t, s, autoAlign, restored, axes);
    }

    /** `fig.clear()`, the render of the root into the inset and `_restore_styles` of the snapshot `saved`. */
    method RenderRestored(saved: seq<Option<Axes<H>>>)
      requires Wf() && |saved| < |nodes|
      modifies this`axes
      ensures Wf()
      ensures forall j :: 0 <= j < |nodes| ==>
        axes[j] == Some(Restored(FigureRect(nodes, j), if j < |saved| then saved[j] else None))
    {
      RenderFigure();
      RestoreStyles(saved);
    }

    /** `fig.clear()` and `render()` on the root over the figure inset: every panel gets new axes at its place. */
    method RenderFigure()
      requires Wf()
      modifies this`axes
      ensures Wf()
      ensures forall j :: 0 <= j < |nodes| ==> axes[j] == Some(Fresh(FigureRect(nodes, j)))
    {
      Render(0, Inset);
      forall j | 0 <= j < |nodes| ensures axes[j] == Some(Fresh(FigureRect(nodes, j))) {
        RootReaches(nodes, j);
      }
    }

    /** `_restore_styles` with the snapshot `saved` of `_save_styles`: every panel that had axes gets its saved limits back. */
    method RestoreStyles(saved: seq<Option<Axes<H>>>)
      requires Wf() && |saved| <= |nodes|
      modifies this`axes
      ensures Wf() && |axes| == |old(axes)|
      ensures forall j :: 0 <= j < |axes| ==>
        axes[j] == if j < |saved| && saved[j].Some? && old(axes[j]).Some?
                   then Some(old(axes[j]).value.(xlim := saved[j].value.xlim, ylim := saved[j].value.ylim))
                   else old(axes[j])
    {
      for j := 0 to |saved|
        invariant Wf() && |axes| == |old(axes)|
        invariant forall q :: 0 <= q < |axes| ==>
          axes[q] == if q < j && saved[q].Some? && old(axes[q]).Some?
                     then Some(old(axes[q]).value.(xlim := saved[q].value.xlim, ylim := saved[q].value.ylim))
                     else old(axes[q])
      {
        if axes[j].Some? && saved[j].Some? {
          axes := axes[j := Some(axes[j].value.(xlim := saved[j].value.xlim, ylim := saved[j].value.ylim))];
        }
      }
    }

    /** `_auto_align_new_tenon(c, s)` on the parent `t`: with both rendered, `c` takes `t`'s limits along the side. */
    method AutoAlignNewTenon(t: nat, c: nat, s: Side)
      requires Wf() && t < |nodes| && c < |nodes|
      modifies this`axes
      ensures Wf()
      ensures axes == if old(axes[t]).Some? && old(axes[c]).Some?
                      then old(axes)[c := Some(AlignNew(old(axes[t]).value, old(axes[c]).value, s))]
                      else old(axes)
    {
      if axes[t].None? || axes[c].None? {
        return;
      }
      if Horizontal(s) {
        axes := axes[c := Some(axes[c].value.(ylim := axes[t].value.ylim))];
      } else {
        axes := axes[c := Some(axes[c].value.(xlim := axes[t].value.xlim))];
      }
    }
    /**
     * `plot(..., label=...)` through the `ax` property: a rendered panel shows the new labelled
     * entries after its earlier ones; an unrendered panel has no axes to draw on.
     */
    method Draw(i: nat, es: seq<Entry<H>>) returns (r: Result<(), PanelError>)
      requires Valid() && i < |nodes|
      modifies this`axes
      ensures Valid()
      ensures r.Err? <==> old(axes[i]).None?
      ensures r.Err? ==> r.error == Unrendered && axes == old(axes)
      ensures r.Ok? ==> var ax := old(axes[i]).value;
        axes == old(axes)[i := Some(ax.(canvas := ax.canvas.(entries := ax.canvas.entries + es)))]
    {
      if axes[i].None? {
        return Err(Unrendered);
      }
      var ax := axes[i].value;
      axes := axes[i := Some(ax.(canvas := ax.canvas.(entries := ax.canvas.entries + es)))];
      r := Ok(());
    }

    /**
     * `align_axes(direction, mortises)`: every rendered target takes the caller's x limits
     * ('x' or 'both') and y limits ('y' or 'both'); without a target list the targets are the
     * caller's top and bottom tenons for x, then its left and right ones for y. Reading the
     * caller's limits fails when it is unrendered.
     */
    method AlignAxes(i: nat, direction: string, targets: Option<seq<nat>>) returns (r: Result<(), PanelError>)
      requires Valid() && i < |nodes|
      requires targets.Some? ==> forall k :: 0 <= k < |targets.value| ==> targets.value[k] < |nodes|
      modifies this`axes
      ensures Valid()
      ensures r.Err? <==> (AlignsX(direction) || AlignsY(direction)) && old(axes[i]).None?
      ensures r.Err? ==> r.error == Unrendered && axes == old(axes)
      ensures r.Ok? ==>
        var ts := if targets.Some? then targets.value else AlignTargets(nodes, i, direction);
        var xl := if old(axes[i]).Some? then old(axes[i]).value.xlim else DefaultRange;
        var yl := if old(axes[i]).Some? then old(axes[i]).value.ylim else DefaultRange;
        |axes| == |old(axes)| &&
        forall j :: 0 <= j < |axes| ==>
          axes[j] == if j in ts then Aligned1(old(axes[j]), direction, xl, yl) else old(axes[j])
    {
      var ts := if targets.Some? then targets.value else AlignTargets(nodes, i, direction);
      var xl := DefaultRange;
      var yl := DefaultRange;
      if AlignsX(direction) || AlignsY(direction) {
        if axes[i].None? {
          return Err(Unrendered);
        }
      }
      if axes[i].Some? {
        xl := axes[i].value.xlim;
        yl := axes[i].value.ylim;
      }
      axes := AlignAll(axes, ts, direction, xl, yl);
      r := Ok(());
    }

    /**
     * `get_legend_manager` of panel `i`: the manager `i` already holds; else, once the root is
     * rendered, a new manager, after which the walk of `_add_all_mortises_to_legend_manager`
     * from `i` has every panel it reaches register itself with its own manager; else none.
     */
    method GetLegendManager(i: nat) returns (found: Option<LegendManager<H>>)
      requires Valid() && i < |nodes|
      modifies this`managers, managers.Values
      ensures Valid() && axes == old(axes)
      ensures i in old(managers) ==> managers == old(managers) && found == Some(managers[i])
      ensures i in old(managers) ==> forall n :: n in managers ==> managers[n].mortises == old(managers[n].mortises)
      ensures i !in old(managers) && old(axes[0]).None? ==> found == None && managers == old(managers)
      ensures i !in old(managers) && old(axes[0]).None? ==>
        forall n :: n in managers ==> managers[n].mortises == old(managers[n].mortises)
      ensures i !in old(managers) && old(axes[0]).Some? ==>
        && found.Some? && fresh(found.value) && managers == old(managers)[i := found.value]
        && found.value.mortises == [i] && found.value.globalLegend == None
        && forall n :: n in old(managers) ==>
          managers[n].mortises == old(managers[n].mortises) + (if Reach(nodes, managers.Keys, i, n) then [n] else [])
      ensures forall n :: n in old(managers) ==> managers[n].globalLegend == old(managers[n].globalLegend)
    {
      if i in managers {
        return Some(managers[i]);
      }
      var root := GetRoot(nodes, i);
      if axes[root].None? {
        return None;
      }
      var lm := new LegendManager<H>();
      managers := managers[i := lm];
      assert Wf();
      Register(i);
      found := Some(lm);
    }

    /**
     * `_add_all_mortises_to_legend_manager` from `i`: every panel the walk reaches through
     * panels holding a manager registers itself with its own manager. The walk is taken in
     * panel id order; each manager receives at most its own panel, so the order is not seen.
     */
    method Register(i: nat)
      requires Distinct() && i < |nodes| && forall n :: n in managers ==> n < |nodes|
      modifies managers.Values
      ensures forall n :: n in managers ==> managers[n].globalLegend == old(managers[n].globalLegend)
      ensures forall n :: n in managers ==>
        managers[n].mortises == old(managers[n].mortises) + (if Reach(nodes, managers.Keys, i, n) then [n] else [])
    {
      var owners := managers.Keys;
      ghost var hit := set n: nat | n < |nodes| && Reach(nodes, owners, i, n);
      for j := 0 to |nodes|
        invariant forall n :: n in managers ==> managers[n].globalLegend == old(managers[n].globalLegend)
        invariant forall n :: n in managers ==>
          managers[n].mortises == old(managers[n].mortises) + (if n < j && n in hit then [n] else [])
      {
        if j in managers && Reach(nodes, owners, i, j) {
          assert j in hit;
          var m := managers[j];
          assert forall n :: n in managers && n != j ==> managers[n] != m;
          m.AddMortise(j);
        }
      }
    }

    /**
     * `create_legend(mode, position, ncol, positions)` on panel `i`: the manager is fetched
     * first, then the mode dispatches to the global, local, mixed or automatic layout of that
     * manager over the rendered panels' canvases; the legends it places are written back.
     */
    method CreateLegend(i: nat, mode: string, position: Option<string>, ncol: Option<int>, positions: map<nat, string>)
      returns (r: Result<Output<H>, PanelError>)
      requires Valid() && i < |nodes|
      modifies this`managers, this`axes, managers.Values
      ensures Valid()
      ensures i in managers <==> i in old(managers) || old(axes[0]).Some?
      ensures i in old(managers) || old(axes[0]).None? ==> managers == old(managers)
      ensures i !in old(managers) && old(axes[0]).Some? ==>
        fresh(managers[i]) && managers == old(managers)[i := managers[i]] && managers[i].mortises == [i]
      ensures forall n :: n in old(managers) ==>
        managers[n].mortises == old(managers[n].mortises)
          + (if i !in old(managers) && old(axes[0]).Some? && Reach(nodes, managers.Keys, i, n) then [n] else [])
      ensures forall n :: n in old(managers) && n != i ==> managers[n].globalLegend == old(managers[n].globalLegend)
      ensures !(mode in ["global", "local", "mixed", "auto"]) ==> r == Err(UnknownLegendMode(mode)) && axes == old(axes)
      ensures !(mode in ["global", "local", "mixed", "auto"]) && i in managers ==>
        managers[i].globalLegend == old(if i in managers then managers[i].globalLegend else None)
      ensures mode in ["global", "local", "mixed", "auto"] && i !in managers ==> r == Err(NoManager) && axes == old(axes)
      ensures mode in ["global", "local", "mixed", "auto"] && i in managers ==>
        LegendsShown(mode, position, ncol, positions, managers[i].mortises, old(axes), r, axes,
                     old(if i in managers then managers[i].globalLegend else None), managers[i].globalLegend)
    {
      var found := GetLegendManager(i);
      r := LegendFor(i, found, mode, position, ncol, positions);
    }

    /** The rest of `create_legend` once the manager `found` of panel `i` has been fetched. */
    method LegendFor(i: nat, found: Option<LegendManager<H>>, mode: string, position: Option<string>,
                     ncol: Option<int>, positions: map<nat, string>) returns (r: Result<Output<H>, PanelError>)
      requires Valid() && i < |nodes|
      requires if i in managers then found == Some(managers[i]) else found == None
      modifies this`axes, if i in managers then {managers[i]} else {}
      ensures Valid() && managers == old(managers)
      ensures forall n :: n in managers ==> managers[n].mortises == old(managers[n].mortises)
      ensures forall n :: n in managers && n != i ==> managers[n].globalLegend == old(managers[n].globalLegend)
      ensures !(mode in ["global", "local", "mixed", "auto"]) ==> r == Err(UnknownLegendMode(mode)) && axes == old(axes)
      ensures !(mode in ["global", "local", "mixed", "auto"]) && i in managers ==>
        managers[i].globalLegend == old(managers[i].globalLegend)
      ensures mode in ["global", "local", "mixed", "auto"] && i !in managers ==> r == Err(NoManager) && axes == old(axes)
      ensures mode in ["global", "local", "mixed", "auto"] && i in managers ==>
        LegendsShown(mode, position, ncol, positions, managers[i].mortises, old(axes), r, axes,
                     old(managers[i].globalLegend), managers[i].globalLegend)
    {
      if !(mode in ["global", "local", "mixed", "auto"]) {
        return Err(UnknownLegendMode(mode));
      }
      if found.None? {
        return Err(NoManager);
      }
      r := LegendOn(found.value, mode, position, ncol, positions);
    }

    /** The mode dispatch of `create_legend` on manager `m`, over the rendered panels' canvases, written back. */
    method LegendOn(m: LegendManager<H>, mode: string, position: Option<string>, ncol: Option<int>,
                    positions: map<nat, string>) returns (r: Result<Output<H>, PanelError>)
      requires Valid() && mode in ["global", "local", "mixed", "auto"]
      modifies this`axes, m
      ensures Valid() && m.mortises == old(m.mortises)
      ensures LegendsShown(mode, position, ncol, positions, m.mortises, old(axes), r, axes, old(m.globalLegend), m.globalLegend)
    {
      var cs';
      r, cs' := Dispatch(m, mode, position, ncol, positions, CanvasesOf(axes));
      WriteBack(cs');
    }

    /** The canvases `cs` written back into the rendered panels. */
    method WriteBack(cs: map<nat, Canvas<H>>)
      requires Valid()
      modifies this`axes
      ensures Valid() && axes == WithCanvases(old(axes), cs)
    {
      axes := WithCanvases(axes, cs);
    }

    /** `clear_legends` on panel `i`: with a manager, its figure legend and every registered panel's legend are removed. */
    method ClearLegends(i: nat)
      requires Valid() && i < |nodes|
      modifies this`axes, if i in managers then {managers[i]} else {}
      ensures Valid() && managers == old(managers)
      ensures forall n :: n in managers && n != i ==>
        managers[n].mortises == old(managers[n].mortises) && managers[n].globalLegend == old(managers[n].globalLegend)
      ensures i !in managers ==> axes == old(axes)
      ensures i in managers ==>
        && managers[i].globalLegend == None && managers[i].mortises == old(managers[i].mortises)
        && axes == WithCanvases(old(axes), Cleared(managers[i].mortises, CanvasesOf(old(axes))))
    {
      if i in managers {
        var cs' := managers[i].ClearAllLegends(CanvasesOf(axes));
        axes := WithCanvases(axes, cs');
      }
    }
  }
}
