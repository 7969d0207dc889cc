/**
 * The panel tree as an arena: node `0` is the root and every other node names its parent,
 * which always has a smaller index. This module states the shape every reachable tree has,
 * ancestry, and the rectangle `render` assigns to every node of a subtree, as functions of
 * the node sequence alone.
 */
module Tree {
  import opened Outcomes
  import opened Geometry

  /**
   * One panel (`mortise`): its nominal size (`width`, `height`), its parent, its tenons by
   * side, and the attributes `tenon` stores on it.
   */
  datatype Node = Node(size: Size, parent: Option<nat>, kids: Sides<nat>, axoff: bool,
                       title: Option<string>, titlePos: Option<string>, pad: Option<real>)

  function Kids(ns: seq<Node>, p: nat, s: Side): seq<nat>
    requires p < |ns|
  {
    ns[p].kids.Get(s)
  }

  /** Child `c` on side `s` of `p`: a larger index, naming `p`, and as tall (left/right) or as wide (top/bottom) as `p`. */
  predicate KidOk(ns: seq<Node>, p: nat, s: Side, c: nat)
    requires p < |ns|
  {
    && p < c < |ns|
    && ns[c].parent == Some(p)
    && (if Horizontal(s) then ns[c].size.h == ns[p].size.h else ns[c].size.w == ns[p].size.w)
  }

  /** Node `j` names a parent with a smaller index and appears in one of that parent's child lists. */
  predicate Listed(ns: seq<Node>, j: nat)
    requires j < |ns|
  {
    ns[j].parent.Some? && ns[j].parent.value < j &&
    var k := ns[ns[j].parent.value].kids;
    j in k.top || j in k.bottom || j in k.left || j in k.right
  }

  /**
   * The shape of every tree the panel operations build: the root has no parent, every other
   * node is listed by its parent, every node has at most one child per side, each as `KidOk`
   * says and on one side only, and all sizes are positive.
   */
  predicate Shape(ns: seq<Node>) {
    && |ns| >= 1
    && ns[0].parent.None?
    && (forall j :: 0 < j < |ns| ==> Listed(ns, j))
    && (forall p, s: Side :: 0 <= p < |ns| ==> |Kids(ns, p, s)| <= 1)
    && (forall p, s: Side, k :: 0 <= p < |ns| && 0 <= k < |Kids(ns, p, s)| ==> KidOk(ns, p, s, Kids(ns, p, s)[k]))
    && (forall p, s: Side, s': Side, c: nat :: 0 <= p < |ns| && s != s' && c in Kids(ns, p, s) ==> c !in Kids(ns, p, s'))
    && (forall j :: 0 <= j < |ns| ==> ns[j].size.w > 0.0 && ns[j].size.h > 0.0)
  }

  // ----- ancestry -----

  /** `b` lies in the subtree rooted at `a` (`a` itself included). */
  predicate Desc(ns: seq<Node>, a: nat, b: nat)
    decreases b
  {
    a == b ||
    (a < b < |ns| && ns[b].parent.Some? && ns[b].parent.value < b && Desc(ns, a, ns[b].parent.value))
  }

  lemma {:induction false} DescLe(ns: seq<Node>, a: nat, b: nat)
    requires Desc(ns, a, b)
    decreases b
    ensures a <= b
  {
    if a != b {
      DescLe(ns, a, ns[b].parent.value);
    }
  }

  lemma {:induction false} DescTrans(ns: seq<Node>, a: nat, b: nat, c: nat)
    requires Desc(ns, a, b) && Desc(ns, b, c)
    decreases c
    ensures Desc(ns, a, c)
  {
    if b != c {
      DescTrans(ns, a, b, ns[c].parent.value);
      DescLe(ns, a, b);
    }
  }

  /** Two ancestors of the same node are ancestor and descendant of each other. */
  lemma {:induction false} DescChain(ns: seq<Node>, x: nat, y: nat, j: nat)
    requires Desc(ns, x, j) && Desc(ns, y, j)
    decreases j
    ensures Desc(ns, x, y) || Desc(ns, y, x)
  {
    if x != j && y != j {
      DescChain(ns, x, y, ns[j].parent.value);
    }
  }

  /** If `y` is a proper descendant of `x`, so is or equals `y`'s parent, which is therefore at least `x`. */
  lemma DescBelowParent(ns: seq<Node>, x: nat, y: nat)
    requires Shape(ns) && 0 < y < |ns|
    ensures Desc(ns, x, y) ==> x == y || x <= ns[y].parent.value
  {
    if Desc(ns, x, y) && x != y {
      DescLe(ns, x, ns[y].parent.value);
    }
  }

  /** Two children of one parent whose subtrees share a node are the same child. */
  lemma SiblingsApart(ns: seq<Node>, p: nat, c: nat, c': nat, j: nat)
    requires Shape(ns) && p < c < |ns| && p < c' < |ns|
    requires ns[c].parent == Some(p) && ns[c'].parent == Some(p)
    requires Desc(ns, c, j) && Desc(ns, c', j)
    ensures c == c'
  {
    DescChain(ns, c, c', j);
    DescBelowParent(ns, c, c');
    DescBelowParent(ns, c', c);
  }

  lemma ChildDesc(ns: seq<Node>, p: nat, s: Side, c: nat)
    requires Shape(ns) && p < |ns| && c in Kids(ns, p, s)
    ensures p < c < |ns| && ns[c].parent == Some(p) && Desc(ns, p, c)
  {
    var k :| 0 <= k < |Kids(ns, p, s)| && Kids(ns, p, s)[k] == c;
    assert KidOk(ns, p, s, c);
  }

  /** Every tenon of `p` has a larger index than `p`, inside the arena. */
  lemma KidsBelow(ns: seq<Node>, p: nat)
    requires Shape(ns) && p < |ns|
    ensures forall s: Side, c :: c in Kids(ns, p, s) ==> p < c < |ns|
  {
    forall s: Side, c | c in Kids(ns, p, s) ensures p < c < |ns| {
      var k :| 0 <= k < |Kids(ns, p, s)| && Kids(ns, p, s)[k] == c;
      assert KidOk(ns, p, s, c);
    }
  }

  /** The nodes under the children `cs`. */
  predicate Under(ns: seq<Node>, cs: seq<nat>, j: nat)
    decreases |cs|
  {
    cs != [] && (Under(ns, cs[..|cs| - 1], j) || Desc(ns, cs[|cs| - 1], j))
  }

  lemma UnderStep(ns: seq<Node>, cs: seq<nat>, k: nat, j: nat)
    requires k < |cs|
    ensures Under(ns, cs[..k + 1], j) <==> Under(ns, cs[..k], j) || Desc(ns, cs[k], j)
  {
    var q := cs[..k + 1];
    assert q[..|q| - 1] == cs[..k];
    assert q[|q| - 1] == cs[k];
  }

  lemma UnderDone(ns: seq<Node>, cs: seq<nat>, j: nat)
    ensures Under(ns, cs[..|cs|], j) == Under(ns, cs, j)
    ensures !Under(ns, cs[..0], j)
  {
    assert cs[..|cs|] == cs;
  }

  /** Every node under a side's children is a proper descendant of the node. */
  lemma UnderIsDesc(ns: seq<Node>, p: nat, s: Side, j: nat)
    requires Shape(ns) && p < |ns|
    ensures Under(ns, Kids(ns, p, s), j) ==> Desc(ns, p, j) && p < j
  {
    var cs := Kids(ns, p, s);
    if Under(ns, cs, j) {
      assert |cs| <= 1;
      assert cs[..|cs| - 1] == [];
      assert !Under(ns, cs[..|cs| - 1], j);
      assert Desc(ns, cs[0], j);
      ChildDesc(ns, p, s, cs[0]);
      DescTrans(ns, p, cs[0], j);
      DescLe(ns, cs[0], j);
    }
  }

  /** A proper descendant of `p` lies under exactly one side of `p`. */
  lemma DescSplit(ns: seq<Node>, p: nat, j: nat)
    requires Shape(ns) && p < j < |ns| && Desc(ns, p, j)
    ensures Under(ns, Kids(ns, p, Left), j) || Under(ns, Kids(ns, p, Right), j) ||
            Under(ns, Kids(ns, p, Top), j) || Under(ns, Kids(ns, p, Bottom), j)
  {
    var c := Toward(ns, p, j);
    var s := SideOf(ns, c);
    assert |Kids(ns, p, s)| <= 1;
    assert Kids(ns, p, s) == [c];
    assert [c][..0] == [];
  }

  lemma SidesApart(ns: seq<Node>, p: nat, s: Side, s': Side, j: nat)
    requires Shape(ns) && p < |ns|
    requires Under(ns, Kids(ns, p, s), j) && Under(ns, Kids(ns, p, s'), j)
    ensures s == s'
  {
    var cs := Kids(ns, p, s);
    var cs' := Kids(ns, p, s');
    assert cs[..0] == [] && cs'[..0] == [];
    ChildDesc(ns, p, s, cs[0]);
    ChildDesc(ns, p, s', cs'[0]);
    SiblingsApart(ns, p, cs[0], cs'[0], j);
  }

  /** The child of `p` on the way down to its proper descendant `j`. */
  function Toward(ns: seq<Node>, p: nat, j: nat): (c: nat)
    requires Shape(ns) && p < j < |ns| && Desc(ns, p, j)
    ensures p < c < |ns| && ns[c].parent == Some(p) && Desc(ns, c, j)
    decreases j
  {
    var q := ns[j].parent.value;
    if q == p then j else DescLe(ns, p, q); Toward(ns, p, q)
  }

  /** The side of its parent a non-root node was attached on. */
  function SideOf(ns: seq<Node>, j: nat): (s: Side)
    requires Shape(ns) && 0 < j < |ns|
    ensures Listed(ns, j) && j in Kids(ns, ns[j].parent.value, s)
  {
    assert Listed(ns, j);
    var k := ns[ns[j].parent.value].kids;
    if j in k.top then Top else if j in k.bottom then Bottom else if j in k.left then Left else Right
  }

  lemma SideOfUnique(ns: seq<Node>, p: nat, s: Side, c: nat)
    requires Shape(ns) && p < |ns| && c in Kids(ns, p, s)
    ensures 0 < c < |ns| && ns[c].parent == Some(p) && SideOf(ns, c) == s
  {
  }

  lemma RootReaches(ns: seq<Node>, j: nat)
    requires Shape(ns) && j < |ns|
    decreases j
    ensures Desc(ns, 0, j)
  {
    if j > 0 {
      assert Listed(ns, j);
      RootReaches(ns, ns[j].parent.value);
    }
  }

  // ----- sizes and allotted rectangles -----

  function SizesOf(ns: seq<Node>, cs: seq<nat>): (r: seq<Size>)
    requires forall k :: 0 <= k < |cs| ==> cs[k] < |ns|
    ensures |r| == |cs| && forall k :: 0 <= k < |cs| ==> r[k] == ns[cs[k]].size
  {
    seq(|cs|, k requires 0 <= k < |cs| => ns[cs[k]].size)
  }

  /** The sizes of `p`'s direct children, side by side. */
  function KidSizes(ns: seq<Node>, p: nat): (r: Sides<Size>)
    requires Shape(ns) && p < |ns|
    ensures forall s: Side :: r.Get(s) == SizesOf(ns, Kids(ns, p, s))
  {
    var k := ns[p].kids;
    assert k.top == Kids(ns, p, Top) && k.bottom == Kids(ns, p, Bottom);
    assert k.left == Kids(ns, p, Left) && k.right == Kids(ns, p, Right);
    Sides(SizesOf(ns, k.top), SizesOf(ns, k.bottom), SizesOf(ns, k.left), SizesOf(ns, k.right))
  }

  /** What `calculate_layout` returns for node `p`. */
  function Env(ns: seq<Node>, p: nat): (e: Envelope)
    requires Shape(ns) && p < |ns|
    ensures e.totalW > 0.0 && e.totalH > 0.0
  {
    EnvPositive(ns, p);
    Solve(ns[p].size, KidSizes(ns, p))
  }

  lemma EnvPositive(ns: seq<Node>, p: nat)
    requires Shape(ns) && p < |ns|
    ensures PositiveSizes(ns[p].size, KidSizes(ns, p))
    ensures forall s: Side :: Matched(s, ns[p].size, KidSizes(ns, p).Get(s))
  {
    var ks := KidSizes(ns, p);
    forall s: Side ensures AllPositive(ks.Get(s)) && Matched(s, ns[p].size, ks.Get(s)) {
      forall k | 0 <= k < |ks.Get(s)| ensures ks.Get(s)[k].w > 0.0 && ks.Get(s)[k].h > 0.0 {
        assert Kids(ns, p, s)[k] in Kids(ns, p, s);
      }
      forall k | 0 <= k < |ks.Get(s)|
        ensures if Horizontal(s) then ks.Get(s)[k].h == ns[p].size.h else ks.Get(s)[k].w == ns[p].size.w
      {
        assert Kids(ns, p, s)[k] in Kids(ns, p, s);
      }
    }
    assert ks.top == ks.Get(Top) && ks.bottom == ks.Get(Bottom) && ks.left == ks.Get(Left) && ks.right == ks.Get(Right);
  }

  /** The rectangles `_render_tenons` allots to the children of `p` on side `s`, given `p`'s allotment `a`. */
  function ChildAllocs(ns: seq<Node>, p: nat, s: Side, a: Rect): (rs: seq<Rect>)
    requires Shape(ns) && p < |ns|
    ensures |rs| == |Kids(ns, p, s)|
  {
    SideAllocs(s, a, Env(ns, p), ns[p].size, SizesOf(ns, Kids(ns, p, s)))
  }

  function Find(cs: seq<nat>, c: nat): (k: nat)
    requires c in cs
    ensures k < |cs| && cs[k] == c
  {
    if cs[0] == c then 0 else 1 + Find(cs[1..], c)
  }

  /**
   * The rectangle `render(i, a)` allots to node `j` of the subtree of `i`: `a` for `i` itself,
   * and for a deeper node the place its parent's allotment gives it.
   */
  function AllocFrom(ns: seq<Node>, i: nat, a: Rect, j: nat): Rect
    requires Shape(ns) && j < |ns| && Desc(ns, i, j)
    decreases j
  {
    if j == i then a
    else
      var p := ns[j].parent.value;
      var s := SideOf(ns, j);
      ChildAllocs(ns, p, s, AllocFrom(ns, i, a, p))[Find(Kids(ns, p, s), j)]
  }

  /** The axes rectangle `render(i, a)` gives node `j`. */
  function PlacedRect(ns: seq<Node>, i: nat, a: Rect, j: nat): Rect
    requires Shape(ns) && j < |ns| && Desc(ns, i, j)
  {
    OwnRect(AllocFrom(ns, i, a, j), Env(ns, j), ns[j].size)
  }

  /** At its own root, `render(i, a)` places node `i` by the envelope of `i` within `a` itself. */
  lemma PlacedSelf(ns: seq<Node>, i: nat, a: Rect)
    requires Shape(ns) && i < |ns|
    ensures Desc(ns, i, i) && PlacedRect(ns, i, a, i) == OwnRect(a, Env(ns, i), ns[i].size)
  {
  }

  /** A child's allotment, seen from any ancestor: the `k`-th rectangle of its parent's side run. */
  lemma AllocOfChild(ns: seq<Node>, i: nat, a: Rect, p: nat, s: Side, k: nat)
    requires Shape(ns) && p < |ns| && Desc(ns, i, p) && k < |Kids(ns, p, s)|
    ensures var c := Kids(ns, p, s)[k];
      c < |ns| && Desc(ns, i, c) && AllocFrom(ns, i, a, c) == ChildAllocs(ns, p, s, AllocFrom(ns, i, a, p))[k]
  {
    var c := Kids(ns, p, s)[k];
    SideOfUnique(ns, p, s, c);
    ChildDesc(ns, p, s, c);
    DescTrans(ns, i, p, c);
    assert Find(Kids(ns, p, s), c) == k;
  }

  /** Rendering child `c` with the rectangle its parent allots it places `c`'s subtree exactly as rendering the parent does. */
  lemma {:induction false} AllocShift(ns: seq<Node>, i: nat, a: Rect, s: Side, k: nat, j: nat)
    requires Shape(ns) && i < |ns| && k < |Kids(ns, i, s)|
    requires j < |ns| && Desc(ns, Kids(ns, i, s)[k], j)
    decreases j
    ensures Desc(ns, i, j)
    ensures AllocFrom(ns, i, a, j) == AllocFrom(ns, Kids(ns, i, s)[k], ChildAllocs(ns, i, s, a)[k], j)
  {
    var c := Kids(ns, i, s)[k];
    ChildDesc(ns, i, s, c);
    DescTrans(ns, i, c, j);
    if j == c {
      AllocOfChild(ns, i, a, i, s, k);
    } else {
      var q := ns[j].parent.value;
      AllocShift(ns, i, a, s, k, q);
    }
  }

  /**
   * With a positive allotment, every node of the subtree gets a positive allotment and a positive
   * rectangle, both inside the allotment of the subtree's root.
   */
  lemma {:induction false} PlacedInside(ns: seq<Node>, i: nat, a: Rect, j: nat)
    requires Shape(ns) && j < |ns| && Desc(ns, i, j) && a.w > 0.0 && a.h > 0.0
    decreases j
    ensures Proper(AllocFrom(ns, i, a, j)) && Inside(AllocFrom(ns, i, a, j), a)
    ensures Proper(PlacedRect(ns, i, a, j)) && Inside(PlacedRect(ns, i, a, j), a)
  {
    var r := AllocFrom(ns, i, a, j);
    if j != i {
      var p := ns[j].parent.value;
      var s := SideOf(ns, j);
      PlacedInside(ns, i, a, p);
      var ap := AllocFrom(ns, i, a, p);
      EnvPositive(ns, p);
      SideInside(s, ap, ns[p].size, KidSizes(ns, p));
      var k := Find(Kids(ns, p, s), j);
      assert r == ChildAllocs(ns, p, s, ap)[k];
    }
    EnvPositive(ns, j);
    OwnRectInside(r, ns[j].size, KidSizes(ns, j));
  }

  /**
   * Around every placed node `p`, the child of side `s`, if any, fills the band between `p`'s
   * rectangle and the edge of `p`'s allotment: it starts at `RunStart`, ends at `RunEnd`, shares
   * `p`'s band across the run, and neither overlaps `p` nor leaves `p`'s allotment.
   */
  lemma ChildrenTile(ns: seq<Node>, i: nat, a: Rect, p: nat, s: Side)
    requires Shape(ns) && p < |ns| && Desc(ns, i, p) && a.w > 0.0 && a.h > 0.0
    ensures var ap := AllocFrom(ns, i, a, p);
      var o := PlacedRect(ns, i, a, p);
      var cs := Kids(ns, p, s);
      |cs| == 1 ==>
        var c := cs[0];
        && c < |ns| && Desc(ns, i, c)
        && Lead(s, AllocFrom(ns, i, a, c)) == RunStart(s, ap, o)
        && Lead(s, AllocFrom(ns, i, a, c)) + Extent(s, AllocFrom(ns, i, a, c)) == RunEnd(s, ap, o)
        && Aligned(s, AllocFrom(ns, i, a, c), o)
        && Apart(s, AllocFrom(ns, i, a, c), o)
        && Inside(AllocFrom(ns, i, a, c), ap)
  {
    var ap := AllocFrom(ns, i, a, p);
    PlacedInside(ns, i, a, p);
    EnvPositive(ns, p);
    SideTiles(s, ap, ns[p].size, KidSizes(ns, p));
    var cs := Kids(ns, p, s);
    forall k | 0 <= k < |cs|
      ensures cs[k] < |ns| && Desc(ns, i, cs[k]) && AllocFrom(ns, i, a, cs[k]) == ChildAllocs(ns, p, s, ap)[k]
    {
      AllocOfChild(ns, i, a, p, s, k);
    }
  }

  // ----- navigation and growth -----

  /** `get_root`: follow the parents up to the node that has none, which is node `0`. */
  function GetRoot(ns: seq<Node>, i: nat): (r: nat)
    requires Shape(ns) && i < |ns|
    decreases i
    ensures r == 0 && ns[r].parent.None? && Desc(ns, r, i)
  {
    if ns[i].parent.None? then
      assert !Listed(ns, i) || i == 0;
      i
    else
      assert i > 0 && Listed(ns, i);
      GetRoot(ns, ns[i].parent.value)
  }

  /** Node `0` is the only node without a parent. */
  lemma OnlyRootIsParentless(ns: seq<Node>, i: nat)
    requires Shape(ns) && i < |ns|
    ensures ns[i].parent.None? <==> i == 0
  {
    assert i == 0 || Listed(ns, i);
  }

  /** `r` is reached from `i` through first children on side `s` only. */
  predicate Column(ns: seq<Node>, s: Side, i: nat, r: nat)
    decreases r
  {
    r == i ||
    (i < r < |ns| && ns[r].parent.Some? && ns[r].parent.value < r &&
     r in Kids(ns, ns[r].parent.value, s) && Column(ns, s, i, ns[r].parent.value))
  }

  /** The node `_find_outermost_tenon(s)` stops at: the end of the column of side-`s` tenons below `i`. */
  ghost function Outermost(ns: seq<Node>, i: nat, s: Side): (r: nat)
    requires Shape(ns) && i < |ns|
    decreases |ns| - i
    ensures r < |ns| && Column(ns, s, i, r) && Desc(ns, i, r) && Kids(ns, r, s) == []
    ensures r == i <==> Kids(ns, i, s) == []
  {
    if Kids(ns, i, s) == [] then i
    else
      var c := Kids(ns, i, s)[0];
      ChildDesc(ns, i, s, c);
      var r := Outermost(ns, c, s);
      ColumnFrom(ns, s, i, c, r);
      DescTrans(ns, i, c, r);
      DescLe(ns, c, r);
      r
  }

  /** A column from `i`'s first side-`s` child `c` extends to a column from `i`. */
  lemma {:induction false} ColumnFrom(ns: seq<Node>, s: Side, i: nat, c: nat, r: nat)
    requires Shape(ns) && i < |ns| && Kids(ns, i, s) != [] && c == Kids(ns, i, s)[0]
    requires Column(ns, s, c, r)
    decreases r
    ensures Column(ns, s, i, r)
  {
    ChildDesc(ns, i, s, c);
    if r != c {
      ColumnFrom(ns, s, i, c, ns[r].parent.value);
    }
  }

  /** The loop of `_find_outermost_tenon`. */
  method FindOutermost(ns: seq<Node>, i: nat, s: Side) returns (r: nat)
    requires Shape(ns) && i < |ns|
    ensures r == Outermost(ns, i, s)
  {
    if Kids(ns, i, s) == [] {
      return i;
    }
    r := ns[i].kids.Get(s)[0];
    ChildDesc(ns, i, s, r);
    while ns[r].kids.Get(s) != []
      invariant i < r < |ns| && Outermost(ns, r, s) == Outermost(ns, i, s)
      decreases |ns| - r
    {
      var c := ns[r].kids.Get(s)[0];
      ChildDesc(ns, r, s, c);
      r := c;
    }
  }

  /** The nominal size `tenon` gives a new tenon: `size` scales the parent's width (left/right) or height (top/bottom). */
  function TenonSize(parent: Size, s: Side, size: real): (z: Size)
    ensures Horizontal(s) ==> z.h == parent.h && z.w == parent.w * size
    ensures !Horizontal(s) ==> z.w == parent.w && z.h == parent.h * size
    ensures parent.w > 0.0 && parent.h > 0.0 && size > 0.0 ==> z.w > 0.0 && z.h > 0.0
  {
    if Horizontal(s) then Size(parent.w * size, parent.h) else Size(parent.w, parent.h * size)
  }

  /** The new leaf `tenon` creates under `t`. */
  function Leaf(ns: seq<Node>, t: nat, s: Side, size: real, pad: real, title: Option<string>,
                titlePos: string, axoff: bool): Node
    requires t < |ns|
  {
    Node(TenonSize(ns[t].size, s, size), Some(t), NoSides(), axoff, title, Some(titlePos), Some(pad))
  }

  /** `tenon` on a free side `s` of `t`: the new node gets the next index and is recorded as `t`'s tenon on `s`. */
  function Attach(ns: seq<Node>, t: nat, s: Side, size: real, pad: real, title: Option<string>,
                  titlePos: string, axoff: bool): (r: seq<Node>)
    requires t < |ns|
    ensures |r| == |ns| + 1
  {
    var c := |ns|;
    ns[t := ns[t].(kids := ns[t].kids.Append(s, c))] + [Leaf(ns, t, s, size, pad, title, titlePos, axoff)]
  }

  /** Attaching on a free side keeps the tree's shape; the new node is `t`'s only tenon on `s` and nothing else moves. */
  lemma AttachShape(ns: seq<Node>, t: nat, s: Side, size: real, pad: real, title: Option<string>,
                    titlePos: string, axoff: bool)
    requires Shape(ns) && t < |ns| && Kids(ns, t, s) == [] && size > 0.0
    ensures var r := Attach(ns, t, s, size, pad, title, titlePos, axoff);
      && Shape(r)
      && Kids(r, t, s) == [|ns|]
      && r[|ns|] == Leaf(ns, t, s, size, pad, title, titlePos, axoff)
      && (forall j :: 0 <= j < |ns| ==> r[j].size == ns[j].size && r[j].parent == ns[j].parent)
      && (forall j, s': Side :: 0 <= j < |ns| && (j != t || s' != s) ==> Kids(r, j, s') == Kids(ns, j, s'))
  {
    AttachFrame(ns, t, s, size, pad, title, titlePos, axoff);
    AttachListed(ns, t, s, size, pad, title, titlePos, axoff);
    AttachKidOk(ns, t, s, size, pad, title, titlePos, axoff);
    AttachDisjoint(ns, t, s, size, pad, title, titlePos, axoff);
  }

  /** What `Attach` changes: one child list of `t`, and the new last node. */
  lemma AttachFrame(ns: seq<Node>, t: nat, s: Side, size: real, pad: real, title: Option<string>,
                    titlePos: string, axoff: bool)
    requires t < |ns| && Kids(ns, t, s) == []
    ensures var r := Attach(ns, t, s, size, pad, title, titlePos, axoff);
      && Kids(r, t, s) == [|ns|]
      && r[|ns|] == Leaf(ns, t, s, size, pad, title, titlePos, axoff)
      && (forall j :: 0 <= j < |ns| ==> r[j].size == ns[j].size && r[j].parent == ns[j].parent)
      && (forall j, s': Side :: 0 <= j < |ns| && (j != t || s' != s) ==> Kids(r, j, s') == Kids(ns, j, s'))
  {
    var r := Attach(ns, t, s, size, pad, title, titlePos, axoff);
    assert r[t].kids == ns[t].kids.Append(s, |ns|);
  }

  lemma AttachListed(ns: seq<Node>, t: nat, s: Side, size: real, pad: real, title: Option<string>,
                     titlePos: string, axoff: bool)
    requires Shape(ns) && t < |ns| && Kids(ns, t, s) == []
    ensures var r := Attach(ns, t, s, size, pad, title, titlePos, axoff);
      forall j :: 0 < j < |r| ==> Listed(r, j)
  {
    var r := Attach(ns, t, s, size, pad, title, titlePos, axoff);
    var c := |ns|;
    AttachFrame(ns, t, s, size, pad, title, titlePos, axoff);
    forall j | 0 < j < |r| ensures Listed(r, j) {
      if j < c {
        assert Listed(ns, j);
        var q := ns[j].parent.value;
        assert j in Kids(ns, q, SideOf(ns, j));
        assert j in Kids(r, q, SideOf(ns, j));
      } else {
        assert j in Kids(r, t, s);
      }
    }
  }

  lemma AttachKidOk(ns: seq<Node>, t: nat, s: Side, size: real, pad: real, title: Option<string>,
                    titlePos: string, axoff: bool)
    requires Shape(ns) && t < |ns| && Kids(ns, t, s) == []
    ensures var r := Attach(ns, t, s, size, pad, title, titlePos, axoff);
      forall p, s': Side, k :: 0 <= p < |r| && 0 <= k < |Kids(r, p, s')| ==> KidOk(r, p, s', Kids(r, p, s')[k])
  {
    var r := Attach(ns, t, s, size, pad, title, titlePos, axoff);
    var c := |ns|;
    AttachFrame(ns, t, s, size, pad, title, titlePos, axoff);
    forall p, s': Side, k | 0 <= p < |r| && 0 <= k < |Kids(r, p, s')|
      ensures KidOk(r, p, s', Kids(r, p, s')[k])
    {
      if p == t && s' == s {
        assert Kids(r, p, s')[k] == c;
      } else if p < c {
        assert Kids(r, p, s')[k] == Kids(ns, p, s')[k];
        assert KidOk(ns, p, s', Kids(ns, p, s')[k]);
      }
    }
  }

  lemma AttachDisjoint(ns: seq<Node>, t: nat, s: Side, size: real, pad: real, title: Option<string>,
                       titlePos: string, axoff: bool)
    requires Shape(ns) && t < |ns| && Kids(ns, t, s) == []
    ensures var r := Attach(ns, t, s, size, pad, title, titlePos, axoff);
      forall p, s1: Side, s2: Side, x: nat :: 0 <= p < |r| && s1 != s2 && x in Kids(r, p, s1) ==> x !in Kids(r, p, s2)
  {
    var r := Attach(ns, t, s, size, pad, title, titlePos, axoff);
    var c := |ns|;
    AttachFrame(ns, t, s, size, pad, title, titlePos, axoff);
    forall p, s1: Side, s2: Side, x: nat | 0 <= p < |r| && s1 != s2 && x in Kids(r, p, s1)
      ensures x !in Kids(r, p, s2)
    {
      if p == t && (s1 == s || s2 == s) {
        var o := if s1 == s then s2 else s1;
        var old_kids := Kids(ns, t, o);
        forall y | y in old_kids ensures y < c {
          var k :| 0 <= k < |old_kids| && old_kids[k] == y;
        }
      }
    }
  }

  /**
   * `calculate_layout` counts direct children only: attaching under `t` changes the envelope of
   * `t` alone, which gains the new tenon's size on side `s`; every other envelope stays as it was.
   */
  lemma AttachKeepsEnv(ns: seq<Node>, t: nat, s: Side, size: real, pad: real, title: Option<string>,
                       titlePos: string, axoff: bool)
    requires Shape(ns) && t < |ns| && Kids(ns, t, s) == [] && size > 0.0
    ensures var r := Attach(ns, t, s, size, pad, title, titlePos, axoff);
      && Shape(r)
      && (forall p :: 0 <= p < |ns| && p != t ==> Env(r, p) == Env(ns, p))
      && Env(r, t) == Solve(ns[t].size, KidSizes(ns, t).Append(s, r[|ns|].size))
  {
    var r := Attach(ns, t, s, size, pad, title, titlePos, axoff);
    AttachShape(ns, t, s, size, pad, title, titlePos, axoff);
    forall p | 0 <= p < |ns|
      ensures KidSizes(r, p) == if p == t then KidSizes(ns, t).Append(s, r[|ns|].size) else KidSizes(ns, p)
    {
      var want := if p == t then KidSizes(ns, t).Append(s, r[|ns|].size) else KidSizes(ns, p);
      forall s': Side ensures KidSizes(r, p).Get(s') == want.Get(s') {
        if p != t || s' != s {
          forall k | 0 <= k < |Kids(ns, p, s')| ensures Kids(ns, p, s')[k] < |ns| {
            assert KidOk(ns, p, s', Kids(ns, p, s')[k]);
          }
        }
      }
      SidesExt(KidSizes(r, p), want);
    }
  }

  lemma SidesExt<T>(x: Sides<T>, y: Sides<T>)
    requires forall s: Side :: x.Get(s) == y.Get(s)
    ensures x == y
  {
    assert x.top == x.Get(Top) == y.Get(Top);
    assert x.bottom == x.Get(Bottom) == y.Get(Bottom);
    assert x.left == x.Get(Left) == y.Get(Left);
    assert x.right == x.Get(Right) == y.Get(Right);
  }

  /** A panel without tenons fills its whole allotment. */
  lemma LeafFills(ns: seq<Node>, i: nat, a: Rect)
    requires Shape(ns) && i < |ns| && ns[i].kids == NoSides()
    ensures OwnRect(a, Env(ns, i), ns[i].size) == a
    ensures Desc(ns, i, i) && PlacedRect(ns, i, a, i) == a
  {
    var z := ns[i].size;
    assert KidSizes(ns, i) == NoSides();
    assert Env(ns, i) == Envelope(z.w, z.h, 0.0, 0.0);
    assert z.w / z.w == 1.0 && z.h / z.h == 1.0;
  }
}
