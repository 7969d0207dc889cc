/**
 * Exact geometry of one level of the panel layout: the size solver
 * (`mortise.calculate_layout`) and the rectangle formulas of `mortise.render`
 * and `mortise._render_tenons`, over real numbers.
 */
module Geometry {
  import opened Outcomes

  /** The four sides a tenon can be attached to. */
  datatype Side = Top | Bottom | Left | Right

  /** The side order the source uses when it walks a node's children. */
  const AllSides: seq<Side> := [Top, Bottom, Left, Right]

  function SideName(s: Side): string {
    match s
    case Top => "top"
    case Bottom => "bottom"
    case Left => "left"
    case Right => "right"
  }

  /** The `pos` check of `tenon` and `get_tenon`: only the four side names are accepted. */
  function ParseSide(pos: string): (r: Option<Side>)
    ensures r.Some? <==> (pos == "top" || pos == "bottom" || pos == "left" || pos == "right")
    ensures r.Some? ==> SideName(r.value) == pos
  {
    if pos == "top" then Some(Top)
    else if pos == "bottom" then Some(Bottom)
    else if pos == "left" then Some(Left)
    else if pos == "right" then Some(Right)
    else None
  }

  /** Left and right tenons are laid out along the x axis, top and bottom ones along y. */
  predicate Horizontal(s: Side) {
    s == Left || s == Right
  }

  /** One value per side, e.g. the child lists of a node or their sizes. */
  datatype Sides<T> = Sides(top: seq<T>, bottom: seq<T>, left: seq<T>, right: seq<T>) {
    function Get(s: Side): seq<T> {
      match s
      case Top => top
      case Bottom => bottom
      case Left => left
      case Right => right
    }

    function Append(s: Side, x: T): (r: Sides<T>)
      ensures r.Get(s) == Get(s) + [x]
      ensures forall s' :: s' != s ==> r.Get(s') == Get(s')
    {
      match s
      case Top => this.(top := top + [x])
      case Bottom => this.(bottom := bottom + [x])
      case Left => this.(left := left + [x])
      case Right => this.(right := right + [x])
    }
  }

  function NoSides<T>(): Sides<T> {
    Sides([], [], [], [])
  }

  /** A nominal size in absolute units. */
  datatype Size = Size(w: real, h: real)

  /** A rectangle `[x, y, width, height]` in figure fractions. */
  datatype Rect = Rect(x: real, y: real, w: real, h: real)

  /** A view range `(low, high)` of one axis. */
  datatype Range = Range(lo: real, hi: real)

  /** The result `(total_width, total_height, offset_x, offset_y)` of the size solver. */
  datatype Envelope = Envelope(totalW: real, totalH: real, offX: real, offY: real)

  /** The inset the root is rendered into: `render(fig, 0.1, 0.1, 0.8, 0.8)`. */
  const Inset: Rect := Rect(0.1, 0.1, 0.8, 0.8)

  function SumW(kids: seq<Size>): (r: real)
    ensures AllPositive(kids) ==> r >= 0.0
  {
    if kids == [] then 0.0 else kids[0].w + SumW(kids[1..])
  }

  function SumH(kids: seq<Size>): (r: real)
    ensures AllPositive(kids) ==> r >= 0.0
  {
    if kids == [] then 0.0 else kids[0].h + SumH(kids[1..])
  }

  lemma {:induction false} SumSnoc(kids: seq<Size>, k: nat)
    requires k < |kids|
    ensures SumW(kids[..k + 1]) == SumW(kids[..k]) + kids[k].w
    ensures SumH(kids[..k + 1]) == SumH(kids[..k]) + kids[k].h
  {
    if k > 0 {
      SumSnoc(kids[1..], k - 1);
      assert kids[..k + 1][1..] == kids[1..][..k];
      assert kids[..k][1..] == kids[1..][..k - 1];
    }
  }

  predicate AllPositive(kids: seq<Size>) {
    forall k :: 0 <= k < |kids| ==> kids[k].w > 0.0 && kids[k].h > 0.0
  }

  lemma {:induction false} SumPrefixBounds(kids: seq<Size>, k: nat)
    requires AllPositive(kids) && k <= |kids|
    ensures 0.0 <= SumW(kids[..k]) <= SumW(kids)
    ensures 0.0 <= SumH(kids[..k]) <= SumH(kids)
    ensures k < |kids| ==> SumW(kids[..k]) + kids[k].w <= SumW(kids)
    ensures k < |kids| ==> SumH(kids[..k]) + kids[k].h <= SumH(kids)
  {
    if kids != [] {
      assert AllPositive(kids[1..]) by {
        forall m | 0 <= m < |kids[1..]| ensures kids[1..][m].w > 0.0 && kids[1..][m].h > 0.0 {
          assert kids[1..][m] == kids[m + 1];
        }
      }
      if k == 0 {
        SumPrefixBounds(kids[1..], 0);
      } else {
        SumPrefixBounds(kids[1..], k - 1);
        assert kids[..k][1..] == kids[1..][..k - 1];
      }
      assert kids[..|kids|] == kids;
    }
  }

  /** The size solver: only the direct children's own sizes enter the envelope. */
  function Solve(own: Size, kids: Sides<Size>): (e: Envelope)
    ensures PositiveSizes(own, kids) ==> e.totalW >= e.offX + own.w > e.offX >= 0.0
    ensures PositiveSizes(own, kids) ==> e.totalH >= e.offY + own.h > e.offY >= 0.0
  {
    Envelope(own.w + (SumW(kids.left) + SumW(kids.right)),
             own.h + (SumH(kids.top) + SumH(kids.bottom)),
             SumW(kids.left),
             SumH(kids.bottom))
  }

  predicate PositiveSizes(own: Size, kids: Sides<Size>) {
    own.w > 0.0 && own.h > 0.0 &&
    AllPositive(kids.top) && AllPositive(kids.bottom) &&
    AllPositive(kids.left) && AllPositive(kids.right)
  }

  /** A fraction of an absolute length converted to figure fractions: `(a / total) * extent`. */
  function Frac(a: real, total: real, extent: real): real
    requires total != 0.0
  {
    (a / total) * extent
  }

  lemma FracAdd(a: real, b: real, total: real, extent: real)
    requires total != 0.0
    ensures Frac(a + b, total, extent) == Frac(a, total, extent) + Frac(b, total, extent)
  {
    calc {
      Frac(a + b, total, extent);
      ((a + b) / total) * extent;
      { assert (a + b) / total == a / total + b / total; }
      (a / total + b / total) * extent;
      (a / total) * extent + (b / total) * extent;
    }
  }

  lemma FracWhole(total: real, extent: real)
    requires total != 0.0
    ensures Frac(total, total, extent) == extent
  {
    assert total / total == 1.0;
  }

  lemma FracBounds(a: real, total: real, extent: real)
    requires 0.0 <= a <= total && total > 0.0 && extent > 0.0
    ensures 0.0 <= Frac(a, total, extent) <= extent
    ensures a > 0.0 ==> Frac(a, total, extent) > 0.0
  {
    var q := a / total;
    assert q * total == a;
    assert 0.0 <= q;
    assert q <= 1.0;
    assert q * extent <= 1.0 * extent;
    assert a > 0.0 ==> q > 0.0;
  }

  /** The node's own rectangle inside its allotted rectangle `a`. */
  function OwnRect(a: Rect, e: Envelope, own: Size): Rect
    requires e.totalW != 0.0 && e.totalH != 0.0
  {
    Rect(a.x + Frac(e.offX, e.totalW, a.w), a.y + Frac(e.offY, e.totalH, a.h),
         Frac(own.w, e.totalW, a.w), Frac(own.h, e.totalH, a.h))
  }

  /** Same-side siblings along x: a running cursor, advanced by each panel width. */
  function HRun(cur: real, y0: real, kids: seq<Size>, e: Envelope, a: Rect): (rs: seq<Rect>)
    requires e.totalW != 0.0 && e.totalH != 0.0
    ensures |rs| == |kids|
    decreases kids
  {
    if kids == [] then []
    else
      var pw := Frac(kids[0].w, e.totalW, a.w);
      [Rect(cur, y0, pw, Frac(kids[0].h, e.totalH, a.h))] + HRun(cur + pw, y0, kids[1..], e, a)
  }

  /** Same-side siblings along y: a running cursor, advanced by each panel height. */
  function VRun(x0: real, cur: real, kids: seq<Size>, e: Envelope, a: Rect): (rs: seq<Rect>)
    requires e.totalW != 0.0 && e.totalH != 0.0
    ensures |rs| == |kids|
    decreases kids
  {
    if kids == [] then []
    else
      var ph := Frac(kids[0].h, e.totalH, a.h);
      [Rect(x0, cur, Frac(kids[0].w, e.totalW, a.w), ph)] + VRun(x0, cur + ph, kids[1..], e, a)
  }

  /** The rectangles allotted to the children on side `s`, each branch as `_render_tenons` has it. */
  function SideAllocs(s: Side, a: Rect, e: Envelope, own: Size, kids: seq<Size>): (rs: seq<Rect>)
    requires e.totalW != 0.0 && e.totalH != 0.0
    ensures |rs| == |kids|
  {
    match s
    case Left => HRun(a.x, a.y + Frac(e.offY, e.totalH, a.h), kids, e, a)
    case Right => HRun(a.x + Frac(e.offX + own.w, e.totalW, a.w), a.y + Frac(e.offY, e.totalH, a.h), kids, e, a)
    case Top => VRun(a.x + Frac(e.offX, e.totalW, a.w), a.y + Frac(e.offY + own.h, e.totalH, a.h), kids, e, a)
    case Bottom => VRun(a.x + Frac(e.offX, e.totalW, a.w), a.y, kids, e, a)
  }

  lemma {:induction false} HRunAt(cur: real, y0: real, kids: seq<Size>, e: Envelope, a: Rect, k: nat)
    requires e.totalW != 0.0 && e.totalH != 0.0 && k < |kids|
    decreases k
    ensures HRun(cur, y0, kids, e, a)[k] ==
      Rect(cur + Frac(SumW(kids[..k]), e.totalW, a.w), y0,
           Frac(kids[k].w, e.totalW, a.w), Frac(kids[k].h, e.totalH, a.h))
  {
    FracAdd(0.0, 0.0, e.totalW, a.w);
    if k > 0 {
      var pw := Frac(kids[0].w, e.totalW, a.w);
      HRunAt(cur + pw, y0, kids[1..], e, a, k - 1);
      assert kids[..k][1..] == kids[1..][..k - 1];
      FracAdd(kids[0].w, SumW(kids[1..][..k - 1]), e.totalW, a.w);
    }
  }

  lemma {:induction false} VRunAt(x0: real, cur: real, kids: seq<Size>, e: Envelope, a: Rect, k: nat)
    requires e.totalW != 0.0 && e.totalH != 0.0 && k < |kids|
    decreases k
    ensures VRun(x0, cur, kids, e, a)[k] ==
      Rect(x0, cur + Frac(SumH(kids[..k]), e.totalH, a.h),
           Frac(kids[k].w, e.totalW, a.w), Frac(kids[k].h, e.totalH, a.h))
  {
    FracAdd(0.0, 0.0, e.totalH, a.h);
    if k > 0 {
      var ph := Frac(kids[0].h, e.totalH, a.h);
      VRunAt(x0, cur + ph, kids[1..], e, a, k - 1);
      assert kids[..k][1..] == kids[1..][..k - 1];
      FracAdd(kids[0].h, SumH(kids[1..][..k - 1]), e.totalH, a.h);
    }
  }

  lemma FracMono(a: real, b: real, total: real, extent: real)
    requires a <= b && total > 0.0 && extent > 0.0
    ensures Frac(a, total, extent) <= Frac(b, total, extent)
  {
    assert a / total <= b / total;
  }

  lemma FracPos(a: real, total: real, extent: real)
    requires a > 0.0 && total > 0.0 && extent > 0.0
    ensures Frac(a, total, extent) > 0.0
  {
    assert a / total > 0.0;
  }

  // ----- Statements about one level of the render pass -----

  /** `r` lies within `a`. */
  predicate Inside(r: Rect, a: Rect) {
    a.x <= r.x && r.x + r.w <= a.x + a.w && a.y <= r.y && r.y + r.h <= a.y + a.h
  }

  /** `r` has a positive area. */
  predicate Proper(r: Rect) {
    r.w > 0.0 && r.h > 0.0
  }

  /** Position of `r` along the axis of side `s`. */
  function Lead(s: Side, r: Rect): real {
    if Horizontal(s) then r.x else r.y
  }

  /** Length of `r` along the axis of side `s`. */
  function Extent(s: Side, r: Rect): real {
    if Horizontal(s) then r.w else r.h
  }

  /** Where the run of side `s` begins, given the allotted rectangle `a` and the node's own rectangle `o`. */
  function RunStart(s: Side, a: Rect, o: Rect): real {
    match s
    case Left => a.x
    case Right => o.x + o.w
    case Top => o.y + o.h
    case Bottom => a.y
  }

  /** Where the run of side `s` ends. */
  function RunEnd(s: Side, a: Rect, o: Rect): real {
    match s
    case Left => o.x
    case Right => a.x + a.w
    case Top => a.y + a.h
    case Bottom => o.y
  }

  /** `r` lies on side `s` of `o`, without overlapping it. */
  predicate Apart(s: Side, r: Rect, o: Rect) {
    match s
    case Left => r.x + r.w <= o.x
    case Right => o.x + o.w <= r.x
    case Top => o.y + o.h <= r.y
    case Bottom => r.y + r.h <= o.y
  }

  /** Left/right rectangles share `o`'s vertical band, top/bottom ones its horizontal band. */
  predicate Aligned(s: Side, r: Rect, o: Rect) {
    if Horizontal(s) then r.y == o.y && r.h == o.h else r.x == o.x && r.w == o.w
  }

  /** The children of side `s` have the node's height (left/right) or width (top/bottom), as `tenon` makes them. */
  predicate Matched(s: Side, own: Size, kids: seq<Size>) {
    forall k :: 0 <= k < |kids| ==> if Horizontal(s) then kids[k].h == own.h else kids[k].w == own.w
  }

  function Along(s: Side, kids: seq<Size>): real {
    if Horizontal(s) then SumW(kids) else SumH(kids)
  }

  function AlongOne(s: Side, z: Size): real {
    if Horizontal(s) then z.w else z.h
  }

  function Total(s: Side, e: Envelope): real {
    if Horizontal(s) then e.totalW else e.totalH
  }

  function Span(s: Side, a: Rect): real {
    if Horizontal(s) then a.w else a.h
  }

  /** Closed form of the `k`-th allotted rectangle of side `s`: the cursor has advanced by the earlier siblings. */
  lemma RunAt(s: Side, a: Rect, own: Size, kids: Sides<Size>, k: nat)
    requires PositiveSizes(own, kids) && a.w > 0.0 && a.h > 0.0
    requires Matched(s, own, kids.Get(s)) && k < |kids.Get(s)|
    ensures var e := Solve(own, kids);
      var o := OwnRect(a, e, own);
      var list := kids.Get(s);
      var r := SideAllocs(s, a, e, own, list)[k];
      && Lead(s, r) == RunStart(s, a, o) + Frac(Along(s, list[..k]), Total(s, e), Span(s, a))
      && Extent(s, r) == Frac(AlongOne(s, list[k]), Total(s, e), Span(s, a))
      && Aligned(s, r, o)
      && Proper(r)
  {
    match s
    case Left => RunAtLeft(a, own, kids, k);
    case Right => RunAtRight(a, own, kids, k);
    case Top => RunAtTop(a, own, kids, k);
    case Bottom => RunAtBottom(a, own, kids, k);
  }

  lemma RunAtLeft(a: Rect, own: Size, kids: Sides<Size>, k: nat)
    requires PositiveSizes(own, kids) && a.w > 0.0 && a.h > 0.0
    requires Matched(Left, own, kids.Get(Left)) && k < |kids.Get(Left)|
    ensures var e := Solve(own, kids);
      var o := OwnRect(a, e, own);
      var list := kids.Get(Left);
      var r := SideAllocs(Left, a, e, own, list)[k];
      && Lead(Left, r) == RunStart(Left, a, o) + Frac(Along(Left, list[..k]), Total(Left, e), Span(Left, a))
      && Extent(Left, r) == Frac(AlongOne(Left, list[k]), Total(Left, e), Span(Left, a))
      && Aligned(Left, r, o)
      && Proper(r)
  {
    var e := Solve(own, kids);
    var list := kids.Get(Left);
    FracPos(list[k].w, e.totalW, a.w);
    FracPos(list[k].h, e.totalH, a.h);
    HRunAt(a.x, a.y + Frac(e.offY, e.totalH, a.h), list, e, a, k);
  }

  lemma RunAtRight(a: Rect, own: Size, kids: Sides<Size>, k: nat)
    requires PositiveSizes(own, kids) && a.w > 0.0 && a.h > 0.0
    requires Matched(Right, own, kids.Get(Right)) && k < |kids.Get(Right)|
    ensures var e := Solve(own, kids);
      var o := OwnRect(a, e, own);
      var list := kids.Get(Right);
      var r := SideAllocs(Right, a, e, own, list)[k];
      && Lead(Right, r) == RunStart(Right, a, o) + Frac(Along(Right, list[..k]), Total(Right, e), Span(Right, a))
      && Extent(Right, r) == Frac(AlongOne(Right, list[k]), Total(Right, e), Span(Right, a))
      && Aligned(Right, r, o)
      && Proper(r)
  {
    var e := Solve(own, kids);
    var list := kids.Get(Right);
    FracPos(list[k].w, e.totalW, a.w);
    FracPos(list[k].h, e.totalH, a.h);
    HRunAt(a.x + Frac(e.offX + own.w, e.totalW, a.w), a.y + Frac(e.offY, e.totalH, a.h), list, e, a, k);
    FracAdd(e.offX, own.w, e.totalW, a.w);
  }

  lemma RunAtTop(a: Rect, own: Size, kids: Sides<Size>, k: nat)
    requires PositiveSizes(own, kids) && a.w > 0.0 && a.h > 0.0
    requires Matched(Top, own, kids.Get(Top)) && k < |kids.Get(Top)|
    ensures var e := Solve(own, kids);
      var o := OwnRect(a, e, own);
      var list := kids.Get(Top);
      var r := SideAllocs(Top, a, e, own, list)[k];
      && Lead(Top, r) == RunStart(Top, a, o) + Frac(Along(Top, list[..k]), Total(Top, e), Span(Top, a))
      && Extent(Top, r) == Frac(AlongOne(Top, list[k]), Total(Top, e), Span(Top, a))
      && Aligned(Top, r, o)
      && Proper(r)
  {
    var e := Solve(own, kids);
    var list := kids.Get(Top);
    FracPos(list[k].w, e.totalW, a.w);
    FracPos(list[k].h, e.totalH, a.h);
    VRunAt(a.x + Frac(e.offX, e.totalW, a.w), a.y + Frac(e.offY + own.h, e.totalH, a.h), list, e, a, k);
    FracAdd(e.offY, own.h, e.totalH, a.h);
  }

  lemma RunAtBottom(a: Rect, own: Size, kids: Sides<Size>, k: nat)
    requires PositiveSizes(own, kids) && a.w > 0.0 && a.h > 0.0
    requires Matched(Bottom, own, kids.Get(Bottom)) && k < |kids.Get(Bottom)|
    ensures var e := Solve(own, kids);
      var o := OwnRect(a, e, own);
      var list := kids.Get(Bottom);
      var r := SideAllocs(Bottom, a, e, own, list)[k];
      && Lead(Bottom, r) == RunStart(Bottom, a, o) + Frac(Along(Bottom, list[..k]), Total(Bottom, e), Span(Bottom, a))
      && Extent(Bottom, r) == Frac(AlongOne(Bottom, list[k]), Total(Bottom, e), Span(Bottom, a))
      && Aligned(Bottom, r, o)
      && Proper(r)
  {
    var e := Solve(own, kids);
    var list := kids.Get(Bottom);
    FracPos(list[k].w, e.totalW, a.w);
    FracPos(list[k].h, e.totalH, a.h);
    VRunAt(a.x + Frac(e.offX, e.totalW, a.w), a.y, list, e, a, k);
  }

  /** The run of side `s` ends where the node's own rectangle (left, bottom) or the allotted rectangle (right, top) ends. */
  lemma RunEndAt(s: Side, a: Rect, own: Size, kids: Sides<Size>)
    requires PositiveSizes(own, kids) && a.w > 0.0 && a.h > 0.0
    ensures var e := Solve(own, kids);
      var o := OwnRect(a, e, own);
      && RunEnd(s, a, o) == RunStart(s, a, o) + Frac(Along(s, kids.Get(s)), Total(s, e), Span(s, a))
      && Lead(s, a) <= RunStart(s, a, o)
      && RunEnd(s, a, o) <= Lead(s, a) + Span(s, a)
  {
    var e := Solve(own, kids);
    match s
    case Left =>
      SumPrefixBounds(kids.left, 0);
      FracBounds(e.offX, e.totalW, a.w);
    case Right =>
      SumPrefixBounds(kids.right, 0);
      FracAdd(e.offX, own.w, e.totalW, a.w);
      FracAdd(e.offX + own.w, SumW(kids.right), e.totalW, a.w);
      FracWhole(e.totalW, a.w);
      FracBounds(e.offX + own.w, e.totalW, a.w);
    case Top =>
      SumPrefixBounds(kids.top, 0);
      FracAdd(e.offY, own.h, e.totalH, a.h);
      FracAdd(e.offY + own.h, SumH(kids.top), e.totalH, a.h);
      FracWhole(e.totalH, a.h);
      FracBounds(e.offY + own.h, e.totalH, a.h);
    case Bottom =>
      SumPrefixBounds(kids.bottom, 0);
      FracBounds(e.offY, e.totalH, a.h);
  }

  /** With positive sizes the node's own rectangle lies inside its allotted rectangle. */
  lemma OwnRectInside(a: Rect, own: Size, kids: Sides<Size>)
    requires PositiveSizes(own, kids) && a.w > 0.0 && a.h > 0.0
    ensures var o := OwnRect(a, Solve(own, kids), own);
      Inside(o, a) && Proper(o)
  {
    var e := Solve(own, kids);
    FracAdd(e.offX, own.w, e.totalW, a.w);
    FracAdd(e.offY, own.h, e.totalH, a.h);
    FracBounds(e.offX, e.totalW, a.w);
    FracBounds(e.offY, e.totalH, a.h);
    FracBounds(e.offX + own.w, e.totalW, a.w);
    FracBounds(e.offY + own.h, e.totalH, a.h);
    FracPos(own.w, e.totalW, a.w);
    FracPos(own.h, e.totalH, a.h);
  }

  lemma AlongSnoc(s: Side, list: seq<Size>, k: nat)
    requires k < |list|
    ensures Along(s, list[..k + 1]) == Along(s, list[..k]) + AlongOne(s, list[k])
  {
    SumSnoc(list, k);
  }

  /** The `k`-th rectangle of side `s` lies between the start and the end of that side's run. */
  lemma RunBounds(s: Side, a: Rect, own: Size, kids: Sides<Size>, k: nat)
    requires PositiveSizes(own, kids) && a.w > 0.0 && a.h > 0.0
    requires Matched(s, own, kids.Get(s)) && k < |kids.Get(s)|
    ensures var e := Solve(own, kids);
      var o := OwnRect(a, e, own);
      var r := SideAllocs(s, a, e, own, kids.Get(s))[k];
      RunStart(s, a, o) <= Lead(s, r) && Lead(s, r) + Extent(s, r) <= RunEnd(s, a, o)
  {
    var e := Solve(own, kids);
    var list := kids.Get(s);
    assert AllPositive(list);
    RunAt(s, a, own, kids, k);
    RunEndAt(s, a, own, kids);
    SumPrefixBounds(list, k);
    AlongSnoc(s, list, k);
    FracAdd(Along(s, list[..k]), AlongOne(s, list[k]), Total(s, e), Span(s, a));
    FracBounds(Along(s, list[..k]), Total(s, e), Span(s, a));
    FracMono(Along(s, list[..k + 1]), Along(s, list), Total(s, e), Span(s, a));
    assert Total(s, e) > 0.0 && Span(s, a) > 0.0;
  }

  /** The run of side `s` starts and ends at the edges `RunStart` and `RunEnd`. */
  lemma SideEnds(s: Side, a: Rect, own: Size, kids: Sides<Size>)
    requires PositiveSizes(own, kids) && a.w > 0.0 && a.h > 0.0
    requires Matched(s, own, kids.Get(s))
    ensures var e := Solve(own, kids);
      var o := OwnRect(a, e, own);
      var rs := SideAllocs(s, a, e, own, kids.Get(s));
      |rs| > 0 ==> (Lead(s, rs[0]) == RunStart(s, a, o)
                   && Lead(s, rs[|rs| - 1]) + Extent(s, rs[|rs| - 1]) == RunEnd(s, a, o))
  {
    var e := Solve(own, kids);
    var list := kids.Get(s);
    var rs := SideAllocs(s, a, e, own, list);
    RunEndAt(s, a, own, kids);
    if |rs| > 0 {
      var n := |rs| - 1;
      RunAt(s, a, own, kids, 0);
      RunAt(s, a, own, kids, n);
      AlongSnoc(s, list, n);
      assert list[..n + 1] == list;
      assert list[..0] == [];
      FracAdd(Along(s, list[..n]), AlongOne(s, list[n]), Total(s, e), Span(s, a));
      FracAdd(0.0, 0.0, Total(s, e), Span(s, a));
    }
  }

  /** Each sibling of side `s` begins where the previous one ends. */
  lemma SideContiguous(s: Side, a: Rect, own: Size, kids: Sides<Size>)
    requires PositiveSizes(own, kids) && a.w > 0.0 && a.h > 0.0
    requires Matched(s, own, kids.Get(s))
    ensures var e := Solve(own, kids);
      var o := OwnRect(a, e, own);
      var rs := SideAllocs(s, a, e, own, kids.Get(s));
      forall k :: 0 <= k < |rs| - 1 ==> Lead(s, rs[k]) + Extent(s, rs[k]) == Lead(s, rs[k + 1])
  {
    var e := Solve(own, kids);
    var list := kids.Get(s);
    var rs := SideAllocs(s, a, e, own, list);
    forall k | 0 <= k < |rs| - 1
      ensures Lead(s, rs[k]) + Extent(s, rs[k]) == Lead(s, rs[k + 1])
    {
      RunAt(s, a, own, kids, k);
      RunAt(s, a, own, kids, k + 1);
      AlongSnoc(s, list, k);
      FracAdd(Along(s, list[..k]), AlongOne(s, list[k]), Total(s, e), Span(s, a));
    }
  }

  /** Each sibling of side `s` is a proper rectangle inside the allotted one, beside the node and sharing its band. */
  lemma SideInside(s: Side, a: Rect, own: Size, kids: Sides<Size>)
    requires PositiveSizes(own, kids) && a.w > 0.0 && a.h > 0.0
    requires Matched(s, own, kids.Get(s))
    ensures var e := Solve(own, kids);
      var o := OwnRect(a, e, own);
      var rs := SideAllocs(s, a, e, own, kids.Get(s));
      forall k :: 0 <= k < |rs| ==>
        (Proper(rs[k]) && Aligned(s, rs[k], o) && Apart(s, rs[k], o) && Inside(rs[k], a))
  {
    var e := Solve(own, kids);
    var list := kids.Get(s);
    var o := OwnRect(a, e, own);
    var rs := SideAllocs(s, a, e, own, list);
    OwnRectInside(a, own, kids);
    RunEndAt(s, a, own, kids);
    forall k | 0 <= k < |rs|
      ensures Proper(rs[k]) && Aligned(s, rs[k], o) && Apart(s, rs[k], o) && Inside(rs[k], a)
    {
      RunAt(s, a, own, kids, k);
      RunBounds(s, a, own, kids, k);
    }
  }

  /**
   * Same-side siblings tile the band between the node's own rectangle and the edge of
   * its allotted rectangle: the run starts at the node (right, top) or the allotted edge (left,
   * bottom), each sibling begins where the previous one ends, the run ends at the other edge,
   * and no sibling overlaps the node.
   */
  lemma SideTiles(s: Side, a: Rect, own: Size, kids: Sides<Size>)
    requires PositiveSizes(own, kids) && a.w > 0.0 && a.h > 0.0
    requires Matched(s, own, kids.Get(s))
    ensures var e := Solve(own, kids);
      var o := OwnRect(a, e, own);
      var rs := SideAllocs(s, a, e, own, kids.Get(s));
      && (|rs| > 0 ==> (Lead(s, rs[0]) == RunStart(s, a, o)
                   && Lead(s, rs[|rs| - 1]) + Extent(s, rs[|rs| - 1]) == RunEnd(s, a, o)))
      && (forall k :: 0 <= k < |rs| - 1 ==> Lead(s, rs[k]) + Extent(s, rs[k]) == Lead(s, rs[k + 1]))
      && (forall k :: 0 <= k < |rs| ==>
        (Proper(rs[k]) && Aligned(s, rs[k], o) && Apart(s, rs[k], o) && Inside(rs[k], a)))
  {
    SideEnds(s, a, own, kids);
    SideContiguous(s, a, own, kids);
    SideInside(s, a, own, kids);
  }

  /** `r` and `q` do not overlap: one lies wholly to the left of, right of, above or below the other. */
  predicate NoOverlap(r: Rect, q: Rect) {
    r.x + r.w <= q.x || q.x + q.w <= r.x || r.y + r.h <= q.y || q.y + q.h <= r.y
  }

  /** Two rectangles placed beside `o` on different sides, each in `o`'s band, do not overlap. */
  lemma ApartSidesNoOverlap(s1: Side, s2: Side, r: Rect, q: Rect, o: Rect)
    requires s1 != s2 && Proper(o)
    requires Aligned(s1, r, o) && Apart(s1, r, o) && Aligned(s2, q, o) && Apart(s2, q, o)
    ensures NoOverlap(r, q)
  {
  }

  /**
   * The rectangles `_render_tenons` gives the children on two different sides of one node never
   * overlap each other, and none of them overlaps the node's own rectangle.
   */
  lemma ChildrenDisjoint(s1: Side, s2: Side, a: Rect, own: Size, kids: Sides<Size>)
    requires PositiveSizes(own, kids) && a.w > 0.0 && a.h > 0.0 && s1 != s2
    requires Matched(s1, own, kids.Get(s1)) && Matched(s2, own, kids.Get(s2))
    ensures var e := Solve(own, kids);
      var o := OwnRect(a, e, own);
      var rs1, rs2 := SideAllocs(s1, a, e, own, kids.Get(s1)), SideAllocs(s2, a, e, own, kids.Get(s2));
      && (forall j, k :: 0 <= j < |rs1| && 0 <= k < |rs2| ==> NoOverlap(rs1[j], rs2[k]))
      && (forall j :: 0 <= j < |rs1| ==> NoOverlap(rs1[j], o))
  {
    var e := Solve(own, kids);
    var o := OwnRect(a, e, own);
    var rs1, rs2 := SideAllocs(s1, a, e, own, kids.Get(s1)), SideAllocs(s2, a, e, own, kids.Get(s2));
    OwnRectInside(a, own, kids);
    SideTiles(s1, a, own, kids);
    SideTiles(s2, a, own, kids);
    forall j, k | 0 <= j < |rs1| && 0 <= k < |rs2| ensures NoOverlap(rs1[j], rs2[k]) {
      ApartSidesNoOverlap(s1, s2, rs1[j], rs2[k], o);
    }
  }

  /** Where the cursor of side `s` starts: `current_x` for left/right, `current_y` for top/bottom. */
  function CursorStart(s: Side, a: Rect, e: Envelope, own: Size): real
    requires e.totalW != 0.0 && e.totalH != 0.0
  {
    match s
    case Left => a.x
    case Right => a.x + Frac(e.offX + own.w, e.totalW, a.w)
    case Top => a.y + Frac(e.offY + own.h, e.totalH, a.h)
    case Bottom => a.y
  }

  /** The coordinate every rectangle of the run of side `s` shares: `tenon_y` for left/right, `tenon_x` for top/bottom. */
  function CursorFixed(s: Side, a: Rect, e: Envelope, own: Size): real
    requires e.totalW != 0.0 && e.totalH != 0.0
  {
    if Horizontal(s) then a.y + Frac(e.offY, e.totalH, a.h) else a.x + Frac(e.offX, e.totalW, a.w)
  }

  /** How far the cursor of side `s` has moved after the panels `kids`. */
  function Advance(s: Side, e: Envelope, a: Rect, kids: seq<Size>): real
    requires e.totalW != 0.0 && e.totalH != 0.0
  {
    if Horizontal(s) then Frac(SumW(kids), e.totalW, a.w) else Frac(SumH(kids), e.totalH, a.h)
  }

  /** The `k`-th allotted rectangle of side `s` is the one the cursor loop builds at step `k`. */
  lemma AllocAt(s: Side, a: Rect, e: Envelope, own: Size, kids: seq<Size>, k: nat)
    requires e.totalW != 0.0 && e.totalH != 0.0 && k < |kids|
    ensures var pw := Frac(kids[k].w, e.totalW, a.w);
      var ph := Frac(kids[k].h, e.totalH, a.h);
      var cur := CursorStart(s, a, e, own) + Advance(s, e, a, kids[..k]);
      SideAllocs(s, a, e, own, kids)[k] ==
        if Horizontal(s) then Rect(cur, CursorFixed(s, a, e, own), pw, ph)
        else Rect(CursorFixed(s, a, e, own), cur, pw, ph)
  {
    match s
    case Left => HRunAt(CursorStart(s, a, e, own), CursorFixed(s, a, e, own), kids, e, a, k);
    case Right => HRunAt(CursorStart(s, a, e, own), CursorFixed(s, a, e, own), kids, e, a, k);
    case Top => VRunAt(CursorFixed(s, a, e, own), CursorStart(s, a, e, own), kids, e, a, k);
    case Bottom => VRunAt(CursorFixed(s, a, e, own), CursorStart(s, a, e, own), kids, e, a, k);
  }

  /** One step of the cursor: it moves by the panel's width (left/right) or height (top/bottom). */
  lemma AdvanceStep(s: Side, e: Envelope, a: Rect, kids: seq<Size>, k: nat)
    requires e.totalW != 0.0 && e.totalH != 0.0 && k < |kids|
    ensures Advance(s, e, a, kids[..k + 1]) == Advance(s, e, a, kids[..k]) +
      (if Horizontal(s) then Frac(kids[k].w, e.totalW, a.w) else Frac(kids[k].h, e.totalH, a.h))
  {
    SumSnoc(kids, k);
    FracAdd(SumW(kids[..k]), kids[k].w, e.totalW, a.w);
    FracAdd(SumH(kids[..k]), kids[k].h, e.totalH, a.h);
  }

  lemma AdvanceZero(s: Side, e: Envelope, a: Rect, kids: seq<Size>)
    requires e.totalW != 0.0 && e.totalH != 0.0
    ensures Advance(s, e, a, kids[..0]) == 0.0
  {
    assert kids[..0] == [];
    FracAdd(0.0, 0.0, e.totalW, a.w);
    FracAdd(0.0, 0.0, e.totalH, a.h);
  }
}
