/**
 * The value side of legend aggregation: labelled entries of a canvas, what
 * `LegendManager.collect_legends` gathers from the registered panels, the
 * `dict(zip(labels, handles))` deduplication of `create_global_legend`, the
 * per-panel legends of `create_local_legends`, the mode cascade of
 * `auto_layout_legends` and the `LegendPosition` table and heuristic.
 * Handles are an abstract type parameter `H`; labels are strings.
 */
module LegendInfo {
  import opened Outcomes
  import opened Geometry

  /** One `(handle, label)` pair of `get_legend_handles_labels`. */
  datatype Entry<H> = Entry(handle: H, caption: string)

  /** A legend placed on one panel's canvas (`axes.legend(handles, labels, loc=...)`). */
  datatype LocalLegend<H> = LocalLegend(entries: seq<Entry<H>>, loc: string)

  /**
   * What the legend code sees of a rendered panel's canvas: the labelled entries drawn on it
   * and the legend it currently shows.
   */
  datatype Canvas<H> = Canvas(entries: seq<Entry<H>>, legend: Option<LocalLegend<H>>)

  /** The single figure legend of `create_global_legend`. */
  datatype GlobalLegend<H> = GlobalLegend(handles: seq<H>, labels: seq<string>, loc: string, ncol: int)

  /** One `mortise_legends` entry: the panel's entries and the panel. */
  datatype Group<H> = Group(entries: seq<Entry<H>>, node: nat)

  /**
   * The dictionary `collect_legends` returns; `groups` is keyed by the registration index `i`
   * of the key `'mortise_{i}'`.
   */
  datatype Info<H> = Info(handles: seq<H>, labels: seq<string>, groups: map<nat, Group<H>>, unique: set<string>)

  function HandlesOf<H>(es: seq<Entry<H>>): (hs: seq<H>)
    ensures |hs| == |es| && forall i :: 0 <= i < |es| ==> hs[i] == es[i].handle
  {
    seq(|es|, i requires 0 <= i < |es| => es[i].handle)
  }

  function LabelsOf<H>(es: seq<Entry<H>>): (ls: seq<string>)
    ensures |ls| == |es| && forall i :: 0 <= i < |es| ==> ls[i] == es[i].caption
  {
    seq(|es|, i requires 0 <= i < |es| => es[i].caption)
  }

  function LabelSet<H>(es: seq<Entry<H>>): set<string>
    decreases |es|
  {
    if es == [] then {} else LabelSet(es[..|es| - 1]) + {es[|es| - 1].caption}
  }

  lemma {:induction false} LabelSetMembers<H>(es: seq<Entry<H>>, l: string)
    decreases |es|
    ensures l in LabelSet(es) <==> l in LabelsOf(es)
  {
    if es != [] {
      var p := es[..|es| - 1];
      LabelSetMembers(p, l);
      assert LabelsOf(es) == LabelsOf(p) + [es[|es| - 1].caption];
    }
  }

  lemma {:induction false} LabelSetAppend<H>(a: seq<Entry<H>>, b: seq<Entry<H>>)
    decreases |b|
    ensures LabelSet(a + b) == LabelSet(a) + LabelSet(b)
  {
    if b == [] {
      assert a + b == a;
    } else {
      var q := b[..|b| - 1];
      LabelSetAppend(a, q);
      assert (a + b)[..|a + b| - 1] == a + q;
    }
  }

  /** `zip(labels, handles)`: pairs up to the shorter of the two lists. */
  function Zip<H>(ls: seq<string>, hs: seq<H>): (es: seq<Entry<H>>)
    ensures |es| == if |ls| <= |hs| then |ls| else |hs|
  {
    var n := if |ls| <= |hs| then |ls| else |hs|;
    seq(n, i requires 0 <= i < n => Entry(hs[i], ls[i]))
  }

  lemma ZipUnzip<H>(es: seq<Entry<H>>)
    ensures Zip(LabelsOf(es), HandlesOf(es)) == es
  {
  }

  // ----- dict(zip(labels, handles)) -----

  /** An insertion-ordered dictionary from label to handle, as its key list and value list. */
  datatype ByLabel<H> = ByLabel(keys: seq<string>, values: seq<H>)

  function IndexOf(keys: seq<string>, l: string): (i: nat)
    requires l in keys
    ensures i < |keys| && keys[i] == l
    ensures forall j :: 0 <= j < i ==> keys[j] != l
  {
    if keys[0] == l then 0 else 1 + IndexOf(keys[1..], l)
  }

  /** `d[l] = h`: an existing key keeps its place and takes the new value; a new key goes last. */
  function Insert<H>(d: ByLabel<H>, l: string, h: H): (r: ByLabel<H>)
    requires |d.keys| == |d.values|
    ensures |r.keys| == |r.values|
  {
    if l in d.keys then ByLabel(d.keys, d.values[IndexOf(d.keys, l) := h])
    else ByLabel(d.keys + [l], d.values + [h])
  }

  /** `dict(zip(labels, handles))` built from the pairs in order. */
  function DictZip<H>(es: seq<Entry<H>>): (d: ByLabel<H>)
    ensures |d.keys| == |d.values|
    decreases |es|
  {
    if es == [] then ByLabel([], [])
    else Insert(DictZip(es[..|es| - 1]), es[|es| - 1].caption, es[|es| - 1].handle)
  }

  predicate Distinct(ks: seq<string>) {
    forall i, j :: 0 <= i < j < |ks| ==> ks[i] != ks[j]
  }

  /** The handle of the last pair that carries label `l`. */
  function LastHandle<H>(es: seq<Entry<H>>, l: string): H
    requires l in LabelSet(es)
    decreases |es|
  {
    if es[|es| - 1].caption == l then es[|es| - 1].handle else LastHandle(es[..|es| - 1], l)
  }

  lemma IndexOfSnoc(ls: seq<string>, x: string, l: string)
    requires l in ls
    ensures IndexOf(ls + [x], l) == IndexOf(ls, l)
  {
    var i := IndexOf(ls + [x], l);
    var j := IndexOf(ls, l);
    assert (ls + [x])[j] == l;
    assert i <= j;
    assert ls[i] == l;
  }

  lemma IndexOfNew(ls: seq<string>, l: string)
    requires l !in ls
    ensures IndexOf(ls + [l], l) == |ls|
  {
  }

  /** `dict(zip(labels, handles))` has exactly one key per distinct label. */
  lemma {:induction false} DictZipKeys<H>(es: seq<Entry<H>>)
    decreases |es|
    ensures var d := DictZip(es);
      Distinct(d.keys) && forall l :: l in d.keys <==> l in LabelSet(es)
  {
    if es != [] {
      DictZipKeys(es[..|es| - 1]);
    }
  }

  /** Each key carries the handle of the LAST pair with that label. */
  lemma {:induction false} DictZipValues<H>(es: seq<Entry<H>>)
    decreases |es|
    ensures var d := DictZip(es);
      forall k :: 0 <= k < |d.keys| ==> d.keys[k] in LabelSet(es) && d.values[k] == LastHandle(es, d.keys[k])
  {
    if es != [] {
      var p := es[..|es| - 1];
      DictZipValues(p);
      DictZipKeys(p);
      var d := DictZip(es);
      forall k | 0 <= k < |d.keys|
        ensures d.keys[k] in LabelSet(es) && d.values[k] == LastHandle(es, d.keys[k])
      {
      }
    }
  }

  /** The keys come in the order of each label's FIRST occurrence. */
  lemma {:induction false} DictZipOrder<H>(es: seq<Entry<H>>)
    decreases |es|
    ensures var d := DictZip(es);
      forall a, b :: 0 <= a < b < |d.keys| ==>
        d.keys[a] in LabelsOf(es) && d.keys[b] in LabelsOf(es) &&
        IndexOf(LabelsOf(es), d.keys[a]) < IndexOf(LabelsOf(es), d.keys[b])
  {
    if es != [] {
      var p := es[..|es| - 1];
      var e := es[|es| - 1];
      DictZipOrder(p);
      DictZipKeys(p);
      var d0 := DictZip(p);
      var d := DictZip(es);
      assert LabelsOf(es) == LabelsOf(p) + [e.caption];
      forall l | l in d0.keys ensures l in LabelsOf(p) {
        LabelSetMembers(p, l);
      }
      forall a, b | 0 <= a < b < |d.keys|
        ensures d.keys[a] in LabelsOf(es) && d.keys[b] in LabelsOf(es)
        ensures IndexOf(LabelsOf(es), d.keys[a]) < IndexOf(LabelsOf(es), d.keys[b])
      {
        assert d.keys[a] in d0.keys;
        IndexOfSnoc(LabelsOf(p), e.caption, d.keys[a]);
        if b < |d0.keys| {
          IndexOfSnoc(LabelsOf(p), e.caption, d.keys[b]);
        } else {
          LabelSetMembers(p, e.caption);
          IndexOfNew(LabelsOf(p), e.caption);
        }
      }
    }
  }

  // ----- collect_legends -----

  /** The entries of panel `m`, or none when it has no canvas (`axes is None`). */
  function EntriesAt<H>(cs: map<nat, Canvas<H>>, m: nat): seq<Entry<H>> {
    if m in cs then cs[m].entries else []
  }

  /** Panel `m` has a canvas with at least one labelled entry (`if handles and labels`). */
  predicate Labelled<H>(cs: map<nat, Canvas<H>>, m: nat) {
    m in cs && cs[m].entries != []
  }

  /** The flat list: each registered panel's entries, in registration order. */
  function Flat<H>(ms: seq<nat>, cs: map<nat, Canvas<H>>): seq<Entry<H>>
    decreases |ms|
  {
    if ms == [] then [] else Flat(ms[..|ms| - 1], cs) + EntriesAt(cs, ms[|ms| - 1])
  }

  /** `mortise_legends`: one group per registration index whose panel is labelled. */
  function Groups<H>(ms: seq<nat>, cs: map<nat, Canvas<H>>): map<nat, Group<H>> {
    map k: nat | k < |ms| && Labelled(cs, ms[k]) :: Group(cs[ms[k]].entries, ms[k])
  }

  /** The result of `collect_legends` for registered panels `ms`. */
  function Collected<H>(ms: seq<nat>, cs: map<nat, Canvas<H>>): Info<H> {
    var es := Flat(ms, cs);
    Info(HandlesOf(es), LabelsOf(es), Groups(ms, cs), LabelSet(es))
  }

  lemma FlatStep<H>(ms: seq<nat>, cs: map<nat, Canvas<H>>, i: nat)
    requires i < |ms|
    ensures Flat(ms[..i + 1], cs) == Flat(ms[..i], cs) + EntriesAt(cs, ms[i])
  {
    assert ms[..i + 1][..i] == ms[..i];
  }

  lemma GroupsStep<H>(ms: seq<nat>, cs: map<nat, Canvas<H>>, i: nat)
    requires i < |ms|
    ensures Groups(ms[..i + 1], cs) ==
      if Labelled(cs, ms[i]) then Groups(ms[..i], cs)[i := Group(cs[ms[i]].entries, ms[i])]
      else Groups(ms[..i], cs)
  {
  }

  /** One step of the `collect_legends` loop, in terms of the prefix already visited. */
  lemma CollectStep<H>(ms: seq<nat>, cs: map<nat, Canvas<H>>, i: nat)
    requires i < |ms|
    ensures var a := Collected(ms[..i], cs);
      var b := Collected(ms[..i + 1], cs);
      var es := EntriesAt(cs, ms[i]);
      && b.handles == a.handles + HandlesOf(es)
      && b.labels == a.labels + LabelsOf(es)
      && b.unique == a.unique + LabelSet(es)
      && b.groups == if Labelled(cs, ms[i]) then a.groups[i := Group(es, ms[i])] else a.groups
  {
    var p := Flat(ms[..i], cs);
    var es := EntriesAt(cs, ms[i]);
    FlatStep(ms, cs, i);
    GroupsStep(ms, cs, i);
    LabelSetAppend(p, es);
    PairsAppend(p, es);
  }

  lemma PairsAppend<H>(a: seq<Entry<H>>, b: seq<Entry<H>>)
    ensures HandlesOf(a + b) == HandlesOf(a) + HandlesOf(b)
    ensures LabelsOf(a + b) == LabelsOf(a) + LabelsOf(b)
  {
    assert HandlesOf(a + b) == HandlesOf(a) + HandlesOf(b);
    assert LabelsOf(a + b) == LabelsOf(a) + LabelsOf(b);
  }

  lemma {:induction false} FlatEmpty<H>(ms: seq<nat>, cs: map<nat, Canvas<H>>)
    decreases |ms|
    ensures Flat(ms, cs) == [] <==> forall k :: 0 <= k < |ms| ==> !Labelled(cs, ms[k])
  {
    if ms != [] {
      var p := ms[..|ms| - 1];
      FlatEmpty(p, cs);
      assert forall k :: 0 <= k < |p| ==> p[k] == ms[k];
    }
  }

  /** Every label of a registered panel is in the flat list. */
  lemma {:induction false} FlatCovers<H>(ms: seq<nat>, cs: map<nat, Canvas<H>>, k: nat)
    requires k < |ms|
    decreases |ms|
    ensures LabelSet(EntriesAt(cs, ms[k])) <= LabelSet(Flat(ms, cs))
  {
    var p := ms[..|ms| - 1];
    LabelSetAppend(Flat(p, cs), EntriesAt(cs, ms[|ms| - 1]));
    if k < |ms| - 1 {
      FlatCovers(p, cs, k);
    }
  }

  /** `unique_labels` is exactly the union of the labels of the `mortise_legends` groups. */
  lemma {:induction false} UniqueIsUnionOfGroups<H>(ms: seq<nat>, cs: map<nat, Canvas<H>>, l: string)
    decreases |ms|
    ensures l in LabelSet(Flat(ms, cs)) <==>
      exists k :: k in Groups(ms, cs) && l in LabelSet(Groups(ms, cs)[k].entries)
  {
    if ms != [] {
      var n := |ms| - 1;
      var p := ms[..n];
      UniqueIsUnionOfGroups(p, cs, l);
      LabelSetAppend(Flat(p, cs), EntriesAt(cs, ms[n]));
      GroupsStep(ms, cs, n);
      assert ms[..n + 1] == ms;
      UnionStep(Groups(p, cs), Groups(ms, cs), n, ms[n], EntriesAt(cs, ms[n]), l);
    }
  }

  lemma UnionStep<H>(g0: map<nat, Group<H>>, g: map<nat, Group<H>>, n: nat, m: nat, es: seq<Entry<H>>, l: string)
    requires forall k :: k in g0 ==> k < n
    requires if es != [] then g == g0[n := Group(es, m)] else g == g0
    ensures (exists k :: k in g && l in LabelSet(g[k].entries)) <==>
      (exists k :: k in g0 && l in LabelSet(g0[k].entries)) || l in LabelSet(es)
  {
    if l in LabelSet(es) {
      assert es != [];
      assert n in g;
    }
    if exists k :: k in g0 && l in LabelSet(g0[k].entries) {
      var k :| k in g0 && l in LabelSet(g0[k].entries);
      assert k in g && g[k] == g0[k];
    }
  }

  // ----- create_global_legend -----

  function Min(a: int, b: int): int {
    if a <= b then a else b
  }

  /** `ncol` when given, else `min(len(by_label), 4)`. */
  function ColumnsFor<H>(d: ByLabel<H>, ncol: Option<int>): int {
    match ncol
    case Some(n) => n
    case None => Min(|d.keys|, 4)
  }

  /** The figure legend `create_global_legend(position, ncol)` creates, or None when nothing is labelled. */
  function GlobalFor<H>(ms: seq<nat>, cs: map<nat, Canvas<H>>, position: string, ncol: Option<int>): Option<GlobalLegend<H>> {
    var info := Collected(ms, cs);
    if info.handles == [] then None
    else
      var d := DictZip(Zip(info.labels, info.handles));
      Some(GlobalLegend(d.values, d.keys, position, ColumnsFor(d, ncol)))
  }

  /**
   * The global legend exists exactly when some registered panel is labelled; it has one entry per
   * distinct label, in first-occurrence order, each with the handle of the label's last occurrence,
   * and the given `ncol` or by default `min(distinct, 4)` columns.
   */
  lemma GlobalLegendSpec<H>(ms: seq<nat>, cs: map<nat, Canvas<H>>, position: string, ncol: Option<int>)
    ensures var g := GlobalFor(ms, cs, position, ncol);
      var es := Flat(ms, cs);
      && (g.None? <==> forall k :: 0 <= k < |ms| ==> !Labelled(cs, ms[k]))
      && (g.Some? ==>
            && g.value.loc == position
            && |g.value.handles| == |g.value.labels|
            && Distinct(g.value.labels)
            && (forall l :: l in g.value.labels <==> l in LabelSet(es))
            && (forall k :: 0 <= k < |g.value.labels| ==>
                  g.value.labels[k] in LabelSet(es) && g.value.handles[k] == LastHandle(es, g.value.labels[k]))
            && (forall a, b :: 0 <= a < b < |g.value.labels| ==>
                  g.value.labels[a] in LabelsOf(es) && g.value.labels[b] in LabelsOf(es) &&
                  IndexOf(LabelsOf(es), g.value.labels[a]) < IndexOf(LabelsOf(es), g.value.labels[b]))
            && (ncol.Some? ==> g.value.ncol == ncol.value)
            && (ncol.None? ==> g.value.ncol == Min(|g.value.labels|, 4) && 1 <= g.value.ncol <= 4))
  {
    var es := Flat(ms, cs);
    FlatEmpty(ms, cs);
    if es != [] {
      ZipUnzip(es);
      DictZipKeys(es);
      DictZipValues(es);
      DictZipOrder(es);
      var d := DictZip(es);
      var g := GlobalFor(ms, cs, position, ncol);
      assert g == Some(GlobalLegend(d.values, d.keys, position, ColumnsFor(d, ncol)));
      assert g.value.labels == d.keys && g.value.handles == d.values;
      assert es[0].caption in LabelSet(es) by {
        LabelSetMembers(es, es[0].caption);
      }
    }
  }

  // ----- create_local_legends -----

  /** `positions.get(name, 'upper right')`; an empty mapping stands for `positions=None`. */
  function PositionFor(positions: map<nat, string>, k: nat): string {
    if k in positions then positions[k] else "upper right"
  }

  /** The legends `create_local_legends` returns, keyed like `collect_legends`' groups. */
  function LocalsFor<H>(ms: seq<nat>, cs: map<nat, Canvas<H>>, positions: map<nat, string>): map<nat, LocalLegend<H>> {
    map k: nat | k < |ms| && Labelled(cs, ms[k]) :: LocalLegend(cs[ms[k]].entries, PositionFor(positions, k))
  }

  /** The canvases after `create_local_legends`: each labelled registered panel shows the legend of its last registration. */
  function AfterLocals<H>(ms: seq<nat>, cs: map<nat, Canvas<H>>, positions: map<nat, string>): map<nat, Canvas<H>>
    decreases |ms|
  {
    if ms == [] then cs
    else
      var c := AfterLocals(ms[..|ms| - 1], cs, positions);
      var k := |ms| - 1;
      var m := ms[k];
      if Labelled(cs, m) && m in c then c[m := c[m].(legend := Some(LocalLegend(cs[m].entries, PositionFor(positions, k))))]
      else c
  }

  /** Placing local legends keeps every canvas and its entries, and only touches registered labelled panels. */
  lemma {:induction false} AfterLocalsFrame<H>(ms: seq<nat>, cs: map<nat, Canvas<H>>, positions: map<nat, string>)
    decreases |ms|
    ensures var c := AfterLocals(ms, cs, positions);
      && c.Keys == cs.Keys
      && (forall m :: m in cs ==> c[m].entries == cs[m].entries)
      && (forall m :: m in cs && (m !in ms || !Labelled(cs, m)) ==> c[m] == cs[m])
      && (forall k :: 0 <= k < |ms| && Labelled(cs, ms[k]) ==>
            c[ms[k]].legend.Some? && c[ms[k]].legend.value.entries == cs[ms[k]].entries)
  {
    if ms != [] {
      var n := |ms| - 1;
      var p := ms[..n];
      AfterLocalsFrame(p, cs, positions);
      var c0 := AfterLocals(p, cs, positions);
      var c := AfterLocals(ms, cs, positions);
      var last := ms[n];
      assert c == if Labelled(cs, last) && last in c0
        then c0[last := c0[last].(legend := Some(LocalLegend(cs[last].entries, PositionFor(positions, n))))]
        else c0;
      assert forall m :: m in ms && m != last ==> m in p;
      forall k | 0 <= k < |ms| && Labelled(cs, ms[k])
        ensures c[ms[k]].legend.Some? && c[ms[k]].legend.value.entries == cs[ms[k]].entries
      {
        if k < n {
          assert p[k] == ms[k];
        }
      }
    }
  }

  lemma AfterLocalsStep<H>(ms: seq<nat>, cs: map<nat, Canvas<H>>, positions: map<nat, string>, i: nat)
    requires i < |ms|
    ensures var c := AfterLocals(ms[..i], cs, positions);
      var m := ms[i];
      AfterLocals(ms[..i + 1], cs, positions) ==
        if Labelled(cs, m) && m in c then c[m := c[m].(legend := Some(LocalLegend(cs[m].entries, PositionFor(positions, i))))]
        else c
  {
    assert ms[..i + 1][..i] == ms[..i];
  }

  lemma LocalsStep<H>(ms: seq<nat>, cs: map<nat, Canvas<H>>, positions: map<nat, string>, i: nat)
    requires i < |ms|
    ensures LocalsFor(ms[..i + 1], cs, positions) ==
      if Labelled(cs, ms[i]) then LocalsFor(ms[..i], cs, positions)[i := LocalLegend(cs[ms[i]].entries, PositionFor(positions, i))]
      else LocalsFor(ms[..i], cs, positions)
  {
  }

  /** Local legends have the same keys as the groups of `collect_legends`. */
  lemma LocalKeysAreGroupKeys<H>(ms: seq<nat>, cs: map<nat, Canvas<H>>, positions: map<nat, string>)
    ensures LocalsFor(ms, cs, positions).Keys == Groups(ms, cs).Keys
    ensures forall k :: k in LocalsFor(ms, cs, positions) ==>
      LocalsFor(ms, cs, positions)[k].entries == Groups(ms, cs)[k].entries &&
      LocalsFor(ms, cs, positions)[k].loc == PositionFor(positions, k)
  {
  }

  /** In mixed mode no label shown locally is removed from the global legend. */
  lemma MixedKeepsLocalLabels<H>(ms: seq<nat>, cs: map<nat, Canvas<H>>, position: string, ncol: Option<int>,
                                 positions: map<nat, string>, k: nat, l: string)
    requires k in LocalsFor(ms, cs, positions) && l in LabelSet(LocalsFor(ms, cs, positions)[k].entries)
    ensures GlobalFor(ms, cs, position, ncol).Some?
    ensures l in GlobalFor(ms, cs, position, ncol).value.labels
  {
    GlobalLegendSpec(ms, cs, position, ncol);
    FlatCovers(ms, cs, k);
  }

  // ----- auto_layout_legends -----

  datatype Mode = GlobalMode | LocalMode | MixedMode

  /** The three explicit mode names; anything else is an unknown mode. */
  function ParseMode(mode: string): (r: Option<Mode>)
    ensures r.Some? <==> (mode == "global" || mode == "local" || mode == "mixed")
  {
    if mode == "global" then Some(GlobalMode)
    else if mode == "local" then Some(LocalMode)
    else if mode == "mixed" then Some(MixedMode)
    else None
  }

  /** The threshold cascade of auto mode over the unique-label count and the registered-panel count. */
  function ChooseMode(unique: nat, count: nat): (m: Mode)
    ensures m == GlobalMode <==> unique <= 3 && count <= 2
    ensures m == LocalMode <==> !(unique <= 3 && count <= 2) && (unique > 6 || count > 4)
    ensures m == MixedMode <==> !(unique <= 3 && count <= 2) && unique <= 6 && count <= 4
  {
    if unique <= 3 && count <= 2 then GlobalMode
    else if unique > 6 || count > 4 then LocalMode
    else MixedMode
  }

  function Rank(m: Mode): nat {
    match m
    case GlobalMode => 0
    case MixedMode => 1
    case LocalMode => 2
  }

  /** More labels or more panels never move auto mode back from local towards global. */
  lemma ChooseModeMonotone(u1: nat, c1: nat, u2: nat, c2: nat)
    requires u1 <= u2 && c1 <= c2
    ensures Rank(ChooseMode(u1, c1)) <= Rank(ChooseMode(u2, c2))
  {
  }

  /** The boundary cases 3/2, 4/2, 6/4 and 7/4. */
  lemma ChooseModeBoundaries()
    ensures ChooseMode(3, 2) == GlobalMode && ChooseMode(4, 2) == MixedMode
    ensures ChooseMode(6, 4) == MixedMode && ChooseMode(7, 4) == LocalMode
    ensures ChooseMode(3, 3) == MixedMode && ChooseMode(0, 5) == LocalMode
  {
  }

  // ----- clear_all_legends -----

  /** The canvases after `clear_all_legends`: registered panels show no legend, the rest is untouched. */
  function Cleared<H>(ms: seq<nat>, cs: map<nat, Canvas<H>>): (r: map<nat, Canvas<H>>)
    ensures r.Keys == cs.Keys
  {
    map m | m in cs :: if m in ms then cs[m].(legend := None) else cs[m]
  }

  /** Clearing twice is the same as clearing once, and clearing never drops drawn entries. */
  lemma ClearedIdempotent<H>(ms: seq<nat>, cs: map<nat, Canvas<H>>)
    ensures Cleared(ms, Cleared(ms, cs)) == Cleared(ms, cs)
    ensures forall m :: m in cs ==> Cleared(ms, cs)[m].entries == cs[m].entries
    ensures forall m :: m in ms && m in cs ==> Cleared(ms, cs)[m].legend.None?
  {
  }

  // ----- LegendPosition -----

  /** `LegendPosition.POSITIONS`. */
  const Positions: map<string, (real, real)> := map[
    "top_left" := (0.02, 0.98),
    "top_center" := (0.5, 0.98),
    "top_right" := (0.98, 0.98),
    "center_left" := (0.02, 0.5),
    "center" := (0.5, 0.5),
    "center_right" := (0.98, 0.5),
    "bottom_left" := (0.02, 0.02),
    "bottom_center" := (0.5, 0.02),
    "bottom_right" := (0.98, 0.02),
    "outside_top" := (0.5, 1.05),
    "outside_bottom" := (0.5, -0.05),
    "outside_left" := (-0.05, 0.5),
    "outside_right" := (1.05, 0.5)
  ]

  /** `get_position`: the table entry, or `(0.98, 0.98)` for an unknown name. */
  function GetPosition(name: string): (p: (real, real))
    ensures name in Positions ==> p == Positions[name]
    ensures name !in Positions ==> p == (0.98, 0.98)
  {
    if name in Positions then Positions[name] else (0.98, 0.98)
  }

  /** An unknown name falls back to the coordinates of `top_right`. */
  lemma UnknownPositionIsTopRight(name: string)
    requires name !in Positions
    ensures GetPosition(name) == GetPosition("top_right")
  {
  }

  /** The entries of `LegendPosition.POSITIONS` that anchor a legend beyond the axes. */
  const OutsideNames: set<string> := {"outside_top", "outside_bottom", "outside_left", "outside_right"}

  /**
   * Every name `get_position` answers lies strictly inside the unit square of axes coordinates,
   * except the four `outside_*` names, which lie strictly beyond one of its edges.
   */
  lemma PositionPlacement(name: string)
    ensures var p := GetPosition(name);
      name !in OutsideNames <==> (0.0 < p.0 < 1.0 && 0.0 < p.1 < 1.0)
  {
  }

  /** The panels with a position, in order (`if mortise.position`). */
  function Positioned(ps: seq<Option<Rect>>): (r: seq<Rect>)
    ensures |r| <= |ps|
    ensures (r == []) <==> forall i :: 0 <= i < |ps| ==> ps[i].None?
    decreases |ps|
  {
    if ps == [] then []
    else if ps[0].Some? then [ps[0].value] + Positioned(ps[1..])
    else Positioned(ps[1..])
  }

  function SumCentreX(rs: seq<Rect>): real {
    if rs == [] then 0.0 else (rs[0].x + rs[0].w / 2.0) + SumCentreX(rs[1..])
  }

  function SumCentreY(rs: seq<Rect>): real {
    if rs == [] then 0.0 else (rs[0].y + rs[0].h / 2.0) + SumCentreY(rs[1..])
  }

  /** The centre-y then centre-x cascade of `calculate_optimal_position`. */
  function Cascade(cx: real, cy: real): string {
    if cy > 0.7 then "bottom_center"
    else if cy < 0.3 then "top_center"
    else if cx > 0.7 then "outside_left"
    else if cx < 0.3 then "outside_right"
    else "outside_top"
  }

  /**
   * `calculate_optimal_position`: `top_right` without positioned panels, else the cascade on the
   * mean centre of the positioned panels. The legend size is not used by the source either.
   */
  function OptimalPosition(ps: seq<Option<Rect>>, legendSize: (real, real)): (r: string)
    ensures r in Positions
    ensures (forall i :: 0 <= i < |ps| ==> ps[i].None?) ==> r == "top_right"
    ensures (exists i :: 0 <= i < |ps| && ps[i].Some?) ==>
      var rs := Positioned(ps);
      r == Cascade(SumCentreX(rs) / (|rs| as real), SumCentreY(rs) / (|rs| as real))
  {
    if ps == [] then "top_right"
    else
      var rs := Positioned(ps);
      if rs == [] then "top_right"
      else Cascade(SumCentreX(rs) / (|rs| as real), SumCentreY(rs) / (|rs| as real))
  }

  /** Panels whose centres are all high put the legend at the bottom centre. */
  lemma HighPanelsPutLegendBelow(ps: seq<Option<Rect>>, legendSize: (real, real))
    requires forall i :: 0 <= i < |ps| ==> ps[i].Some? && ps[i].value.y + ps[i].value.h / 2.0 > 0.7
    requires |ps| > 0
    ensures OptimalPosition(ps, legendSize) == "bottom_center"
  {
    var rs := Positioned(ps);
    PositionedAll(ps);
    CentreYAbove(rs, 0.7);
  }

  lemma {:induction false} PositionedAll(ps: seq<Option<Rect>>)
    requires forall i :: 0 <= i < |ps| ==> ps[i].Some?
    ensures |Positioned(ps)| == |ps|
    ensures forall i :: 0 <= i < |ps| ==> Positioned(ps)[i] == ps[i].value
    decreases |ps|
  {
    if ps != [] {
      PositionedAll(ps[1..]);
    }
  }

  lemma {:induction false} CentreYAbove(rs: seq<Rect>, t: real)
    requires forall i :: 0 <= i < |rs| ==> rs[i].y + rs[i].h / 2.0 > t
    requires |rs| > 0
    ensures SumCentreY(rs) / (|rs| as real) > t
    decreases |rs|
  {
    if |rs| == 1 {
      assert SumCentreY(rs) == rs[0].y + rs[0].h / 2.0 + SumCentreY(rs[1..]);
    } else {
      CentreYAbove(rs[1..], t);
      var n := |rs| as real;
      assert SumCentreY(rs[1..]) > t * (n - 1.0);
      assert SumCentreY(rs) > t * n;
    }
  }
}
