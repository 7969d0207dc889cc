/**
 * `LegendManager`: the registered panels and the figure legend, with the methods that read
 * the panels' canvases and place legends on them. The canvases of the rendered panels are
 * passed in as a map from panel id to `Canvas` and, where a method places or removes legends,
 * returned updated.
 */
module Legends {
  import opened Outcomes
  import opened LegendInfo

  /** What `auto_layout_legends` hands back, by the mode it ran. */
  datatype Output<H> =
    | GlobalOut(global: Option<GlobalLegend<H>>)
    | LocalOut(locals: map<nat, LocalLegend<H>>)
    | MixedOut(global: Option<GlobalLegend<H>>, locals: map<nat, LocalLegend<H>>)

  datatype LegendError = UnknownMode(mode: string)

  class LegendManager<H> {
    /** The registered panels, by id, in registration order. */
    var mortises: seq<nat>
    /** The figure legend this manager created last, if any. */
    var globalLegend: Option<GlobalLegend<H>>

    constructor ()
      ensures mortises == [] && globalLegend == None
    {
      mortises := [];
      globalLegend := None;
    }

    /** Registers one more panel. */
    method AddMortise(m: nat)
      modifies this
      ensures mortises == old(mortises) + [m]
      ensures globalLegend == old(globalLegend)
    {
      mortises := mortises + [m];
    }

    /** The loop of `collect_legends`. */
    method CollectLegends(cs: map<nat, Canvas<H>>) returns (info: Info<H>)
      ensures info == Collected(mortises, cs)
    {
      var handles: seq<H> := [];
      var labels: seq<string> := [];
      var groups: map<nat, Group<H>> := map[];
      var unique: set<string> := {};
      var i := 0;
      while i < |mortises|
        invariant 0 <= i <= |mortises|
        invariant Info(handles, labels, groups, unique) == Collected(mortises[..i], cs)
      {
        var m := mortises[i];
        CollectStep(mortises, cs, i);
        if m in cs {
          var es := cs[m].entries;
          if es != [] {
            handles := handles + HandlesOf(es);
            labels := labels + LabelsOf(es);
            groups := groups[i := Group(es, m)];
            unique := unique + LabelSet(es);
          }
        }
        i := i + 1;
      }
      assert mortises[..i] == mortises;
      info := Info(handles, labels, groups, unique);
    }

    /** `create_global_legend`: deduplicate the collected pairs and show them as the figure legend. */
    method CreateGlobalLegend(position: string, ncol: Option<int>, cs: map<nat, Canvas<H>>)
      returns (r: Option<GlobalLegend<H>>)
      modifies this
      ensures mortises == old(mortises)
      ensures r == GlobalFor(mortises, cs, position, ncol)
      ensures globalLegend == if r.None? then old(globalLegend) else r
    {
      var info := CollectLegends(cs);
      if info.handles == [] {
        return None;
      }
      var d := DictZip(Zip(info.labels, info.handles));
      var columns := ncol.GetOr(Min(|d.keys|, 4));
      r := Some(GlobalLegend(d.values, d.keys, position, columns));
      globalLegend := r;
    }

    /** The loop of `create_local_legends`: one legend per labelled registered panel. */
    method CreateLocalLegends(positions: map<nat, string>, cs: map<nat, Canvas<H>>)
      returns (locals: map<nat, LocalLegend<H>>, cs': map<nat, Canvas<H>>)
      ensures locals == LocalsFor(mortises, cs, positions)
      ensures cs' == AfterLocals(mortises, cs, positions)
    {
      locals := map[];
      cs' := cs;
      var i := 0;
      while i < |mortises|
        invariant 0 <= i <= |mortises|
        invariant locals == LocalsFor(mortises[..i], cs, positions)
        invariant cs' == AfterLocals(mortises[..i], cs, positions)
      {
        var m := mortises[i];
        AfterLocalsFrame(mortises[..i], cs, positions);
        AfterLocalsStep(mortises, cs, positions, i);
        LocalsStep(mortises, cs, positions, i);
        if m in cs' {
          var es := cs'[m].entries;
          assert es == cs[m].entries;
          if es != [] {
            var legend := LocalLegend(es, PositionFor(positions, i));
            cs' := cs'[m := cs'[m].(legend := Some(legend))];
            locals := locals[i := legend];
          }
        }
        i := i + 1;
      }
      assert mortises[..i] == mortises;
    }

    /** `create_mixed_legends`: the global legend, then the local legends. */
    method CreateMixedLegends(position: string, positions: map<nat, string>, ncol: Option<int>,
                              cs: map<nat, Canvas<H>>)
      returns (g: Option<GlobalLegend<H>>, locals: map<nat, LocalLegend<H>>, cs': map<nat, Canvas<H>>)
      modifies this
      ensures mortises == old(mortises)
      ensures g == GlobalFor(mortises, cs, position, ncol)
      ensures globalLegend == if g.None? then old(globalLegend) else g
      ensures locals == LocalsFor(mortises, cs, positions)
      ensures cs' == AfterLocals(mortises, cs, positions)
    {
      g := CreateGlobalLegend(position, ncol, cs);
      locals, cs' := CreateLocalLegends(positions, cs);
    }

    /** The mode `auto_layout_legends(mode)` runs, or None for an unknown mode. */
    ghost function ModeFor(mode: string, cs: map<nat, Canvas<H>>): Option<Mode>
      reads this
    {
      if mode == "auto" then Some(ChooseMode(|Collected(mortises, cs).unique|, |mortises|))
      else ParseMode(mode)
    }

    /**
     * `auto_layout_legends(mode)` with the default arguments of the mode it runs: the global
     * legend at 'upper center' with default columns, local legends at 'upper right'.
     */
    method AutoLayoutLegends(mode: string, cs: map<nat, Canvas<H>>)
      returns (r: Result<Output<H>, LegendError>, cs': map<nat, Canvas<H>>)
      modifies this
      ensures mortises == old(mortises)
      ensures old(ModeFor(mode, cs)).None? <==> r.Err?
      ensures r.Err? ==> r.error == UnknownMode(mode) && cs' == cs && globalLegend == old(globalLegend)
      ensures old(ModeFor(mode, cs)) == Some(GlobalMode) ==>
        var g := GlobalFor(mortises, cs, "upper center", None);
        r == Ok(GlobalOut(g)) && cs' == cs && globalLegend == if g.None? then old(globalLegend) else g
      ensures old(ModeFor(mode, cs)) == Some(LocalMode) ==>
        r == Ok(LocalOut(LocalsFor(mortises, cs, map[]))) && cs' == AfterLocals(mortises, cs, map[]) &&
        globalLegend == old(globalLegend)
      ensures old(ModeFor(mode, cs)) == Some(MixedMode) ==>
        var g := GlobalFor(mortises, cs, "upper center", None);
        r == Ok(MixedOut(g, LocalsFor(mortises, cs, map[]))) && cs' == AfterLocals(mortises, cs, map[]) &&
        globalLegend == if g.None? then old(globalLegend) else g
    {
      var chosen := ParseMode(mode);
      if mode == "auto" {
        var info := CollectLegends(cs);
        chosen := Some(ChooseMode(|info.unique|, |mortises|));
      }
      cs' := cs;
      match chosen {
        case None =>
          r := Err(UnknownMode(mode));
        case Some(GlobalMode) =>
          var g := CreateGlobalLegend("upper center", None, cs);
          r := Ok(GlobalOut(g));
        case Some(LocalMode) =>
          var locals;
          locals, cs' := CreateLocalLegends(map[], cs);
          r := Ok(LocalOut(locals));
        case Some(MixedMode) =>
          var g, locals;
          g, locals, cs' := CreateMixedLegends("upper center", map[], None, cs);
          r := Ok(MixedOut(g, locals));
      }
    }

    /** `clear_all_legends`: drop the figure legend and every registered panel's legend. */
    method ClearAllLegends(cs: map<nat, Canvas<H>>) returns (cs': map<nat, Canvas<H>>)
      modifies this
      ensures mortises == old(mortises)
      ensures globalLegend == None
      ensures cs' == Cleared(mortises, cs)
    {
      if globalLegend.Some? {
        globalLegend := None;
      }
      cs' := cs;
      var i := 0;
      while i < |mortises|
        invariant 0 <= i <= |mortises|
        invariant cs'.Keys == cs.Keys
        invariant forall m :: m in cs ==> cs'[m] == if m in mortises[..i] then cs[m].(legend := None) else cs[m]
      {
        var m := mortises[i];
        assert forall n :: n in mortises[..i + 1] <==> n in mortises[..i] || n == m;
        if m in cs' && cs'[m].legend.Some? {
          cs' := cs'[m := cs'[m].(legend := None)];
        }
        i := i + 1;
      }
      assert mortises[..i] == mortises;
    }
  }
}
