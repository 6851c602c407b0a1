/** The mock source itself: Deploy and DeleteDeploy with their loops, proved equal to the
    functions of AllocatorSpec.  Both hold one lock throughout, so a call is one step. */
module AllocatorSource {
  import opened Wrappers
  import opened AllocatorSpec
  import opened AllocatorRuns
  import opened AllocatorUndo
  import Text

  /** A write through a pointer into the cache. */
  function Write(npus: seq<Option<Npu>>, p: Pos, status: string, to: Option<Allocation>): seq<Option<Npu>>
    requires Has(npus, p)
  {
    var npu := npus[p.npu].value;
    var after := npu.slices[p.slice].(status := status, allocatedTo := to);
    npus[p.npu := Some(npu.(slices := npu.slices[p.slice := after]))]
  }

  /** With unique ids a write through a pointer touches exactly the slice of that id. */
  lemma WriteIsTouch(npus: seq<Option<Npu>>, p: Pos, status: string, to: Option<Allocation>)
    requires Unique(npus) && Has(npus, p)
    ensures Write(npus, p, status, to) == Touch(npus, {SliceAt(npus, p).id}, status, to)
  {
    var t := Touch(npus, {SliceAt(npus, p).id}, status, to);
    var w := Write(npus, p, status, to);
    TouchAt(npus, {SliceAt(npus, p).id}, status, to);
    forall i: nat ensures Width(w, i) == Width(npus, i) {
    }
    forall q | Has(w, q) ensures Has(npus, q) && SliceAt(w, q) == if q == p then SliceAt(t, q) else SliceAt(npus, q) {
      assert Width(w, q.npu) == Width(npus, q.npu);
    }
    forall q | Has(w, q) && Has(t, q) ensures SliceAt(w, q) == SliceAt(t, q) {
    }
    ShapeTransitive(w, npus, t);
    SameCache(w, t);
  }

  lemma TouchMore(npus: seq<Option<Npu>>, ids: set<string>, more: set<string>, status: string, to: Option<Allocation>)
    ensures Touch(Touch(npus, ids, status, to), more, status, to) == Touch(npus, ids + more, status, to)
  {
    var a, b := Touch(Touch(npus, ids, status, to), more, status, to), Touch(npus, ids + more, status, to);
    TouchAt(npus, ids, status, to);
    TouchAt(Touch(npus, ids, status, to), more, status, to);
    TouchAt(npus, ids + more, status, to);
    ShapeTransitive(npus, Touch(npus, ids, status, to), a);
    ShapeFacts(npus, a);
    ShapeTransitive(a, npus, b);
    SameCache(a, b);
  }

  lemma TouchNothing(npus: seq<Option<Npu>>, ids: set<string>, status: string, to: Option<Allocation>)
    requires forall id :: id in ids ==> !Known(npus, id)
    ensures Touch(npus, ids, status, to) == npus
  {
    TouchAt(npus, ids, status, to);
    SameCache(npus, Touch(npus, ids, status, to));
  }

  class Source {
    const presets: seq<Option<Preset>>
    var npus: seq<Option<Npu>>
    var workloads: seq<Workload>
    var deployCounter: nat
    var deployIndex: map<string, string>

    ghost function Abs(): State
      reads this
    {
      State(npus, workloads, deployCounter, deployIndex)
    }

    /** The fixture's promise, which every call keeps. */
    ghost predicate Valid()
      reads this
    {
      Unique(npus)
    }

    constructor (presets: seq<Option<Preset>>, npus: seq<Option<Npu>>, workloads: seq<Workload>)
      requires Unique(npus)
      ensures Valid() && Loaded(Abs()) && Abs() == State(npus, workloads, 0, map[]) && this.presets == presets
    {
      this.presets, this.npus, this.workloads := presets, npus, workloads;
      this.deployCounter, this.deployIndex := 0, map[];
    }

    method LookupPreset(id: string) returns (preset: Option<Preset>)
      ensures preset == FindPreset(presets, id)
    {
      preset := None;
      for k := 0 to |presets|
        invariant FindPreset(presets, id) == FindPreset(presets[k..], id)
      {
        if presets[k].Some? && presets[k].value.id == id {
          return presets[k];
        }
        assert presets[k..][1..] == presets[k + 1..];
      }
    }

    /** Slice id to position, over the whole cache. */
    method BuildIndex() returns (idx: map<string, Pos>)
      requires Valid()
      ensures forall id :: id in idx <==> Known(npus, id)
      ensures forall id :: id in idx ==> Known(npus, id) && idx[id] == PosOf(npus, id)
    {
      idx := map[];
      for i := 0 to |npus|
        invariant forall id :: id in idx ==> Has(npus, idx[id]) && SliceAt(npus, idx[id]).id == id
        invariant forall p :: Has(npus, p) && p.npu < i ==> SliceAt(npus, p).id in idx
      {
        if npus[i].Some? {
          var slices := npus[i].value.slices;
          for j := 0 to |slices|
            invariant forall id :: id in idx ==> Has(npus, idx[id]) && SliceAt(npus, idx[id]).id == id
            invariant forall p :: Has(npus, p) && (p.npu < i || (p.npu == i && p.slice < j)) ==>
                SliceAt(npus, p).id in idx
          {
            assert SliceAt(npus, Pos(i, j)) == slices[j];
            idx := idx[slices[j].id := Pos(i, j)];
          }
        }
      }
      forall id | id in idx ensures Known(npus, id) && idx[id] == PosOf(npus, id) {
      }
      forall id | Known(npus, id) ensures id in idx {
        assert Has(npus, PosOf(npus, id));
      }
    }

    /** One placement entry: its ids are taken left to right, after those of `before`. */
    method PickEntry(idx: map<string, Pos>, ids: seq<string>, seen: set<string>, picked: seq<Pos>,
                     ghost before: seq<string>)
      returns (e: Option<Error>, seen': set<string>, picked': seq<Pos>)
      requires forall id :: id in idx <==> Known(npus, id)
      requires forall id :: id in idx ==> Known(npus, id) && idx[id] == PosOf(npus, id)
      requires seen == ToSet(before) && ManualPick(npus, before) == Ok(picked)
      ensures ManualPick(npus, before + ids) == if e.Some? then Err(e.value) else Ok(picked')
      ensures e.None? ==> seen' == ToSet(before + ids)
    {
      seen', picked' := seen, picked;
      assert before + ids[..0] == before;
      for q := 0 to |ids|
        invariant seen' == ToSet(before + ids[..q])
        invariant ManualPick(npus, before + ids[..q]) == Ok(picked')
      {
        var id := ids[q];
        ghost var sofar := before + ids[..q];
        NextId(before, ids, q);
        e := if id in seen' || id !in idx then Some(InvalidRequest)
             else if SliceAt(npus, idx[id]).status != "available" then Some(SliceConflict)
             else None;
        assert e == CheckOne(npus, sofar, id);
        if e.Some? {
          ManualStops(npus, sofar + [id], ids[q + 1..]);
          return e, seen', picked';
        }
        seen', picked' := seen' + {id}, picked' + [idx[id]];
      }
      assert ids[..|ids|] == ids;
      e := None;
    }

    method PickManual(placement: seq<seq<string>>) returns (r: Result<seq<Pos>, Error>)
      requires Valid()
      ensures r == ManualPick(npus, Flatten(placement))
    {
      var idx := BuildIndex();
      var picked: seq<Pos> := [];
      var seen: set<string> := {};
      for p := 0 to |placement|
        invariant seen == ToSet(Flatten(placement[..p]))
        invariant ManualPick(npus, Flatten(placement[..p])) == Ok(picked)
      {
        var e: Option<Error>;
        assert placement[..p + 1][..p] == placement[..p];
        e, seen, picked := PickEntry(idx, placement[p], seen, picked, Flatten(placement[..p]));
        if e.Some? {
          FlattenCut(placement, p + 1);
          ManualStops(npus, Flatten(placement[..p + 1]), FlattenRest(placement[p + 1..]));
          return Err(e.value);
        }
      }
      assert placement[..|placement|] == placement;
      return Ok(picked);
    }

    method PickAuto(need: nat) returns (r: Result<seq<Pos>, Error>)
      requires need > 0
      ensures r == if |Free(npus)| < need then Err(InsufficientCapacity) else Ok(Free(npus)[..need])
    {
      var picked: seq<Pos> := [];
      for i := 0 to |npus|
        invariant picked == FreeBefore(npus, i, 0) && |picked| < need
      {
        if npus[i].Some? {
          var slices := npus[i].value.slices;
          for j := 0 to |slices|
            invariant picked == FreeBefore(npus, i, j) && |picked| < need
          {
            assert SliceAt(npus, Pos(i, j)) == slices[j];
            if slices[j].status == "available" {
              picked := picked + [Pos(i, j)];
              if |picked| == need {
                assert picked == FreeBefore(npus, i, j + 1);
                FreePrefix(npus, i, j + 1);
                assert Free(npus)[..need] == picked;
                return Ok(picked);
              }
            }
          }
        }
      }
      return Err(InsufficientCapacity);
    }

    method PickSlices(plan: Plan, scheduling: Option<Scheduling>) returns (r: Result<seq<Pos>, Error>)
      requires Valid()
      ensures r == Pick(npus, plan, scheduling)
    {
      if plan.need == 0 {
        return Err(InvalidRequest);
      }
      if plan.manual {
        if scheduling.None? || scheduling.value.manualPlacement == [] {
          return Err(InvalidRequest);
        }
        r := PickManual(scheduling.value.manualPlacement);
        if r.Ok? && |r.value| != plan.need {
          return Err(InvalidRequest);
        }
      } else {
        r := PickAuto(plan.need);
      }
    }

    /** Flips the picked slices to allocated. */
    method Mark(picked: seq<Pos>, to: Allocation)
      requires Valid() && AllIn(npus, picked)
      modifies this`npus
      ensures Valid()
      ensures npus == Touch(old(npus), ToSet(SliceIds(old(npus), picked)), "allocated", Some(to))
    {
      ghost var before := npus;
      TouchNothing(npus, {}, "allocated", Some(to));
      assert ToSet(SliceIds(before, picked[..0])) == {};
      for k := 0 to |picked|
        invariant npus == Touch(before, ToSet(SliceIds(before, picked[..k])), "allocated", Some(to))
      {
        ghost var done := ToSet(SliceIds(before, picked[..k]));
        ghost var id := SliceAt(before, picked[k]).id;
        LookupTouched(before, done, "allocated", Some(to));
        TouchAt(before, done, "allocated", Some(to));
        WriteIsTouch(npus, picked[k], "allocated", Some(to));
        TouchMore(before, done, {id}, "allocated", Some(to));
        assert SliceIds(before, picked[..k + 1]) == SliceIds(before, picked[..k]) + [id];
        assert ToSet(SliceIds(before, picked[..k + 1])) == done + {id};
        npus := Write(npus, picked[k], "allocated", Some(to));
      }
      assert picked[..|picked|] == picked;
      LookupTouched(before, ToSet(SliceIds(before, picked)), "allocated", Some(to));
    }

    /** Structural validation and preset lookup; nothing is touched. */
    method Validate(req: Option<DeployRequest>) returns (r: Result<Plan, Error>)
      ensures r == Check(presets, req)
    {
      if req.None? || Text.TrimSpace(req.value.presetId) == "" || Text.TrimSpace(req.value.namespace) == "" {
        return Err(InvalidRequest);
      }
      var replicas := if req.value.replicas == 0 then 1 else req.value.replicas;
      if replicas < 0 {
        return Err(InvalidRequest);
      }
      var mode := Mode(req.value);
      if mode != "auto" && mode != "manual" {
        return Err(InvalidRequest);
      }
      var preset := LookupPreset(req.value.presetId);
      if preset.None? {
        return Err(PresetNotFound);
      }
      return Ok(Plan(mode == "manual", Times(replicas, PerReplica(preset.value)), replicas, preset.value.kind));
    }

    /** The outcome and the whole new state are those of the specification. */
    method Deploy(req: Option<DeployRequest>) returns (r: Result<Response, Error>)
      requires Valid()
      modifies this
      ensures Valid()
      ensures (Abs(), r) == AllocatorSpec.Deploy(presets, old(Abs()), req)
    {
      ghost var before := Abs();
      var plan := Validate(req);
      if plan.Err? {
        return Err(plan.error);
      }
      var picked := PickSlices(plan.value, req.value.scheduling);
      if picked.Err? {
        return Err(picked.error);
      }
      PickedAreIn(presets, before, req);
      r := Create(req.value, plan.value, picked.value);
    }

    /** The mutating half of Deploy, once the slices are picked. */
    method Create(req: DeployRequest, plan: Plan, picked: seq<Pos>) returns (r: Result<Response, Error>)
      requires Valid() && AllIn(npus, picked)
      modifies this
      ensures Valid()
      ensures Abs() == Commit(old(Abs()), req, plan, picked)
      ensures r == Ok(Response(DeployId(old(deployCounter) + 1), EffectiveName(req, old(deployCounter) + 1),
          req.namespace,
                               Dedup(NodesOf(old(npus), picked))))
    {
      ghost var before := Abs();
      var nodes := CollectNodes(picked);
      deployCounter := deployCounter + 1;
      var workloadName := Text.TrimSpace(req.name);
      if workloadName == "" {
        workloadName := req.presetId + "-" + Text.Itoa(deployCounter);
      }
      assert workloadName == EffectiveName(req, before.counter + 1);
      var deployId := "d-" + Text.Itoa(deployCounter);
      var unique := DedupSorted(nodes);
      var wd := Workload(workloadName, req.namespace, WorkloadType(plan.kind), plan.replicas,
                         unique, Some(SliceIds(npus, picked)), deployId);
      assert wd == NewWorkload(before, req, plan, picked);
      Mark(picked, Owner(req.namespace, workloadName));
      workloads := workloads + [wd];
      deployIndex := deployIndex[deployId := Key(req.namespace, workloadName)];
      r := Ok(Response(deployId, workloadName, req.namespace, unique));
    }

    method CollectNodes(picked: seq<Pos>) returns (nodes: seq<string>)
      requires AllIn(npus, picked)
      ensures nodes == NodesOf(npus, picked)
    {
      nodes := [];
      for k := 0 to |picked|
        invariant nodes == NodesOf(npus, picked[..k])
      {
        assert picked[..k + 1][..k] == picked[..k];
        if NodeAt(npus, picked[k]) != "" {
          nodes := nodes + [NodeAt(npus, picked[k])];
        }
      }
      assert picked[..|picked|] == picked;
    }

    /** The first slice with that id. */
    method FindSlice(id: string) returns (p: Option<Pos>)
      requires Valid()
      ensures p.Some? <==> Known(npus, id)
      ensures p.Some? ==> Has(npus, p.value) && SliceAt(npus, p.value).id == id
    {
      for i := 0 to |npus|
        invariant forall q :: Has(npus, q) && q.npu < i ==> SliceAt(npus, q).id != id
      {
        if npus[i].Some? {
          var slices := npus[i].value.slices;
          for j := 0 to |slices|
            invariant forall q :: Has(npus, q) && (q.npu < i || (q.npu == i && q.slice < j)) ==>
                SliceAt(npus, q).id != id
          {
            assert SliceAt(npus, Pos(i, j)) == slices[j];
            if slices[j].id == id {
              return Some(Pos(i, j));
            }
          }
        }
      }
      return None;
    }

    /** Gives back the slices of a deleted workload; unknown ids are passed over. */
    method Release(ids: seq<string>)
      requires Valid()
      modifies this`npus
      ensures Valid()
      ensures npus == Touch(old(npus), ToSet(ids), "available", None)
    {
      ghost var before := npus;
      TouchNothing(npus, {}, "available", None);
      assert ToSet(ids[..0]) == {};
      for k := 0 to |ids|
        invariant npus == Touch(before, ToSet(ids[..k]), "available", None)
        invariant Valid()
      {
        ghost var done := ToSet(ids[..k]);
        LookupTouched(before, done, "available", None);
        TouchMore(before, done, {ids[k]}, "available", None);
        assert ToSet(ids[..k + 1]) == done + {ids[k]};
        var p := FindSlice(ids[k]);
        if p.Some? {
          WriteIsTouch(npus, p.value, "available", None);
          npus := Write(npus, p.value, "available", None);
        } else {
          TouchNothing(npus, {ids[k]}, "available", None);
        }
        LookupTouched(before, ToSet(ids[..k + 1]), "available", None);
      }
      assert ids[..|ids|] == ids;
    }

    /** The outcome and the whole new state are those of the specification. */
    method DeleteDeploy(id: string) returns (e: Option<Error>)
      requires Valid()
      modifies this
      ensures Valid()
      ensures (Abs(), e) == Delete(old(Abs()), id)
    {
      if Text.TrimSpace(id) == "" {
        return Some(InvalidRequest);
      }
      if id !in deployIndex {
        return Some(DeployNotFound);
      }
      var parts := SplitFirst(deployIndex[id]);
      if parts.None? {
        return Some(MalformedIndex);
      }
      var (namespace, name) := parts.value;
      DeleteUnfolds(Abs(), id, namespace, name);
      var i := 0;
      while i < |workloads| && !Named(workloads[i], namespace, name)
        invariant i <= |workloads|
        invariant forall j :: 0 <= j < i ==> !Named(workloads[j], namespace, name)
      {
        i := i + 1;
      }
      assert i == FindWorkload(workloads, namespace, name);
      if i < |workloads| {
        if workloads[i].usage.Some? {
          Release(workloads[i].usage.value);
        } else {
          TouchNothing(npus, {}, "available", None);
        }
        workloads := workloads[i := workloads[|workloads| - 1]];
        workloads := workloads[..|workloads| - 1];
        deployIndex := deployIndex - {id};
        return None;
      }
      deployIndex := deployIndex - {id};
      return Some(DeployNotFound);
    }
  }

  /** Keeps first occurrences, with a set of what was seen. */
  method DedupSorted(s: seq<string>) returns (r: seq<string>)
    ensures r == Dedup(s)
  {
    r := [];
    var seen: set<string> := {};
    for k := 0 to |s|
      invariant seen == ToSet(s[..k]) && r == Dedup(s[..k])
    {
      assert s[..k + 1][..k] == s[..k];
      if s[k] !in seen {
        seen := seen + {s[k]};
        r := r + [s[k]];
      }
    }
    assert s[..|s|] == s;
  }

  // ---------------------------------------------------------------- lemmas for the methods

  /** `Flatten`, from the left. */
  ghost function FlattenRest(placement: seq<seq<string>>): seq<string> {
    if placement == [] then [] else placement[0] + FlattenRest(placement[1..])
  }

  lemma {:induction false} FlattenCut(placement: seq<seq<string>>, p: nat)
    requires p <= |placement|
    ensures Flatten(placement) == Flatten(placement[..p]) + FlattenRest(placement[p..])
    decreases |placement| - p
  {
    if p == |placement| {
      assert placement[..p] == placement;
    } else {
      FlattenCut(placement, p + 1);
      assert placement[..p + 1][..p] == placement[..p];
      assert placement[p..][1..] == placement[p + 1..];
    }
  }

  lemma NextId(before: seq<string>, ids: seq<string>, q: nat)
    requires q < |ids|
    ensures before + ids[..q + 1] == (before + ids[..q]) + [ids[q]]
    ensures before + ids == (before + ids[..q]) + [ids[q]] + ids[q + 1..]
    ensures ToSet(before + ids[..q + 1]) == ToSet(before + ids[..q]) + {ids[q]}
  {
  }

  /** Once a prefix is rejected the whole list is, with the same error. */
  lemma {:induction false} ManualStops(npus: seq<Option<Npu>>, ids: seq<string>, rest: seq<string>)
    requires ManualPick(npus, ids).Err?
    ensures ManualPick(npus, ids + rest) == ManualPick(npus, ids)
  {
    if rest == [] {
      assert ids + rest == ids;
    } else {
      ManualStops(npus, ids, rest[..|rest| - 1]);
      assert (ids + rest)[..|ids + rest| - 1] == ids + rest[..|rest| - 1];
    }
  }

  /** What was found so far is a prefix of what there is. */
  lemma {:induction false} FreePrefix(npus: seq<Option<Npu>>, n: nat, m: nat)
    requires n < |npus| && m <= Width(npus, n)
    ensures FreeBefore(npus, n, m) <= Free(npus)
    decreases |npus| - n, Width(npus, n) - m
  {
    if m < Width(npus, n) {
      FreePrefix(npus, n, m + 1);
    } else if n + 1 < |npus| {
      FreePrefix(npus, n + 1, 0);
    }
  }
}
