/** Deploy and DeleteDeploy said on the request and on the records before and after, without the
    functions that compute them (backend/pkg/datasource/mock/deploy.go). */
module AllocatorExact {
  import opened Wrappers
  import opened Sorting
  import opened AllocatorSpec
  import opened AllocatorRuns
  import opened AllocatorUndo
  import Text

  // ---------------------------------------------------------------- slices by place

  predicate StandsAt(npus: seq<Option<Npu>>, i: nat, j: nat, id: string) {
    i < |npus| && npus[i].Some? && j < |npus[i].value.slices| && npus[i].value.slices[j].id == id
  }

  predicate FreeAt(npus: seq<Option<Npu>>, i: nat, j: nat) {
    i < |npus| && npus[i].Some? && j < |npus[i].value.slices| && npus[i].value.slices[j].status == "available"
  }

  ghost predicate Exists(npus: seq<Option<Npu>>, id: string) {
    exists i: nat, j: nat :: StandsAt(npus, i, j, id)
  }

  ghost predicate IsFree(npus: seq<Option<Npu>>, id: string) {
    exists i: nat, j: nat :: StandsAt(npus, i, j, id) && FreeAt(npus, i, j)
  }

  ghost predicate OnNode(npus: seq<Option<Npu>>, id: string, node: string) {
    exists i: nat, j: nat :: StandsAt(npus, i, j, id) && npus[i].value.nodeName == node
  }

  /** `Free` lists exactly the available slices, NPU by NPU and in their order there. */
  lemma FreeByPlace(npus: seq<Option<Npu>>)
    ensures forall p: Pos :: p in Free(npus) <==> FreeAt(npus, p.npu, p.slice)
    ensures forall a, b :: 0 <= a < b < |Free(npus)| ==>
      var p, q := Free(npus)[a], Free(npus)[b];
      p.npu < q.npu || (p.npu == q.npu && p.slice < q.slice)
  {
    FreeExact(npus);
  }

  lemma ByPlace(npus: seq<Option<Npu>>, id: string)
    requires Unique(npus)
    ensures Known(npus, id) <==> Exists(npus, id)
    ensures Available(npus, id) <==> IsFree(npus, id)
  {
    forall i: nat, j: nat | StandsAt(npus, i, j, id) ensures Known(npus, id) && PosOf(npus, id) == Pos(i, j) {
      assert Has(npus, Pos(i, j)) && SliceAt(npus, Pos(i, j)).id == id;
    }
    if Known(npus, id) {
      var p := PosOf(npus, id);
      assert StandsAt(npus, p.npu, p.slice, id);
    }
  }

  /** The ids of a placement, entry after entry. */
  function Listed(placement: seq<seq<string>>): seq<string> {
    if placement == [] then [] else placement[0] + Listed(placement[1..])
  }

  lemma {:induction false} ListedLast(placement: seq<seq<string>>)
    requires placement != []
    ensures Listed(placement) == Listed(placement[..|placement| - 1]) + placement[|placement| - 1]
  {
    var n := |placement| - 1;
    if n > 0 {
      ListedLast(placement[1..]);
      assert placement[1..][..n - 1] == placement[..n][1..];
      ConcatAssociative(placement[0], Listed(placement[..n][1..]), placement[n]);
    }
  }

  lemma {:induction false} FlattenIsListed(placement: seq<seq<string>>)
    ensures Flatten(placement) == Listed(placement)
  {
    if placement != [] {
      ListedLast(placement);
      FlattenIsListed(placement[..|placement| - 1]);
    }
  }

  // ---------------------------------------------------------------- what is answered

  /** The ids a request lists. */
  function Asked(req: DeployRequest): seq<string> {
    if req.scheduling.None? then [] else Listed(req.scheduling.value.manualPlacement)
  }

  /** Replicas, zero counting as one, times what the first preset of that id takes for each. */
  ghost predicate Needs(presets: seq<Option<Preset>>, req: DeployRequest, need: int) {
    exists k, n :: 0 <= k < |presets| && FirstWithId(presets, req.presetId, k) && Takes(presets[k].value, n)
      && need == (if req.replicas == 0 then 1 else req.replicas) * n
  }

  ghost predicate PresetExists(presets: seq<Option<Preset>>, id: string) {
    exists k :: 0 <= k < |presets| && FirstWithId(presets, id, k)
  }

  /** Manual placement asks for its ids to be distinct, free and as many as needed; automatic
      placement for as many free slices. */
  ghost predicate Placeable(npus: seq<Option<Npu>>, req: DeployRequest, need: int) {
    if AsksManual(req) then
      && |Asked(req)| == need && AllDistinct(Asked(req))
      && forall k :: 0 <= k < |Asked(req)| ==> IsFree(npus, Asked(req)[k])
    else |Free(npus)| >= need
  }

  /** Before any other fault in the list comes an id that exists and is not free. */
  ghost predicate Conflicts(npus: seq<Option<Npu>>, ids: seq<string>) {
    exists k :: 0 <= k < |ids| && FirstTaken(npus, ids, k)
  }

  ghost predicate FirstTaken(npus: seq<Option<Npu>>, ids: seq<string>, k: nat)
    requires k < |ids|
  {
    && AllDistinct(ids[..k + 1]) && Exists(npus, ids[k]) && !IsFree(npus, ids[k])
    && forall l :: 0 <= l < k ==> IsFree(npus, ids[l])
  }

  ghost function Refusal(presets: seq<Option<Preset>>, npus: seq<Option<Npu>>, req: DeployRequest): Error {
    if !WellFormed(req) then InvalidRequest
    else if !PresetExists(presets, req.presetId) then PresetNotFound
    else if AsksAuto(req) then InsufficientCapacity
    else if Conflicts(npus, Asked(req)) then SliceConflict
    else InvalidRequest
  }

  lemma ConflictsMore(npus: seq<Option<Npu>>, u: seq<string>, id: string)
    ensures Conflicts(npus, u + [id]) <==> Conflicts(npus, u) || FirstTaken(npus, u + [id], |u|)
  {
    var all := u + [id];
    forall k: nat | k < |u| ensures FirstTaken(npus, all, k) <==> FirstTaken(npus, u, k) {
      assert all[..k + 1] == u[..k + 1] && forall l :: 0 <= l <= k ==> all[l] == u[l];
    }
    if k: nat :| k < |u| && FirstTaken(npus, u, k) {
      assert FirstTaken(npus, all, k);
    }
  }

  lemma {:induction false} ManualRefusal(npus: seq<Option<Npu>>, ids: seq<string>)
    requires Unique(npus) && ManualPick(npus, ids).Err?
    ensures ManualPick(npus, ids).error == if Conflicts(npus, ids) then SliceConflict else InvalidRequest
  {
    var u, id := ids[..|ids| - 1], ids[|ids| - 1];
    assert ids == u + [id];
    ConflictsMore(npus, u, id);
    ManualPickExact(npus, u);
    forall k | 0 <= k < |u| ensures Available(npus, u[k]) <==> IsFree(npus, u[k]) {
      ByPlace(npus, u[k]);
    }
    if ManualPick(npus, u).Err? {
      ManualRefusal(npus, u);
      NotAllFree(npus, u, id);
    } else {
      ByPlace(npus, id);
      NoConflict(npus, u);
      assert AllDistinct(u + [id]) <==> id !in u;
      assert (u + [id])[..|u| + 1] == u + [id];
    }
  }

  lemma NotAllFree(npus: seq<Option<Npu>>, u: seq<string>, id: string)
    requires !(AllDistinct(u) && forall k :: 0 <= k < |u| ==> IsFree(npus, u[k]))
    ensures !FirstTaken(npus, u + [id], |u|)
  {
    var all := u + [id];
    assert all[..|u| + 1] == all && forall k :: 0 <= k < |u| ==> all[k] == u[k];
    if k :| 0 <= k < |u| && !IsFree(npus, u[k]) {
      assert !IsFree(npus, all[k]);
    } else {
      assert !AllDistinct(all);
    }
  }

  lemma NoConflict(npus: seq<Option<Npu>>, u: seq<string>)
    requires forall k :: 0 <= k < |u| ==> IsFree(npus, u[k])
    ensures !Conflicts(npus, u)
  {
  }

  /** When a request is granted, and why it is refused when it is not: without a word about
      placement, or with the word auto, it is granted exactly when enough slices are free. */
  lemma DeployAnswers(presets: seq<Option<Preset>>, s: State, req: DeployRequest)
    requires Unique(s.npus)
    ensures var r := Deploy(presets, s, Some(req)).1;
      && (r.Ok? <==> WellFormed(req) && exists need :: Needs(presets, req, need) && Placeable(s.npus, req, need))
      && (r.Err? ==> r.error == Refusal(presets, s.npus, req))
  {
    CheckExact(presets, Some(req));
    var c := Check(presets, Some(req));
    forall m: int, n: int | Needs(presets, req, m) && Needs(presets, req, n) ensures m == n {
      OnePreset(presets, req, m, n);
    }
    if c.Ok? {
      assert Needs(presets, req, c.value.need);
      PickAnswers(s.npus, c.value, req);
    } else if WellFormed(req) {
      assert forall need :: !Needs(presets, req, need);
    }
  }

  lemma OnePreset(presets: seq<Option<Preset>>, req: DeployRequest, m: int, n: int)
    requires Needs(presets, req, m) && Needs(presets, req, n)
    ensures m == n
  {
    var k, a :| 0 <= k < |presets| && FirstWithId(presets, req.presetId, k) && Takes(presets[k].value, a)
      && m == (if req.replicas == 0 then 1 else req.replicas) * a;
    var l, b :| 0 <= l < |presets| && FirstWithId(presets, req.presetId, l) && Takes(presets[l].value, b)
      && n == (if req.replicas == 0 then 1 else req.replicas) * b;
    assert k == l && a == b;
  }

  lemma PickAnswers(npus: seq<Option<Npu>>, plan: Plan, req: DeployRequest)
    requires Unique(npus) && plan.need > 0 && plan.manual == AsksManual(req) && (AsksAuto(req) || AsksManual(req))
    ensures var r := Pick(npus, plan, req.scheduling);
      && (r.Ok? <==> Placeable(npus, req, plan.need))
      && (r.Err? && AsksAuto(req) ==> r.error == InsufficientCapacity)
      && (r.Err? && AsksManual(req) && Conflicts(npus, Asked(req)) ==> r.error == SliceConflict)
      && (r.Err? && AsksManual(req) && !Conflicts(npus, Asked(req)) ==> r.error == InvalidRequest)
  {
    PickExact(npus, plan, req.scheduling);
    if plan.manual {
      var ids := Asked(req);
      FlattenIsListed(req.scheduling.value.manualPlacement);
      forall k | 0 <= k < |ids| ensures Available(npus, ids[k]) <==> IsFree(npus, ids[k]) {
        ByPlace(npus, ids[k]);
      }
      if ManualPick(npus, ids).Err? {
        ManualRefusal(npus, ids);
      } else {
        ManualPickExact(npus, ids);
        NoConflict(npus, ids);
      }
    }
  }

  // ---------------------------------------------------------------- what is done

  /** Slice by slice: those named in `ids` carry the status and the record, nothing else changes. */
  predicate Rewritten(before: seq<Option<Npu>>, after: seq<Option<Npu>>, ids: seq<string>, status: string,
                      to: Option<Allocation>) {
    && |after| == |before|
    && forall i :: 0 <= i < |before| ==> before[i].None? == after[i].None? && (before[i].Some? ==>
         RewrittenNpu(before[i].value, after[i].value, ids, status, to))
  }

  predicate RewrittenNpu(before: Npu, after: Npu, ids: seq<string>, status: string, to: Option<Allocation>) {
    && after.id == before.id && after.nodeName == before.nodeName && |after.slices| == |before.slices|
    && forall j :: 0 <= j < |before.slices| ==>
         var s := before.slices[j];
         after.slices[j] == if s.id in ids then Slice(s.id, status, to) else s
  }

  lemma TouchRewrites(npus: seq<Option<Npu>>, ids: seq<string>, status: string, to: Option<Allocation>)
    ensures Rewritten(npus, Touch(npus, ToSet(ids), status, to), ids, status, to)
  {
  }

  /** The ids of the first free slices. */
  predicate AreFirstFree(npus: seq<Option<Npu>>, ids: seq<string>) {
    && |ids| <= |Free(npus)|
    && forall k :: 0 <= k < |ids| ==> StandsAt(npus, Free(npus)[k].npu, Free(npus)[k].slice, ids[k])
  }

  lemma PickTakes(npus: seq<Option<Npu>>, plan: Plan, req: DeployRequest)
    requires plan.manual == AsksManual(req) && Pick(npus, plan, req.scheduling).Ok?
    ensures var picked := Pick(npus, plan, req.scheduling).value;
      && AllIn(npus, picked) && |picked| == plan.need > 0
      && if plan.manual then SliceIds(npus, picked) == Asked(req) else AreFirstFree(npus, SliceIds(npus, picked))
  {
    PickSize(npus, plan, req.scheduling);
    PickExact(npus, plan, req.scheduling);
    PickIsFree(npus, plan, req.scheduling);
    if plan.manual {
      FlattenIsListed(req.scheduling.value.manualPlacement);
    }
  }

  /** The slices taken: as many as needed, those listed or the first free ones, in that order. */
  lemma DeployTakes(presets: seq<Option<Preset>>, s: State, req: DeployRequest)
    requires Deploy(presets, s, Some(req)).1.Ok?
    ensures var (t, r) := Deploy(presets, s, Some(req));
      && |t.workloads| == |s.workloads| + 1
      && t.workloads[|s.workloads|].usage.Some?
      && var ids := t.workloads[|s.workloads|].usage.value;
      && Needs(presets, req, |ids|)
      && (if AsksManual(req) then ids == Asked(req) else AreFirstFree(s.npus, ids))
      && Rewritten(s.npus, t.npus, ids, "allocated",
                   Some(Allocation(req.namespace, r.value.workloadName + "-0", "main")))
  {
    CheckExact(presets, Some(req));
    var plan, picked := Check(presets, Some(req)).value, Picks(presets, s, Some(req)).value;
    PickTakes(s.npus, plan, req);
    assert Needs(presets, req, plan.need);
    CommitTakes(s, req, plan, picked);
  }

  lemma CommitTakes(s: State, req: DeployRequest, plan: Plan, picked: seq<Pos>)
    requires AllIn(s.npus, picked)
    ensures var t, name := Commit(s, req, plan, picked), EffectiveName(req, s.counter + 1);
      && |t.workloads| == |s.workloads| + 1
      && t.workloads[|s.workloads|].usage == Some(SliceIds(s.npus, picked))
      && Rewritten(s.npus, t.npus, SliceIds(s.npus, picked), "allocated",
                   Some(Allocation(req.namespace, name + "-0", "main")))
  {
    var to := Owner(req.namespace, EffectiveName(req, s.counter + 1));
    TouchRewrites(s.npus, SliceIds(s.npus, picked), "allocated", Some(to));
  }

  /** The type of a workload, by the kind of its preset. */
  predicate TypeFor(kind: string, t: string) {
    && (kind == "inference" || kind == "inference-pd" ==> t == "inference")
    && (kind == "benchmark" || kind == "training" ==> t == kind)
    && (kind !in {"inference", "inference-pd", "benchmark", "training"} ==> t == "other")
  }

  /** The name asked for without the white space around it; without one, preset and counter. */
  predicate NameFor(req: DeployRequest, counter: nat, name: string) {
    if Text.TrimSpace(req.name) != "" then name == Text.TrimSpace(req.name)
    else name == req.presetId + "-" + Text.Itoa(counter)
  }

  /** The record kept of the deploy, its index entry, and the response. */
  lemma DeployRecords(presets: seq<Option<Preset>>, s: State, req: DeployRequest)
    requires Deploy(presets, s, Some(req)).1.Ok?
    ensures var (t, r) := Deploy(presets, s, Some(req));
      && t.counter == s.counter + 1
      && r.value.deployId == "d-" + Text.Itoa(t.counter)
      && NameFor(req, t.counter, r.value.workloadName)
      && r.value.namespace == req.namespace
      && t.index == s.index[r.value.deployId := req.namespace + "/" + r.value.workloadName]
      && |t.workloads| == |s.workloads| + 1 && t.workloads[..|s.workloads|] == s.workloads
      && var w := t.workloads[|s.workloads|];
      && w.name == r.value.workloadName && w.namespace == req.namespace && w.deployId == r.value.deployId
      && w.nodeNames == r.value.scheduledNodes
      && w.replicas == (if req.replicas == 0 then 1 else req.replicas)
      && exists k :: 0 <= k < |presets| && FirstWithId(presets, req.presetId, k)
           && TypeFor(presets[k].value.kind, w.kind)
  {
    CheckExact(presets, Some(req));
    var c := Check(presets, Some(req)).value;
    var k, n :| 0 <= k < |presets| && FirstWithId(presets, req.presetId, k) && Takes(presets[k].value, n)
      && c.need == c.replicas * n && c.kind == presets[k].value.kind;
    assert TypeFor(presets[k].value.kind, WorkloadType(c.kind));
  }

  // ---------------------------------------------------------------- which nodes

  lemma {:induction false} DedupPrefix(s: seq<string>, m: nat)
    requires m <= |s|
    ensures Dedup(s[..m]) <= Dedup(s)
  {
    if m < |s| {
      DedupPrefix(s[..|s| - 1], m);
      assert s[..|s| - 1][..m] == s[..m];
    } else {
      assert s[..m] == s;
    }
  }

  lemma {:induction false} NodesPrefix(npus: seq<Option<Npu>>, picked: seq<Pos>, k: nat)
    requires AllIn(npus, picked) && k <= |picked|
    ensures NodesOf(npus, picked[..k]) <= NodesOf(npus, picked)
  {
    if k < |picked| {
      NodesPrefix(npus, picked[..|picked| - 1], k);
      assert picked[..|picked| - 1][..k] == picked[..k];
    } else {
      assert picked[..k] == picked;
    }
  }

  lemma {:induction false} NodesAre(npus: seq<Option<Npu>>, picked: seq<Pos>, x: string)
    requires AllIn(npus, picked)
    ensures x in NodesOf(npus, picked) <==>
      x != "" && exists l :: 0 <= l < |picked| && npus[picked[l].npu].value.nodeName == x
  {
    if picked != [] {
      var n := |picked| - 1;
      NodesAre(npus, picked[..n], x);
      assert forall l :: 0 <= l < n ==> picked[..n][l] == picked[l];
    }
  }

  /** `node` is the named node of one of the first `k` slices. */
  ghost predicate NodeOfFirst(npus: seq<Option<Npu>>, ids: seq<string>, k: nat, node: string)
    requires k <= |ids|
  {
    node != "" && exists l :: 0 <= l < k && OnNode(npus, ids[l], node)
  }

  /** The nodes of a deploy: each named node of a slice once, in the order of the slices. */
  ghost predicate NodesFollow(npus: seq<Option<Npu>>, ids: seq<string>, nodes: seq<string>) {
    && AllDistinct(nodes)
    && (forall x :: x in nodes <==> NodeOfFirst(npus, ids, |ids|, x))
    && forall k: nat :: k <= |ids| ==> ComeFirst(npus, ids, k, nodes)
  }

  ghost predicate ComeFirst(npus: seq<Option<Npu>>, ids: seq<string>, k: nat, nodes: seq<string>)
    requires k <= |ids|
  {
    exists m :: 0 <= m <= |nodes| && forall x :: x in nodes[..m] <==> NodeOfFirst(npus, ids, k, x)
  }

  lemma NodesOfPicks(npus: seq<Option<Npu>>, picked: seq<Pos>, k: nat, x: string)
    requires Unique(npus) && AllIn(npus, picked) && k <= |picked|
    ensures x in NodesOf(npus, picked[..k]) <==> NodeOfFirst(npus, SliceIds(npus, picked), k, x)
  {
    NodesAre(npus, picked[..k], x);
    forall l | 0 <= l < k
      ensures OnNode(npus, SliceIds(npus, picked)[l], x) <==> npus[picked[l].npu].value.nodeName == x {
      var id := SliceIds(npus, picked)[l];
      assert StandsAt(npus, picked[l].npu, picked[l].slice, id);
      forall i: nat, j: nat | StandsAt(npus, i, j, id) ensures i == picked[l].npu {
        assert Has(npus, Pos(i, j)) && SliceAt(npus, Pos(i, j)).id == id;
        assert Has(npus, picked[l]);
      }
    }
  }

  lemma NodesFollowPicks(npus: seq<Option<Npu>>, picked: seq<Pos>)
    requires Unique(npus) && AllIn(npus, picked)
    ensures NodesFollow(npus, SliceIds(npus, picked), Dedup(NodesOf(npus, picked)))
  {
    var ids, nodes := SliceIds(npus, picked), Dedup(NodesOf(npus, picked));
    DedupExact(NodesOf(npus, picked));
    assert picked[..|picked|] == picked;
    forall x { NodesOfPicks(npus, picked, |picked|, x); }
    forall k: nat | k <= |ids| ensures ComeFirst(npus, ids, k, nodes) {
      NodesPrefix(npus, picked, k);
      var part := NodesOf(npus, picked[..k]);
      DedupPrefix(NodesOf(npus, picked), |part|);
      assert NodesOf(npus, picked)[..|part|] == part;
      DedupExact(part);
      var m := |Dedup(part)|;
      assert nodes[..m] == Dedup(part);
      forall x { NodesOfPicks(npus, picked, k, x); }
    }
  }

  lemma DeployNodes(presets: seq<Option<Preset>>, s: State, req: DeployRequest)
    requires Unique(s.npus) && Deploy(presets, s, Some(req)).1.Ok?
    ensures var (t, r) := Deploy(presets, s, Some(req));
      && |t.workloads| == |s.workloads| + 1
      && t.workloads[|s.workloads|].usage.Some?
      && NodesFollow(s.npus, t.workloads[|s.workloads|].usage.value, r.value.scheduledNodes)
  {
    PickedAreIn(presets, s, Some(req));
    NodesFollowPicks(s.npus, Picks(presets, s, Some(req)).value);
  }

  // ---------------------------------------------------------------- DeleteDeploy

  lemma {:induction false} SplitExact(key: string)
    ensures SplitFirst(key).None? <==> '/' !in key
    ensures SplitFirst(key).Some? ==> var (namespace, name) := SplitFirst(key).value;
      key == namespace + "/" + name && '/' !in namespace
  {
    if key != "" {
      assert key == [key[0]] + key[1..];
      if key[0] != '/' {
        SplitExact(key[1..]);
      }
    }
  }

  predicate FirstNamed(ws: seq<Workload>, namespace: string, name: string, i: nat) {
    && i < |ws| && ws[i].namespace == namespace && ws[i].name == name
    && forall j :: 0 <= j < i ==> ws[j].namespace != namespace || ws[j].name != name
  }

  /** The last workload fills the place of workload `i`. */
  predicate RemovedAt(before: seq<Workload>, after: seq<Workload>, i: nat) {
    && i < |before| && |after| == |before| - 1
    && forall j :: 0 <= j < |after| ==> after[j] == if j == i then before[|after|] else before[j]
  }

  /** How a delete is answered, and what it does: a blank id is invalid, an unknown one is not
      found; otherwise the first workload of the namespace and name in the index entry goes, and
      its slices are free without a record.  The entry goes even when there is no such workload. */
  lemma DeleteAnswers(s: State, id: string)
    ensures var (t, e) := Delete(s, id);
      if Text.TrimSpace(id) == "" then t == s && e == Some(InvalidRequest)
      else if id !in s.index then t == s && e == Some(DeployNotFound)
      else if '/' !in s.index[id] then t == s && e == Some(MalformedIndex)
      else exists namespace, name ::
        s.index[id] == namespace + "/" + name && '/' !in namespace && DeletedFor(s, t, e, id, namespace, name)
  {
    if id in s.index {
      SplitExact(s.index[id]);
      if Text.TrimSpace(id) != "" && '/' in s.index[id] {
        var (namespace, name) := SplitFirst(s.index[id]).value;
        DeleteUnfolds(s, id, namespace, name);
        DeleteDone(s, id, namespace, name);
      }
    }
  }

  ghost predicate DeletedFor(s: State, t: State, e: Option<Error>, id: string, namespace: string, name: string) {
    && t.counter == s.counter && t.index == s.index - {id}
    && (e == Some(DeployNotFound) || e == None)
    && (e.Some? ==> t.npus == s.npus && t.workloads == s.workloads)
    && (e.Some? ==> forall i: nat :: !FirstNamed(s.workloads, namespace, name, i))
    && (e.None? ==> exists i: nat :: FirstNamed(s.workloads, namespace, name, i) && DroppedAt(s, t, i))
  }

  /** Workload `i` is gone, and its slices are free. */
  predicate DroppedAt(s: State, t: State, i: nat)
    requires i < |s.workloads|
  {
    && RemovedAt(s.workloads, t.workloads, i)
    && Rewritten(s.npus, t.npus, if s.workloads[i].usage.Some? then s.workloads[i].usage.value else [], "available",
                 None)
  }

  lemma DeleteDone(s: State, id: string, namespace: string, name: string)
    requires Text.TrimSpace(id) != "" && id in s.index && SplitFirst(s.index[id]) == Some((namespace, name))
    ensures DeletedFor(s, Delete(s, id).0, Delete(s, id).1, id, namespace, name)
  {
    var i, t := FindWorkload(s.workloads, namespace, name), Delete(s, id).0;
    if i < |s.workloads| {
      var ids := if s.workloads[i].usage.Some? then s.workloads[i].usage.value else [];
      assert ToSet(ids) == Released(s.workloads[i]);
      TouchRewrites(s.npus, ids, "available", None);
      assert FirstNamed(s.workloads, namespace, name, i) && DroppedAt(s, t, i);
    } else {
      forall k: nat ensures !FirstNamed(s.workloads, namespace, name, k) {
      }
    }
  }
}
