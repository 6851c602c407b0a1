/** What Deploy and DeleteDeploy of the mock source compute, as functions on values
    (backend/pkg/datasource/mock/deploy.go).  A pointer into `s.npus[i].Slices[j]` is the
    position `Pos(i, j)`. */
module AllocatorSpec {
  import opened Wrappers
  import opened Sorting
  import Text

  datatype Allocation = Allocation(namespace: string, podName: string, containerName: string)

  datatype Slice = Slice(id: string, status: string, allocatedTo: Option<Allocation>)

  datatype Npu = Npu(id: string, nodeName: string, slices: seq<Slice>)

  datatype Pos = Pos(npu: nat, slice: nat)

  /** `usage` is `NPUUsage.Slices`; `deployId` is the label `deploy.ocloud.io/id`. */
  datatype Workload = Workload(
    name: string, namespace: string, kind: string, replicas: int,
    nodeNames: seq<string>, usage: Option<seq<string>>, deployId: string)

  datatype Preset = Preset(id: string, kind: string, npuCount: Option<int>)

  datatype Scheduling = Scheduling(mode: string, manualPlacement: seq<seq<string>>)

  datatype DeployRequest = DeployRequest(
    presetId: string, namespace: string, name: string, replicas: int, scheduling: Option<Scheduling>)

  datatype Response = Response(
    deployId: string, workloadName: string, namespace: string, scheduledNodes: seq<string>)

  datatype Error =
    InvalidRequest | PresetNotFound | SliceConflict | InsufficientCapacity | DeployNotFound | MalformedIndex

  datatype Plan = Plan(manual: bool, need: nat, replicas: int, kind: string)

  /** Everything the two operations read or write. */
  datatype State = State(
    npus: seq<Option<Npu>>, workloads: seq<Workload>, counter: nat, index: map<string, string>)

  // ---------------------------------------------------------------- positions

  /** The number of slices of NPU `n`; a nil entry has none. */
  function Width(npus: seq<Option<Npu>>, n: nat): nat {
    if n < |npus| && npus[n].Some? then |npus[n].value.slices| else 0
  }

  predicate Has(npus: seq<Option<Npu>>, p: Pos) {
    p.slice < Width(npus, p.npu)
  }

  function SliceAt(npus: seq<Option<Npu>>, p: Pos): Slice
    requires Has(npus, p)
  {
    npus[p.npu].value.slices[p.slice]
  }

  function NodeAt(npus: seq<Option<Npu>>, p: Pos): string
    requires Has(npus, p)
  {
    npus[p.npu].value.nodeName
  }

  /** Slice ids are unique across the whole cache. */
  ghost predicate Unique(npus: seq<Option<Npu>>) {
    forall p, q :: Has(npus, p) && Has(npus, q) && SliceAt(npus, p).id == SliceAt(npus, q).id ==> p == q
  }

  ghost predicate Known(npus: seq<Option<Npu>>, id: string) {
    exists p :: Has(npus, p) && SliceAt(npus, p).id == id
  }

  ghost function PosOf(npus: seq<Option<Npu>>, id: string): (p: Pos)
    requires Known(npus, id)
    ensures Has(npus, p) && SliceAt(npus, p).id == id
  {
    var p :| Has(npus, p) && SliceAt(npus, p).id == id;
    p
  }

  ghost predicate Available(npus: seq<Option<Npu>>, id: string) {
    Known(npus, id) && SliceAt(npus, PosOf(npus, id)).status == "available"
  }

  /** The slices named in `ids` take the given status and allocation; nothing else changes. */
  function Touch(npus: seq<Option<Npu>>, ids: set<string>, status: string, to: Option<Allocation>): seq<Option<Npu>> {
    seq(|npus|, i requires 0 <= i < |npus| => TouchNpu(npus[i], ids, status, to))
  }

  function TouchNpu(npu: Option<Npu>, ids: set<string>, status: string, to: Option<Allocation>): Option<Npu> {
    if npu.None? then None
    else
      var before := npu.value.slices;
      Some(npu.value.(slices := seq(|before|, j requires 0 <= j < |before| => TouchSlice(before[j], ids, status, to))))
  }

  function TouchSlice(s: Slice, ids: set<string>, status: string, to: Option<Allocation>): Slice {
    if s.id in ids then s.(status := status, allocatedTo := to) else s
  }

  // ---------------------------------------------------------------- picking

  /** The available positions before `Pos(n, m)`, in fixture order. */
  function FreeBefore(npus: seq<Option<Npu>>, n: nat, m: nat): seq<Pos>
    requires m <= Width(npus, n)
    decreases n, m
  {
    if m > 0 then
      FreeBefore(npus, n, m - 1) +
      (if SliceAt(npus, Pos(n, m - 1)).status == "available" then [Pos(n, m - 1)] else [])
    else if n > 0 then FreeBefore(npus, n - 1, Width(npus, n - 1))
    else []
  }

  function Free(npus: seq<Option<Npu>>): seq<Pos> {
    FreeBefore(npus, |npus|, 0)
  }

  function Flatten(placement: seq<seq<string>>): seq<string> {
    if placement == [] then []
    else Flatten(placement[..|placement| - 1]) + placement[|placement| - 1]
  }

  /** The checks of manual mode on one more id, after `before` was accepted. */
  ghost function CheckOne(npus: seq<Option<Npu>>, before: seq<string>, id: string): Option<Error> {
    if id in before then Some(InvalidRequest)
    else if !Known(npus, id) then Some(InvalidRequest)
    else if !Available(npus, id) then Some(SliceConflict)
    else None
  }

  /** Manual mode: ids are taken left to right and the first bad one decides the error. */
  ghost function ManualPick(npus: seq<Option<Npu>>, ids: seq<string>): (r: Result<seq<Pos>, Error>)
    ensures r.Ok? ==> |r.value| == |ids|
  {
    if ids == [] then Ok([])
    else
      var before, id := ids[..|ids| - 1], ids[|ids| - 1];
      var r := ManualPick(npus, before);
      if r.Err? then r
      else
        var e := CheckOne(npus, before, id);
        if e.Some? then Err(e.value) else Ok(r.value + [PosOf(npus, id)])
  }

  ghost function Pick(npus: seq<Option<Npu>>, plan: Plan, scheduling: Option<Scheduling>): Result<seq<Pos>, Error> {
    if plan.need == 0 then Err(InvalidRequest)
    else if plan.manual then
      if scheduling.None? || scheduling.value.manualPlacement == [] then Err(InvalidRequest)
      else
        var r := ManualPick(npus, Flatten(scheduling.value.manualPlacement));
        if r.Ok? && |r.value| != plan.need then Err(InvalidRequest) else r
    else if |Free(npus)| < plan.need then Err(InsufficientCapacity)
    else Ok(Free(npus)[..plan.need])
  }

  function SliceIds(npus: seq<Option<Npu>>, picked: seq<Pos>): seq<string>
    requires forall k :: 0 <= k < |picked| ==> Has(npus, picked[k])
  {
    seq(|picked|, k requires 0 <= k < |picked| => SliceAt(npus, picked[k]).id)
  }

  /** The non-empty node names of the picked slices, one entry per slice. */
  function NodesOf(npus: seq<Option<Npu>>, picked: seq<Pos>): seq<string>
    requires forall k :: 0 <= k < |picked| ==> Has(npus, picked[k])
  {
    if picked == [] then []
    else
      var n := |picked| - 1;
      NodesOf(npus, picked[..n]) + (if NodeAt(npus, picked[n]) != "" then [NodeAt(npus, picked[n])] else [])
  }

  /** First occurrences only. */
  function Dedup(s: seq<string>): seq<string> {
    if s == [] then []
    else
      var n := |s| - 1;
      Dedup(s[..n]) + (if s[n] in s[..n] then [] else [s[n]])
  }

  // ---------------------------------------------------------------- Deploy

  function WorkloadType(kind: string): string {
    if kind == "inference" || kind == "inference-pd" then "inference"
    else if kind == "benchmark" then "benchmark"
    else if kind == "training" then "training"
    else "other"
  }

  /** The first preset with that id. */
  function FindPreset(presets: seq<Option<Preset>>, id: string): Option<Preset> {
    if presets == [] then None
    else if presets[0].Some? && presets[0].value.id == id then presets[0]
    else FindPreset(presets[1..], id)
  }

  function Mode(req: DeployRequest): string {
    if req.scheduling.Some? && req.scheduling.value.mode != "" then req.scheduling.value.mode else "auto"
  }

  function Times(m: nat, n: nat): (r: nat)
    ensures m > 0 && n > 0 ==> r > 0
  {
    m * n
  }

  function PerReplica(preset: Preset): (n: nat)
    ensures n > 0
  {
    if preset.npuCount.Some? && preset.npuCount.value > 0 then preset.npuCount.value else 1
  }

  /** Structural validation and preset lookup, in the order the code checks them. */
  function Check(presets: seq<Option<Preset>>, req: Option<DeployRequest>): (r: Result<Plan, Error>)
    ensures r.Ok? ==> req.Some? && r.value.need > 0
  {
    if req.None? || Text.TrimSpace(req.value.presetId) == "" || Text.TrimSpace(req.value.namespace) == "" then
      Err(InvalidRequest)
    else
      var replicas := if req.value.replicas == 0 then 1 else req.value.replicas;
      if replicas < 0 then Err(InvalidRequest)
      else if Mode(req.value) != "auto" && Mode(req.value) != "manual" then Err(InvalidRequest)
      else
        var preset := FindPreset(presets, req.value.presetId);
        if preset.None? then Err(PresetNotFound)
        else
          var need := Times(replicas, PerReplica(preset.value));
          Ok(Plan(Mode(req.value) == "manual", need, replicas, preset.value.kind))
  }

  function DeployId(k: nat): string {
    "d-" + Text.Itoa(k)
  }

  function EffectiveName(req: DeployRequest, counter: nat): string {
    if Text.TrimSpace(req.name) == "" then req.presetId + "-" + Text.Itoa(counter) else Text.TrimSpace(req.name)
  }

  function Key(namespace: string, name: string): string {
    namespace + "/" + name
  }

  function Owner(namespace: string, name: string): Allocation {
    Allocation(namespace, name + "-0", "main")
  }

  ghost predicate AllIn(npus: seq<Option<Npu>>, picked: seq<Pos>) {
    forall k :: 0 <= k < |picked| ==> Has(npus, picked[k])
  }

  /** The state after a deploy that picked the slices `picked`. */
  function Commit(s: State, req: DeployRequest, plan: Plan, picked: seq<Pos>): State
    requires forall k :: 0 <= k < |picked| ==> Has(s.npus, picked[k])
  {
    var c := s.counter + 1;
    var name := EffectiveName(req, c);
    var ids := SliceIds(s.npus, picked);
    State(
      Touch(s.npus, ToSet(ids), "allocated", Some(Owner(req.namespace, name))),
      s.workloads + [NewWorkload(s, req, plan, picked)],
      c,
      s.index[DeployId(c) := Key(req.namespace, name)])
  }

  function NewWorkload(s: State, req: DeployRequest, plan: Plan, picked: seq<Pos>): Workload
    requires forall k :: 0 <= k < |picked| ==> Has(s.npus, picked[k])
  {
    Workload(EffectiveName(req, s.counter + 1), req.namespace, WorkloadType(plan.kind), plan.replicas,
             Dedup(NodesOf(s.npus, picked)), Some(SliceIds(s.npus, picked)), DeployId(s.counter + 1))
  }

  ghost function Picks(presets: seq<Option<Preset>>, s: State, req: Option<DeployRequest>): Result<seq<Pos>, Error> {
    var plan := Check(presets, req);
    if plan.Err? then Err(plan.error) else Pick(s.npus, plan.value, req.value.scheduling)
  }

  ghost function Deploy(presets: seq<Option<Preset>>, s: State, req: Option<DeployRequest>): (r: (State,
                        Result<Response, Error>)) {
    var picked := Picks(presets, s, req);
    if picked.Err? then (s, Err(picked.error))
    else
      PickedAreIn(presets, s, req);
      (Commit(s, req.value, Check(presets, req).value, picked.value),
       Ok(Response(DeployId(s.counter + 1), EffectiveName(req.value, s.counter + 1), req.value.namespace,
                   Dedup(NodesOf(s.npus, picked.value)))))
  }

  // ---------------------------------------------------------------- DeleteDeploy

  /** `strings.SplitN(key, "/", 2)`; None when there is no separator. */
  function SplitFirst(key: string): Option<(string, string)> {
    if key == "" then None
    else if key[0] == '/' then Some(("", key[1..]))
    else
      var r := SplitFirst(key[1..]);
      if r.None? then None else Some(([key[0]] + r.value.0, r.value.1))
  }

  predicate Named(w: Workload, namespace: string, name: string) {
    w.namespace == namespace && w.name == name
  }

  /** The position of the first workload with that namespace and name, or the length. */
  function FindWorkload(ws: seq<Workload>, namespace: string, name: string): (i: nat)
    ensures i <= |ws|
    ensures i < |ws| ==> Named(ws[i], namespace, name)
    ensures forall j :: 0 <= j < i ==> !Named(ws[j], namespace, name)
  {
    if ws == [] || Named(ws[0], namespace, name) then 0
    else 1 + FindWorkload(ws[1..], namespace, name)
  }

  /** The last workload takes the place of the removed one. */
  function SwapDelete(ws: seq<Workload>, i: nat): seq<Workload>
    requires i < |ws|
  {
    ws[i := ws[|ws| - 1]][..|ws| - 1]
  }

  function Released(w: Workload): set<string> {
    if w.usage.Some? then ToSet(w.usage.value) else {}
  }

  ghost function Delete(s: State, id: string): (State, Option<Error>) {
    if Text.TrimSpace(id) == "" then (s, Some(InvalidRequest))
    else if id !in s.index then (s, Some(DeployNotFound))
    else
      var parts := SplitFirst(s.index[id]);
      if parts.None? then (s, Some(MalformedIndex))
      else
        var i := FindWorkload(s.workloads, parts.value.0, parts.value.1);
        if i == |s.workloads| then (s.(index := s.index - {id}), Some(DeployNotFound))
        else
          (State(Touch(s.npus, Released(s.workloads[i]), "available", None),
                 SwapDelete(s.workloads, i), s.counter, s.index - {id}),
           None)
  }

  // ---------------------------------------------------------------- picks are positions

  lemma {:induction false} FreeBeforeExact(npus: seq<Option<Npu>>, n: nat, m: nat)
    requires m <= Width(npus, n)
    ensures forall p :: p in FreeBefore(npus, n, m) <==>
              Has(npus, p) && SliceAt(npus, p).status == "available" && Precedes(p, Pos(n, m))
    ensures InOrder(FreeBefore(npus, n, m))
    decreases n, m
  {
    if m > 0 {
      FreeBeforeExact(npus, n, m - 1);
    } else if n > 0 {
      FreeBeforeExact(npus, n - 1, Width(npus, n - 1));
    }
  }

  predicate InOrder(s: seq<Pos>) {
    forall i, j :: 0 <= i < j < |s| ==> Precedes(s[i], s[j])
  }

  /** Fixture order. */
  predicate Precedes(p: Pos, q: Pos) {
    p.npu < q.npu || (p.npu == q.npu && p.slice < q.slice)
  }

  /** `Free` lists exactly the available slices, each once, in fixture order. */
  lemma FreeExact(npus: seq<Option<Npu>>)
    ensures forall p :: p in Free(npus) <==> Has(npus, p) && SliceAt(npus, p).status == "available"
    ensures InOrder(Free(npus))
  {
    FreeBeforeExact(npus, |npus|, 0);
  }

  ghost predicate AllAvailable(npus: seq<Option<Npu>>, ids: seq<string>) {
    forall i :: 0 <= i < |ids| ==> Available(npus, ids[i])
  }

  /** Manual picking accepts a list exactly when its ids are distinct, known and available,
      and then it picks those slices in the order given. */
  lemma {:induction false} ManualPickExact(npus: seq<Option<Npu>>, ids: seq<string>)
    ensures ManualPick(npus, ids).Ok? <==> AllDistinct(ids) && AllAvailable(npus, ids)
    ensures ManualPick(npus, ids).Ok? ==>
              forall i :: 0 <= i < |ids| ==>
                  Known(npus, ids[i]) && ManualPick(npus, ids).value[i] == PosOf(npus, ids[i])
  {
    if ids != [] {
      ManualPickExact(npus, ids[..|ids| - 1]);
    }
  }

  /** Whatever is picked is an available slice of the cache. */
  lemma PickIsFree(npus: seq<Option<Npu>>, plan: Plan, scheduling: Option<Scheduling>)
    requires Pick(npus, plan, scheduling).Ok?
    ensures AllIn(npus, Pick(npus, plan, scheduling).value)
    ensures forall p :: p in Pick(npus, plan, scheduling).value ==>
        Has(npus, p) && SliceAt(npus, p).status == "available"
  {
    var picked := Pick(npus, plan, scheduling).value;
    if plan.manual {
      ManualPickExact(npus, Flatten(scheduling.value.manualPlacement));
    } else {
      FreeExact(npus);
      assert forall k :: 0 <= k < |picked| ==> picked[k] in Free(npus);
    }
  }

  lemma PickedAreIn(presets: seq<Option<Preset>>, s: State, req: Option<DeployRequest>)
    requires Picks(presets, s, req).Ok?
    ensures AllIn(s.npus, Picks(presets, s, req).value)
  {
    PickIsFree(s.npus, Check(presets, req).value, req.value.scheduling);
  }
}
