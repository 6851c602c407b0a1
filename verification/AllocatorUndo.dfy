/** When a deploy succeeds, what its delete gives back, and why deploys and deletes of
    other ids in between make no difference. */
module AllocatorUndo {
  import opened Wrappers
  import opened Sorting
  import opened AllocatorSpec
  import opened AllocatorRuns
  import Text

  // ---------------------------------------------------------------- exact success

  function ManualIds(scheduling: Option<Scheduling>): seq<string> {
    if scheduling.None? then [] else Flatten(scheduling.value.manualPlacement)
  }

  /** Auto mode succeeds exactly when enough slices are available and then takes the first
      ones in fixture order; manual mode succeeds exactly when the listed ids are distinct,
      known, available and as many as needed, and takes them as listed. */
  lemma PickExact(npus: seq<Option<Npu>>, plan: Plan, scheduling: Option<Scheduling>)
    requires plan.need > 0
    ensures var r := Pick(npus, plan, scheduling);
      if plan.manual then
        var ids := ManualIds(scheduling);
        && (r.Ok? <==> AllDistinct(ids) && AllAvailable(npus, ids) && |ids| == plan.need)
        && (r.Ok? ==> AllIn(npus, r.value) && SliceIds(npus, r.value) == ids)
      else
        && (r.Ok? <==> |Free(npus)| >= plan.need)
        && (r.Ok? ==> r.value == Free(npus)[..plan.need])
  {
    if plan.manual && scheduling.Some? {
      ManualPickExact(npus, Flatten(scheduling.value.manualPlacement));
      if Pick(npus, plan, scheduling).Ok? {
        PickIsFree(npus, plan, scheduling);
      }
    }
  }

  /** Preset `k` is the first with that id. */
  predicate FirstWithId(presets: seq<Option<Preset>>, id: string, k: nat)
    requires k < |presets|
  {
    && presets[k].Some? && presets[k].value.id == id
    && forall j :: 0 <= j < k ==> presets[j].None? || presets[j].value.id != id
  }

  lemma {:induction false} FindPresetExact(presets: seq<Option<Preset>>, id: string)
    ensures FindPreset(presets, id).None? ==> forall k :: 0 <= k < |presets| ==> !FirstWithId(presets, id, k)
    ensures FindPreset(presets, id).Some? ==>
      exists k :: 0 <= k < |presets| && FirstWithId(presets, id, k) && FindPreset(presets, id) == presets[k]
  {
    if presets != [] {
      if presets[0].Some? && presets[0].value.id == id {
        assert FirstWithId(presets, id, 0);
      } else {
        var rest := presets[1..];
        FindPresetExact(rest, id);
        forall k | 1 <= k < |presets| ensures FirstWithId(presets, id, k) <==> FirstWithId(rest, id, k - 1) {
          assert forall j :: 1 <= j <= k ==> presets[j] == rest[j - 1];
        }
        if FindPreset(rest, id).Some? {
          var k :| 0 <= k < |rest| && FirstWithId(rest, id, k) && FindPreset(rest, id) == rest[k];
          assert FirstWithId(presets, id, k + 1);
        }
      }
    }
  }

  predicate AsksManual(req: DeployRequest) {
    req.scheduling.Some? && req.scheduling.value.mode == "manual"
  }

  /** Placement is automatic when asked for, and when nothing is asked for. */
  predicate AsksAuto(req: DeployRequest) {
    req.scheduling.None? || req.scheduling.value.mode == "auto" || req.scheduling.value.mode == ""
  }

  /** A request that names a preset and a namespace, counts up and has a known mode. */
  predicate WellFormed(req: DeployRequest) {
    && Text.TrimSpace(req.presetId) != "" && Text.TrimSpace(req.namespace) != ""
    && req.replicas >= 0 && (AsksAuto(req) || AsksManual(req))
  }

  /** The slices one replica takes: as many NPUs as the preset asks for, and one when it asks
      for none. */
  predicate Takes(preset: Preset, n: int) {
    n >= 1 && if preset.npuCount.Some? && preset.npuCount.value >= 1 then n == preset.npuCount.value else n == 1
  }

  /** Validation accepts exactly the well-formed requests for a preset that exists; an unknown
      preset is told apart from a malformed request; and the slices needed are the replicas,
      zero counting as one, times what the first preset of that id takes for each. */
  lemma CheckExact(presets: seq<Option<Preset>>, req: Option<DeployRequest>)
    ensures var r := Check(presets, req);
      var found := req.Some? && exists k :: 0 <= k < |presets| && FirstWithId(presets, req.value.presetId, k);
      && (r.Ok? <==> req.Some? && WellFormed(req.value) && found)
      && (r.Err? ==> r.error == if req.Some? && WellFormed(req.value) then PresetNotFound else InvalidRequest)
      && (r.Ok? ==>
            && r.value.manual == AsksManual(req.value)
            && r.value.replicas == (if req.value.replicas == 0 then 1 else req.value.replicas)
            && exists k, n :: 0 <= k < |presets| && FirstWithId(presets, req.value.presetId, k)
                 && Takes(presets[k].value, n) && r.value.need == r.value.replicas * n
                 && r.value.kind == presets[k].value.kind)
  {
    if req.Some? {
      FindPresetExact(presets, req.value.presetId);
      if Check(presets, req).Ok? {
        var k :| 0 <= k < |presets| && FirstWithId(presets, req.value.presetId, k)
          && FindPreset(presets, req.value.presetId) == presets[k];
        assert Takes(presets[k].value, PerReplica(presets[k].value));
      }
    }
  }

  /** The first listed id that is repeated, unknown or taken decides the error. */
  lemma {:induction false} ManualFirstBadId(npus: seq<Option<Npu>>, ids: seq<string>, k: nat)
    requires k < |ids|
    requires AllDistinct(ids[..k]) && AllAvailable(npus, ids[..k])
    requires ids[k] in ids[..k] || !Available(npus, ids[k])
    ensures ManualPick(npus, ids) ==
      Err(if ids[k] !in ids[..k] && Known(npus, ids[k]) then SliceConflict else InvalidRequest)
  {
    if k == |ids| - 1 {
      ManualPickExact(npus, ids[..k]);
    } else {
      assert ids[..|ids| - 1][..k] == ids[..k];
      ManualFirstBadId(npus, ids[..|ids| - 1], k);
    }
  }

  /** A deploy fails without a trace. */
  lemma FailedDeployChangesNothing(presets: seq<Option<Preset>>, s: State, req: Option<DeployRequest>)
    ensures Deploy(presets, s, req).1.Err? ==> Deploy(presets, s, req).0 == s
    ensures Deploy(presets, s, req).1.Ok? <==>
      Check(presets, req).Ok? && Pick(s.npus, Check(presets, req).value, req.value.scheduling).Ok?
  {
  }

  lemma {:induction false} DedupExact(nodes: seq<string>)
    ensures AllDistinct(Dedup(nodes))
    ensures forall x :: x in Dedup(nodes) <==> x in nodes
  {
    if nodes != [] {
      DedupExact(nodes[..|nodes| - 1]);
      assert nodes == nodes[..|nodes| - 1] + [nodes[|nodes| - 1]];
    }
  }

  // ---------------------------------------------------------------- back to back

  lemma TouchTwice(npus: seq<Option<Npu>>, ids: set<string>, status1: string, to1: Option<Allocation>,
                   status2: string, to2: Option<Allocation>)
    ensures Touch(Touch(npus, ids, status1, to1), ids, status2, to2) == Touch(npus, ids, status2, to2)
  {
    var a := Touch(Touch(npus, ids, status1, to1), ids, status2, to2);
    var b := Touch(npus, ids, status2, to2);
    TouchAt(npus, ids, status1, to1);
    TouchAt(Touch(npus, ids, status1, to1), ids, status2, to2);
    TouchAt(npus, ids, status2, to2);
    ShapeFacts(npus, b);
    ShapeTransitive(npus, Touch(npus, ids, status1, to1), a);
    ShapeTransitive(b, npus, a);
    SameCache(b, a);
  }

  lemma TouchCommutes(npus: seq<Option<Npu>>, ids1: set<string>, status1: string, to1: Option<Allocation>,
                      ids2: set<string>, status2: string, to2: Option<Allocation>)
    requires ids1 !! ids2
    ensures Touch(Touch(npus, ids1, status1, to1), ids2, status2, to2) ==
        Touch(Touch(npus, ids2, status2, to2), ids1, status1, to1)
  {
    var a1, b1 := Touch(npus, ids1, status1, to1), Touch(npus, ids2, status2, to2);
    var a, b := Touch(a1, ids2, status2, to2), Touch(b1, ids1, status1, to1);
    TouchAt(npus, ids1, status1, to1);
    TouchAt(a1, ids2, status2, to2);
    TouchAt(npus, ids2, status2, to2);
    TouchAt(b1, ids1, status1, to1);
    ShapeTransitive(npus, a1, a);
    ShapeTransitive(npus, b1, b);
    ShapeFacts(npus, a);
    ShapeTransitive(a, npus, b);
    SameCache(a, b);
  }

  /** Free slices carry no allocation record. */
  ghost predicate CleanFree(npus: seq<Option<Npu>>) {
    forall x :: Known(npus, x) && Lookup(npus, x).status == "available" ==> Lookup(npus, x).allocatedTo == None
  }

  ghost predicate SameStatuses(a: seq<Option<Npu>>, b: seq<Option<Npu>>) {
    SameShape(a, b) && forall x :: Known(a, x) && Known(b, x) ==> Lookup(a, x).status == Lookup(b, x).status
  }

  /** Releasing slices that were free before restores every status, and the whole cache when
      free slices carried no record. */
  lemma ReleaseRestores(npus: seq<Option<Npu>>, ids: set<string>, status: string, to: Option<Allocation>)
    requires Unique(npus)
    requires forall x :: x in ids ==> Known(npus, x) && Lookup(npus, x).status == "available"
    ensures var back := Touch(Touch(npus, ids, status, to), ids, "available", None);
      SameStatuses(npus, back) && (CleanFree(npus) ==> back == npus)
  {
    TouchTwice(npus, ids, status, to, "available", None);
    LookupTouched(npus, ids, "available", None);
    if CleanFree(npus) {
      SameLookups(npus, Touch(npus, ids, "available", None));
    }
  }

  /** `t` is `s` after a deploy that created workload `w`. */
  ghost predicate Created(s: State, t: State, w: Workload) {
    && w.deployId == DeployId(s.counter + 1) && w.usage.Some?
    && (forall x :: x in w.usage.value ==> Known(s.npus, x) && Lookup(s.npus, x).status == "available")
    && t == State(Touch(s.npus, ToSet(w.usage.value), "allocated", Some(Owner(w.namespace, w.name))),
                  s.workloads + [w], s.counter + 1, s.index[w.deployId := Key(w.namespace, w.name)])
  }

  lemma CommitCreates(s: State, req: DeployRequest, plan: Plan, picked: seq<Pos>)
    requires Unique(s.npus) && AllIn(s.npus, picked)
    requires forall p :: p in picked ==> Has(s.npus, p) && SliceAt(s.npus, p).status == "available"
    ensures Created(s, Commit(s, req, plan, picked), NewWorkload(s, req, plan, picked))
  {
    PickedIds(s.npus, picked);
  }

  lemma PickSize(npus: seq<Option<Npu>>, plan: Plan, scheduling: Option<Scheduling>)
    requires Pick(npus, plan, scheduling).Ok?
    ensures |Pick(npus, plan, scheduling).value| == plan.need > 0
  {
  }

  lemma DeployCreates(presets: seq<Option<Preset>>, s: State, req: DeployRequest) returns (w: Workload)
    requires Unique(s.npus) && Deploy(presets, s, Some(req)).1.Ok?
    ensures Created(s, Deploy(presets, s, Some(req)).0, w) && w.usage.value != []
    ensures w.namespace == req.namespace && w.name == EffectiveName(req, s.counter + 1)
    ensures Deploy(presets, s, Some(req)).1.value.deployId == w.deployId
  {
    var plan, picked := Check(presets, Some(req)).value, Picks(presets, s, Some(req)).value;
    PickIsFree(s.npus, plan, req.scheduling);
    PickSize(s.npus, plan, req.scheduling);
    CommitCreates(s, req, plan, picked);
    w := NewWorkload(s, req, plan, picked);
  }

  lemma CreatedIsLive(npus0: seq<Option<Npu>>, s: State, t: State, w: Workload)
    requires Inv(npus0, s) && Created(s, t, w)
    requires '/' !in w.namespace && Absent(s.workloads, w.namespace, w.name)
    ensures Inv(npus0, t) && w.deployId !in s.index
    ensures LiveAt(t.workloads, t.index, w.deployId, |s.workloads|)
    ensures forall x, i: nat :: LiveAt(s.workloads, s.index, x, i) ==> LiveAt(t.workloads, t.index, x, i)
  {
    MarkKeepsInv(npus0, s, t, w, w.usage.value);
    AppendLive(s.workloads, s.index, s.counter, w, w.deployId);
  }

  /** The namespace and name that an index entry leads DeleteDeploy to. */
  function Sought(namespace: string, name: string): (string, string) {
    var parts := SplitFirst(Key(namespace, name));
    if parts.None? then ("", "") else parts.value
  }

  /** The workload sought is the new one exactly when its namespace has no slash and no
      workload of that namespace and name existed. */
  lemma SoughtIsOwnIffFresh(ws: seq<Workload>, w: Workload)
    ensures var (namespace, name) := Sought(w.namespace, w.name);
      FindWorkload(ws + [w], namespace, name) == |ws| <==> '/' !in w.namespace && Absent(ws, w.namespace, w.name)
  {
    SplitOfKey(w.namespace, w.name);
    SplitHasNoSlash(Key(w.namespace, w.name));
    var (namespace, name) := Sought(w.namespace, w.name);
    assert forall j :: 0 <= j < |ws| ==> (ws + [w])[j] == ws[j];
    assert (ws + [w])[|ws|] == w;
  }

  /** Deploy, then DeleteDeploy of the returned id: with a fresh name the workload sequence,
      the index and every slice status are as before, and only the counter has moved. */
  lemma UndoBackToBack(presets: seq<Option<Preset>>, npus0: seq<Option<Npu>>, s: State, req: DeployRequest)
    requires Inv(npus0, s) && Deploy(presets, s, Some(req)).1.Ok? && FreshName(s, req)
    ensures var (s1, r) := Deploy(presets, s, Some(req));
      var (s2, e) := Delete(s1, r.value.deployId);
      && e == None
      && s2.workloads == s.workloads && s2.index == s.index && s2.counter == s.counter + 1
      && SameStatuses(s.npus, s2.npus)
      && (CleanFree(s.npus) ==> s2.npus == s.npus)
  {
    ShapeFacts(npus0, s.npus);
    var w := DeployCreates(presets, s, req);
    UndoCreated(npus0, s, Deploy(presets, s, Some(req)).0, w);
  }

  lemma UndoCreated(npus0: seq<Option<Npu>>, s: State, t: State, w: Workload)
    requires Inv(npus0, s) && Created(s, t, w)
    requires '/' !in w.namespace && Absent(s.workloads, w.namespace, w.name)
    ensures var (z, e) := Delete(t, w.deployId);
      && e == None
      && z.workloads == s.workloads && z.index == s.index && z.counter == t.counter
      && SameStatuses(s.npus, z.npus)
      && (CleanFree(s.npus) ==> z.npus == s.npus)
  {
    CreatedIsLive(npus0, s, t, w);
    DeleteFindsOwn(t, w.deployId, |s.workloads|);
    CreatedThenReleased(npus0, s, t, w);
  }

  lemma CreatedThenReleased(npus0: seq<Option<Npu>>, s: State, t: State, w: Workload)
    requires Unique(npus0) && SameShape(npus0, s.npus) && Created(s, t, w) && w.deployId !in s.index
    ensures SwapDelete(t.workloads, |s.workloads|) == s.workloads && t.index - {w.deployId} == s.index
    ensures var back := Touch(t.npus, ToSet(w.usage.value), "available", None);
      SameStatuses(s.npus, back) && (CleanFree(s.npus) ==> back == s.npus)
  {
    ShapeFacts(npus0, s.npus);
    ReleaseRestores(s.npus, ToSet(w.usage.value), "allocated", Some(Owner(w.namespace, w.name)));
  }

  /** Without a fresh name the delete misses: the new workload stays, its id is forgotten,
      and every slice it holds that the workload hit instead does not list stays allocated. */
  lemma StaleNameLeaks(presets: seq<Option<Preset>>, s: State, req: DeployRequest) returns (w: Workload,
                       hit: set<string>)
    requires Unique(s.npus) && Deploy(presets, s, Some(req)).1.Ok? && !FreshName(s, req)
    ensures hit == {} || exists j :: 0 <= j < |s.workloads| && hit == Released(s.workloads[j])
    ensures var (s1, r) := Deploy(presets, s, Some(req));
      var (s2, e) := Delete(s1, r.value.deployId);
      && w.deployId == r.value.deployId && w.deployId !in s2.index
      && w in s2.workloads && w.usage.Some? && w.usage.value != []
      && forall x :: x in w.usage.value && x !in hit ==>
           Known(s2.npus, x) && Lookup(s2.npus, x).status == "allocated"
  {
    w := DeployCreates(presets, s, req);
    hit := StaleCreatedLeaks(s, Deploy(presets, s, Some(req)).0, w);
  }

  /** No workload carries the label of the deploy about to be made. */
  predicate UnusedLabel(s: State) {
    forall j :: 0 <= j < |s.workloads| ==> s.workloads[j].deployId != DeployId(s.counter + 1)
  }

  /** Deploy then delete is an undo exactly for a fresh name. */
  lemma UndoIffFresh(presets: seq<Option<Preset>>, npus0: seq<Option<Npu>>, s: State, req: DeployRequest)
    requires Inv(npus0, s) && Deploy(presets, s, Some(req)).1.Ok? && UnusedLabel(s)
    ensures var (s1, r) := Deploy(presets, s, Some(req));
      var s2 := Delete(s1, r.value.deployId).0;
      s2.workloads == s.workloads && SameStatuses(s.npus, s2.npus) <==> FreshName(s, req)
  {
    if FreshName(s, req) {
      UndoBackToBack(presets, npus0, s, req);
    } else {
      ShapeFacts(npus0, s.npus);
      var w, _ := StaleNameLeaks(presets, s, req);
      assert w.deployId == DeployId(s.counter + 1);
    }
  }

  lemma StaleCreatedLeaks(s: State, t: State, w: Workload) returns (hit: set<string>)
    requires Unique(s.npus) && Created(s, t, w)
    requires '/' in w.namespace || !Absent(s.workloads, w.namespace, w.name)
    ensures hit == {} || exists j :: 0 <= j < |s.workloads| && hit == Released(s.workloads[j])
    ensures var z := Delete(t, w.deployId).0;
      && w.deployId !in z.index && w in z.workloads
      && forall x :: x in w.usage.value && x !in hit ==> Known(z.npus, x) && Lookup(z.npus, x).status == "allocated"
  {
    var n := |s.workloads|;
    var (namespace, name) := Sought(w.namespace, w.name);
    SplitOfKey(w.namespace, w.name);
    DeployIdNotBlank(s.counter + 1);
    DeleteUnfolds(t, w.deployId, namespace, name);
    SoughtIsOwnIffFresh(s.workloads, w);
    LookupTouched(s.npus, ToSet(w.usage.value), "allocated", Some(Owner(w.namespace, w.name)));
    var i := FindWorkload(t.workloads, namespace, name);
    assert t.workloads[n] == w;
    hit := {};
    if i < n {
      hit := Released(s.workloads[i]);
      assert t.workloads[i] == s.workloads[i];
      LookupTouched(t.npus, hit, "available", None);
      assert SwapDelete(t.workloads, i)[i] == w;
    }
  }

  // ---------------------------------------------------------------- others in between

  /** A deploy with manual placement and a name of its own, or the delete of the k-th id. */
  datatype PeerOp = Place(req: DeployRequest) | Drop(k: nat)

  /** In the run without the pair every later id is one lower. */
  function Renamed(k: nat, c: nat): nat {
    if k > c then k - 1 else k
  }

  function WithPair(op: PeerOp): Op {
    match op
    case Place(req) => DeployOp(Some(req))
    case Drop(k) => DeleteOp(DeployId(k))
  }

  function WithoutPair(op: PeerOp, c: nat): Op {
    match op
    case Place(req) => DeployOp(Some(req))
    case Drop(k) => DeleteOp(DeployId(Renamed(k, c)))
  }

  ghost predicate Succeeds(presets: seq<Option<Preset>>, s: State, op: Op) {
    match op
    case DeployOp(req) => Deploy(presets, s, req).1.Ok?
    case DeleteOp(id) => Delete(s, id).1.None?
  }

  /** A placement keeps off the slices that the pair holds, and names itself afresh. */
  predicate PeerOk(s: State, c: nat, held: set<string>, op: PeerOp) {
    match op
    case Place(req) =>
      && AsksManual(req) && Text.TrimSpace(req.name) != "" && FreshName(s, req)
      && ToSet(ManualIds(req.scheduling)) !! held
    case Drop(k) => k != c
  }

  /** The run with the pair, and beside it the run without; both are given every operation. */
  ghost function Both(presets: seq<Option<Preset>>, a: State, b: State, c: nat, ops: seq<PeerOp>): (State, State) {
    if ops == [] then (a, b)
    else
      var (a', b') := Both(presets, a, b, c, ops[..|ops| - 1]);
      var op := ops[|ops| - 1];
      (Step(presets, a', WithPair(op)), Step(presets, b', WithoutPair(op, c)))
  }

  ghost predicate PeerRun(presets: seq<Option<Preset>>, a: State, b: State, c: nat, held: set<string>,
      ops: seq<PeerOp>) {
    ops == [] ||
    (&& PeerRun(presets, a, b, c, held, ops[..|ops| - 1])
     && PeerOk(Both(presets, a, b, c, ops[..|ops| - 1]).0, c, held, ops[|ops| - 1]))
  }

  /** The slices of the workload created last. */
  function NewestSlices(s: State): set<string> {
    if s.workloads == [] then {} else Released(s.workloads[|s.workloads| - 1])
  }

  function Erase(w: Workload): Workload {
    w.(deployId := "")
  }

  function EraseAll(ws: seq<Workload>): seq<Workload> {
    seq(|ws|, i requires 0 <= i < |ws| => Erase(ws[i]))
  }

  /** The workloads up to order and id label. */
  function Bag(ws: seq<Workload>): multiset<Workload> {
    multiset(EraseAll(ws))
  }

  lemma BagAppend(ws: seq<Workload>, w: Workload)
    ensures Bag(ws + [w]) == Bag(ws) + multiset{Erase(w)}
  {
    assert EraseAll(ws + [w]) == EraseAll(ws) + [Erase(w)];
  }

  lemma BagSwapDelete(ws: seq<Workload>, i: nat)
    requires i < |ws|
    ensures Bag(SwapDelete(ws, i)) == Bag(ws) - multiset{Erase(ws[i])}
  {
    var e, n := EraseAll(ws), |ws| - 1;
    if i == n {
      assert e == e[..n] + [e[n]];
      assert EraseAll(SwapDelete(ws, i)) == e[..n];
    } else {
      var front, middle := e[..i], e[i + 1..n];
      assert e == front + [e[i]] + middle + [e[n]];
      assert EraseAll(SwapDelete(ws, i)) == front + [e[n]] + middle;
    }
  }

  lemma BagMember(ws: seq<Workload>, e: Workload) returns (i: nat)
    requires e in Bag(ws)
    ensures i < |ws| && Erase(ws[i]) == e
  {
    var es := EraseAll(ws);
    assert e in es;
    i :| i < |es| && es[i] == e;
  }

  /** Other than the pair's own id, both indexes agree up to renaming. */
  ghost predicate SameIndex(a: map<string, string>, b: map<string, string>, c: nat) {
    forall k: nat :: k != c ==>
      && (DeployId(k) in a <==> DeployId(Renamed(k, c)) in b)
      && (DeployId(k) in a ==> a[DeployId(k)] == b[DeployId(Renamed(k, c))])
  }

  /** `a` is `b` with one more live deploy: number `c`, workload `w`. */
  ghost predicate OneMore(npus0: seq<Option<Npu>>, a: State, b: State, c: nat, w: Workload) {
    && Inv(npus0, a) && Inv(npus0, b)
    && a.counter == b.counter + 1 && 1 <= c <= a.counter
    && RecordOf(a.index, DeployId(c), w)
    && (exists i: nat :: LiveAt(a.workloads, a.index, DeployId(c), i) && a.workloads[i] == w)
    && a.npus == Touch(b.npus, ToSet(w.usage.value), "allocated", Some(Owner(w.namespace, w.name)))
    && (forall x :: x in w.usage.value ==> Known(b.npus, x) && Lookup(b.npus, x).status == "available")
    && Bag(a.workloads) == Bag(b.workloads) + multiset{Erase(w)}
    && SameIndex(a.index, b.index, c)
  }

  lemma NotIssued(ws: seq<Workload>, index: map<string, string>, counter: nat, k: nat)
    requires IndexInv(ws, index, counter) && k > counter
    ensures DeployId(k) !in index
  {
    if DeployId(k) in index {
      assert Issued(counter, DeployId(k));
      var j: nat :| 1 <= j <= counter && DeployId(k) == DeployId(j);
      DeployIdInjective(j, k);
    }
  }

  lemma OneMoreAtFirst(npus0: seq<Option<Npu>>, s: State, t: State, w: Workload)
    requires Inv(npus0, s) && Created(s, t, w)
    requires '/' !in w.namespace && Absent(s.workloads, w.namespace, w.name)
    ensures OneMore(npus0, t, s, s.counter + 1, w)
  {
    var c := s.counter + 1;
    CreatedIsLive(npus0, s, t, w);
    assert t.workloads[|s.workloads|] == w;
    BagAppend(s.workloads, w);
    forall k: nat | k != c
      ensures DeployId(k) in t.index <==> DeployId(Renamed(k, c)) in s.index
      ensures DeployId(k) in t.index ==> t.index[DeployId(k)] == s.index[DeployId(Renamed(k, c))] {
      if DeployId(k) == DeployId(c) { DeployIdInjective(k, c); }
      if k > c {
        NotIssued(s.workloads, s.index, s.counter, k);
        NotIssued(s.workloads, s.index, s.counter, k - 1);
      }
    }
  }

  /** A manual placement that works beside the pair works without it, on the same slices. */
  lemma SamePicks(npus0: seq<Option<Npu>>, a: State, b: State, c: nat, w: Workload, plan: Plan,
                  scheduling: Option<Scheduling>)
    requires OneMore(npus0, a, b, c, w) && plan.manual && plan.need > 0
    requires Pick(a.npus, plan, scheduling).Ok?
    ensures Pick(b.npus, plan, scheduling) == Pick(a.npus, plan, scheduling)
    ensures var picked := Pick(a.npus, plan, scheduling).value;
      && AllIn(a.npus, picked) && AllIn(b.npus, picked)
      && SliceIds(a.npus, picked) == SliceIds(b.npus, picked)
      && NodesOf(a.npus, picked) == NodesOf(b.npus, picked)
      && ToSet(SliceIds(b.npus, picked)) !! ToSet(w.usage.value)
  {
    var ids := ManualIds(scheduling);
    var picked := Pick(a.npus, plan, scheduling).value;
    PickExact(a.npus, plan, scheduling);
    ShapeFacts(npus0, b.npus);
    LookupTouched(b.npus, ToSet(w.usage.value), "allocated", Some(Owner(w.namespace, w.name)));
    ShapeFacts(b.npus, a.npus);
    forall i | 0 <= i < |ids| ensures Available(b.npus, ids[i]) && ids[i] !in w.usage.value {
      assert Available(a.npus, ids[i]);
    }
    PickExact(b.npus, plan, scheduling);
    ManualPickExact(a.npus, ids);
    ManualPickExact(b.npus, ids);
    assert Pick(b.npus, plan, scheduling).value == picked;
    SameNodes(a.npus, b.npus, picked);
  }

  /** Beside the pair a list is accepted exactly when it is accepted without and keeps off the
      pair's slices. */
  lemma PicksBesidePair(npus0: seq<Option<Npu>>, a: State, b: State, c: nat, w: Workload, plan: Plan,
                        scheduling: Option<Scheduling>)
    requires OneMore(npus0, a, b, c, w) && plan.manual && plan.need > 0
    ensures Pick(a.npus, plan, scheduling).Ok? <==>
      Pick(b.npus, plan, scheduling).Ok? && ToSet(ManualIds(scheduling)) !! ToSet(w.usage.value)
  {
    PickExact(a.npus, plan, scheduling);
    PickExact(b.npus, plan, scheduling);
    AllAvailableBesidePair(npus0, a, b, c, w, ManualIds(scheduling));
  }

  lemma AllAvailableBesidePair(npus0: seq<Option<Npu>>, a: State, b: State, c: nat, w: Workload, ids: seq<string>)
    requires OneMore(npus0, a, b, c, w)
    ensures AllAvailable(a.npus, ids) <==> AllAvailable(b.npus, ids) && ToSet(ids) !! ToSet(w.usage.value)
  {
    forall i | 0 <= i < |ids|
      ensures Available(a.npus, ids[i]) <==> Available(b.npus, ids[i]) && ids[i] !in w.usage.value {
      AvailableBesidePair(npus0, a, b, c, w, ids[i]);
    }
    if !(ToSet(ids) !! ToSet(w.usage.value)) {
      var id :| id in ids && id in w.usage.value;
      var i :| 0 <= i < |ids| && ids[i] == id;
    }
  }

  lemma AvailableBesidePair(npus0: seq<Option<Npu>>, a: State, b: State, c: nat, w: Workload, id: string)
    requires OneMore(npus0, a, b, c, w)
    ensures Available(a.npus, id) <==> Available(b.npus, id) && id !in w.usage.value
  {
    ShapeFacts(npus0, b.npus);
    LookupTouched(b.npus, ToSet(w.usage.value), "allocated", Some(Owner(w.namespace, w.name)));
    assert Known(a.npus, id) <==> Known(b.npus, id);
    if Known(b.npus, id) {
      assert Lookup(a.npus, id) ==
        TouchSlice(Lookup(b.npus, id), ToSet(w.usage.value), "allocated", Some(Owner(w.namespace, w.name)));
    }
  }

  lemma {:induction false} SameNodes(a: seq<Option<Npu>>, b: seq<Option<Npu>>, picked: seq<Pos>)
    requires SameShape(b, a) && AllIn(a, picked) && AllIn(b, picked)
    ensures NodesOf(a, picked) == NodesOf(b, picked)
  {
    if picked != [] {
      SameNodes(a, b, picked[..|picked| - 1]);
    }
  }

  lemma SubBagAbsent(a: seq<Workload>, b: seq<Workload>, namespace: string, name: string)
    requires Bag(b) <= Bag(a) && Absent(a, namespace, name)
    ensures Absent(b, namespace, name)
  {
    forall j | 0 <= j < |b| ensures !Named(b[j], namespace, name) {
      assert EraseAll(b)[j] in Bag(b);
      var i := BagMember(a, Erase(b[j]));
      assert !Named(a[i], namespace, name);
      assert a[i].name == Erase(a[i]).name && a[i].namespace == Erase(a[i]).namespace;
    }
  }

  lemma SameIndexAfterPlace(a: map<string, string>, b: map<string, string>, n: nat, c: nat, key: string)
    requires c <= n && SameIndex(a, b, c)
    ensures SameIndex(a[DeployId(n + 1) := key], b[DeployId(n) := key], c)
  {
    forall k: nat | k != c ensures DeployId(k) == DeployId(n + 1) <==> DeployId(Renamed(k, c)) == DeployId(n) {
      if DeployId(k) == DeployId(n + 1) { DeployIdInjective(k, n + 1); }
      if DeployId(Renamed(k, c)) == DeployId(n) { DeployIdInjective(Renamed(k, c), n); }
    }
  }

  /** The same slices under the same name, in both runs. */
  lemma TwinsKeepOneMore(npus0: seq<Option<Npu>>, a: State, b: State, c: nat, w: Workload, a': State, wa: Workload,
                         b': State, wb: Workload)
    requires OneMore(npus0, a, b, c, w) && Created(a, a', wa) && Created(b, b', wb) && Erase(wa) == Erase(wb)
    requires '/' !in wa.namespace && Absent(a.workloads, wa.namespace, wa.name)
    requires ToSet(wa.usage.value) !! ToSet(w.usage.value)
    ensures OneMore(npus0, a', b', c, w)
  {
    SameButId(wa, wb);
    SubBagAbsent(a.workloads, b.workloads, wa.namespace, wa.name);
    PairSurvives(npus0, a, a', wa, c, w);
    CreatedIsLive(npus0, b, b', wb);
    BagAppend(a.workloads, wa);
    BagAppend(b.workloads, wb);
    SameIndexAfterPlace(a.index, b.index, a.counter, c, Key(wa.namespace, wa.name));
    TwinTouches(npus0, a, b, w, ToSet(wa.usage.value), "allocated", Some(Owner(wa.namespace, wa.name)));
  }

  lemma SameButId(wa: Workload, wb: Workload)
    requires Erase(wa) == Erase(wb)
    ensures wa.namespace == wb.namespace && wa.name == wb.name && wa.usage == wb.usage
  {
    assert Erase(wa).namespace == Erase(wb).namespace && Erase(wa).name == Erase(wb).name &&
        Erase(wa).usage == Erase(wb).usage;
  }

  /** The pair's own deploy stays live when another one is created. */
  lemma PairSurvives(npus0: seq<Option<Npu>>, a: State, a': State, wa: Workload, c: nat, w: Workload)
    requires Inv(npus0, a) && Created(a, a', wa)
    requires '/' !in wa.namespace && Absent(a.workloads, wa.namespace, wa.name)
    requires exists i: nat :: LiveAt(a.workloads, a.index, DeployId(c), i) && a.workloads[i] == w
    ensures Inv(npus0, a')
    ensures exists i: nat :: LiveAt(a'.workloads, a'.index, DeployId(c), i) && a'.workloads[i] == w
    ensures RecordOf(a'.index, DeployId(c), w)
  {
    CreatedIsLive(npus0, a, a', wa);
    var i: nat :| LiveAt(a.workloads, a.index, DeployId(c), i) && a.workloads[i] == w;
    assert LiveAt(a'.workloads, a'.index, DeployId(c), i) && a'.workloads[i] == w;
  }

  /** Rewriting slices the pair does not hold leaves the caches one deploy apart. */
  lemma TwinTouches(npus0: seq<Option<Npu>>, a: State, b: State, w: Workload, ids: set<string>, status: string,
                    to: Option<Allocation>)
    requires Unique(npus0) && SameShape(npus0, b.npus) && w.usage.Some? && ids !! ToSet(w.usage.value)
    requires a.npus == Touch(b.npus, ToSet(w.usage.value), "allocated", Some(Owner(w.namespace, w.name)))
    requires forall x :: x in w.usage.value ==> Known(b.npus, x) && Lookup(b.npus, x).status == "available"
    ensures var b' := Touch(b.npus, ids, status, to);
      && Touch(a.npus, ids, status, to) ==
          Touch(b', ToSet(w.usage.value), "allocated", Some(Owner(w.namespace, w.name)))
      && (forall x :: x in w.usage.value ==> Known(b', x) && Lookup(b', x).status == "available")
  {
    TouchCommutes(b.npus, ToSet(w.usage.value), "allocated", Some(Owner(w.namespace, w.name)), ids, status, to);
    ShapeFacts(npus0, b.npus);
    LookupTouched(b.npus, ids, status, to);
  }

  lemma PlaceKeepsOneMore(presets: seq<Option<Preset>>, npus0: seq<Option<Npu>>, a: State, b: State, c: nat,
                          w: Workload, req: DeployRequest)
    requires OneMore(npus0, a, b, c, w) && PeerOk(a, c, ToSet(w.usage.value), Place(req))
    requires Deploy(presets, a, Some(req)).1.Ok?
    ensures Deploy(presets, b, Some(req)).1.Ok?
    ensures OneMore(npus0, Deploy(presets, a, Some(req)).0, Deploy(presets, b, Some(req)).0, c, w)
  {
    var plan, picked := Check(presets, Some(req)).value, Picks(presets, a, Some(req)).value;
    SamePicks(npus0, a, b, c, w, plan, req.scheduling);
    CommitKeepsOneMore(npus0, a, b, c, w, req, plan, picked);
  }

  lemma CommitKeepsOneMore(npus0: seq<Option<Npu>>, a: State, b: State, c: nat, w: Workload, req: DeployRequest,
                           plan: Plan, picked: seq<Pos>)
    requires OneMore(npus0, a, b, c, w) && Text.TrimSpace(req.name) != "" && FreshName(a, req)
    requires Pick(a.npus, plan, req.scheduling) == Ok(picked) == Pick(b.npus, plan, req.scheduling)
    requires AllIn(a.npus, picked) && AllIn(b.npus, picked)
    requires SliceIds(a.npus, picked) == SliceIds(b.npus, picked) && NodesOf(a.npus, picked) == NodesOf(b.npus, picked)
    requires ToSet(SliceIds(b.npus, picked)) !! ToSet(w.usage.value)
    ensures OneMore(npus0, Commit(a, req, plan, picked), Commit(b, req, plan, picked), c, w)
  {
    PickIsFree(a.npus, plan, req.scheduling);
    PickIsFree(b.npus, plan, req.scheduling);
    ShapeFacts(npus0, a.npus);
    ShapeFacts(npus0, b.npus);
    CommitCreates(a, req, plan, picked);
    CommitCreates(b, req, plan, picked);
    TwinsKeepOneMore(npus0, a, b, c, w, Commit(a, req, plan, picked), NewWorkload(a, req, plan, picked),
                     Commit(b, req, plan, picked), NewWorkload(b, req, plan, picked));
  }

  /** A live deploy other than the pair stands in both runs with the same record. */
  lemma SameRecord(npus0: seq<Option<Npu>>, a: State, b: State, c: nat, w: Workload, k: nat) returns (i: nat, j: nat)
    requires OneMore(npus0, a, b, c, w) && k != c && DeployId(k) in a.index
    ensures LiveAt(a.workloads, a.index, DeployId(k), i) && LiveAt(b.workloads, b.index, DeployId(Renamed(k, c)), j)
    ensures Erase(a.workloads[i]) == Erase(b.workloads[j])
    ensures ToSet(a.workloads[i].usage.value) !! ToSet(w.usage.value)
  {
    assert Live(a.workloads, a.index, DeployId(k)) && Live(b.workloads, b.index, DeployId(Renamed(k, c)));
    i :| LiveAt(a.workloads, a.index, DeployId(k), i);
    j :| LiveAt(b.workloads, b.index, DeployId(Renamed(k, c)), j);
    var wa, wb := a.workloads[i], b.workloads[j];
    KeyInjective(wa.namespace, wa.name, wb.namespace, wb.name);
    var i0: nat :| LiveAt(a.workloads, a.index, DeployId(c), i0) && a.workloads[i0] == w;
    if DeployId(k) == DeployId(c) { DeployIdInjective(k, c); }
    LiveDeploysAreDisjoint(npus0, a, DeployId(k), i, DeployId(c), i0);
    assert Erase(w).name == w.name && Erase(w).namespace == w.namespace;
    assert Erase(wa).name == wa.name && Erase(wa).namespace == wa.namespace;
    assert EraseAll(a.workloads)[i] in Bag(a.workloads);
    assert Erase(wa) != Erase(w);
    var m := BagMember(b.workloads, Erase(wa));
    assert b.workloads[m].name == Erase(b.workloads[m]).name &&
        b.workloads[m].namespace == Erase(b.workloads[m]).namespace;
    assert Named(b.workloads[m], wb.namespace, wb.name);
  }

  lemma SameIndexAfterDrop(a: map<string, string>, b: map<string, string>, c: nat, k: nat)
    requires SameIndex(a, b, c) && k != c
    ensures SameIndex(a - {DeployId(k)}, b - {DeployId(Renamed(k, c))}, c)
  {
    forall m: nat | m != c
      ensures DeployId(m) == DeployId(k) <==> DeployId(Renamed(m, c)) == DeployId(Renamed(k, c)) {
      if DeployId(m) == DeployId(k) { DeployIdInjective(m, k); }
      if DeployId(Renamed(m, c)) == DeployId(Renamed(k, c)) { DeployIdInjective(Renamed(m, c), Renamed(k, c)); }
    }
  }

  lemma DropKeepsOneMore(npus0: seq<Option<Npu>>, a: State, b: State, c: nat, w: Workload, k: nat)
    requires OneMore(npus0, a, b, c, w) && k != c && DeployId(k) in a.index
    ensures Delete(b, DeployId(Renamed(k, c))).1.None?
    ensures OneMore(npus0, Delete(a, DeployId(k)).0, Delete(b, DeployId(Renamed(k, c))).0, c, w)
  {
    var i, j := SameRecord(npus0, a, b, c, w, k);
    DeleteFindsOwn(a, DeployId(k), i);
    DeleteFindsOwn(b, DeployId(Renamed(k, c)), j);
    DeleteKeepsInv(npus0, a, DeployId(k), i);
    DeleteKeepsInv(npus0, b, DeployId(Renamed(k, c)), j);
    ReleaseKeepsOneMore(npus0, a, b, c, w, k, i, j, Delete(a, DeployId(k)).0, Delete(b, DeployId(Renamed(k, c))).0);
  }

  lemma ReleaseKeepsOneMore(npus0: seq<Option<Npu>>, a: State, b: State, c: nat, w: Workload, k: nat, i: nat, j: nat,
                            a': State, b': State)
    requires OneMore(npus0, a, b, c, w) && k != c && Inv(npus0, a') && Inv(npus0, b')
    requires LiveAt(a.workloads, a.index, DeployId(k), i) && LiveAt(b.workloads, b.index, DeployId(Renamed(k, c)), j)
    requires Erase(a.workloads[i]) == Erase(b.workloads[j])
    requires ToSet(a.workloads[i].usage.value) !! ToSet(w.usage.value)
    requires a' == State(Touch(a.npus, ToSet(a.workloads[i].usage.value), "available", None),
                         SwapDelete(a.workloads, i), a.counter, a.index - {DeployId(k)})
    requires b' == State(Touch(b.npus, ToSet(b.workloads[j].usage.value), "available", None),
                         SwapDelete(b.workloads, j), b.counter, b.index - {DeployId(Renamed(k, c))})
    ensures OneMore(npus0, a', b', c, w)
  {
    assert a.workloads[i].usage == Erase(a.workloads[i]).usage == b.workloads[j].usage;
    BagSwapDelete(a.workloads, i);
    BagSwapDelete(b.workloads, j);
    BagMinus(a, b, w, i, j);
    SameIndexAfterDrop(a.index, b.index, c, k);
    if DeployId(k) == DeployId(c) { DeployIdInjective(k, c); }
    SwapDeleteLive(a.workloads, a.index, DeployId(k), i);
    SwapDeleteAt(a.workloads, i);
    var i0: nat :| LiveAt(a.workloads, a.index, DeployId(c), i0) && a.workloads[i0] == w;
    assert LiveAt(a'.workloads, a'.index, DeployId(c), To(|a.workloads|, i, i0));
    TwinTouches(npus0, a, b, w, ToSet(a.workloads[i].usage.value), "available", None);
  }

  lemma BagMinus(a: State, b: State, w: Workload, i: nat, j: nat)
    requires i < |a.workloads| && j < |b.workloads| && Erase(a.workloads[i]) == Erase(b.workloads[j])
    requires Bag(a.workloads) == Bag(b.workloads) + multiset{Erase(w)}
    ensures Bag(a.workloads) - multiset{Erase(a.workloads[i])} ==
            Bag(b.workloads) - multiset{Erase(b.workloads[j])} + multiset{Erase(w)}
  {
    assert EraseAll(b.workloads)[j] in Bag(b.workloads);
  }

  /** A placement that keeps off the pair's slices fares the same in both runs. */
  lemma PlaceAlike(presets: seq<Option<Preset>>, npus0: seq<Option<Npu>>, a: State, b: State, c: nat, w: Workload,
                   req: DeployRequest)
    requires OneMore(npus0, a, b, c, w) && PeerOk(a, c, ToSet(w.usage.value), Place(req))
    ensures Deploy(presets, a, Some(req)).1.Ok? <==> Deploy(presets, b, Some(req)).1.Ok?
    ensures OneMore(npus0, Deploy(presets, a, Some(req)).0, Deploy(presets, b, Some(req)).0, c, w)
  {
    var checked := Check(presets, Some(req));
    if checked.Ok? {
      PicksBesidePair(npus0, a, b, c, w, checked.value, req.scheduling);
    }
    FailedDeployChangesNothing(presets, a, Some(req));
    FailedDeployChangesNothing(presets, b, Some(req));
    if Deploy(presets, a, Some(req)).1.Ok? {
      PlaceKeepsOneMore(presets, npus0, a, b, c, w, req);
    }
  }


  /** One operation, given to both runs: it succeeds in both or in neither, and the runs stay
      one deploy apart. */
  lemma StepAlike(presets: seq<Option<Preset>>, npus0: seq<Option<Npu>>, a: State, b: State, c: nat, w: Workload,
                  op: PeerOp)
    requires OneMore(npus0, a, b, c, w) && PeerOk(a, c, ToSet(w.usage.value), op)
    ensures Succeeds(presets, a, WithPair(op)) <==> Succeeds(presets, b, WithoutPair(op, c))
    ensures OneMore(npus0, Step(presets, a, WithPair(op)), Step(presets, b, WithoutPair(op, c)), c, w)
  {
    match op
    case Place(req) => PlaceAlike(presets, npus0, a, b, c, w, req);
    case Drop(k) =>
      DeleteExact(npus0, a, DeployId(k));
      DeleteExact(npus0, b, DeployId(Renamed(k, c)));
      if DeployId(k) in a.index {
        DropKeepsOneMore(npus0, a, b, c, w, k);
      }
  }

  /** Given the same operations, the two runs stay one deploy apart. */
  lemma {:induction false} PairRunsStayOneApart(presets: seq<Option<Preset>>, npus0: seq<Option<Npu>>, a: State,
                                                b: State, c: nat, w: Workload, ops: seq<PeerOp>)
    requires OneMore(npus0, a, b, c, w) && PeerRun(presets, a, b, c, ToSet(w.usage.value), ops)
    ensures OneMore(npus0, Both(presets, a, b, c, ops).0, Both(presets, a, b, c, ops).1, c, w)
  {
    if ops != [] {
      PairRunsStayOneApart(presets, npus0, a, b, c, w, ops[..|ops| - 1]);
      var (a', b') := Both(presets, a, b, c, ops[..|ops| - 1]);
      StepAlike(presets, npus0, a', b', c, w, ops[|ops| - 1]);
    }
  }

  /** Deploy, any fresh-named manual deploys off its slices and deletes of other ids, then
      DeleteDeploy of the first: the same statuses, the same workloads up to order and id label,
      and the same index up to renaming as when the same operations run without the pair. */
  lemma UndoAcrossOthers(presets: seq<Option<Preset>>, npus0: seq<Option<Npu>>, s: State, req: DeployRequest,
                         ops: seq<PeerOp>)
    requires Inv(npus0, s) && Deploy(presets, s, Some(req)).1.Ok? && FreshName(s, req)
    requires var first := Deploy(presets, s, Some(req)).0;
      PeerRun(presets, first, s, s.counter + 1, NewestSlices(first), ops)
    ensures var c := s.counter + 1;
      var (a, b) := Both(presets, Deploy(presets, s, Some(req)).0, s, c, ops);
      var (z, e) := Delete(a, DeployId(c));
      && e == None
      && SameStatuses(b.npus, z.npus)
      && (CleanFree(b.npus) ==> z.npus == b.npus)
      && Bag(z.workloads) == Bag(b.workloads)
      && DeployId(c) !in z.index && SameIndex(z.index, b.index, c)
      && z.counter == b.counter + 1
  {
    var c, first := s.counter + 1, Deploy(presets, s, Some(req)).0;
    ShapeFacts(npus0, s.npus);
    var w := DeployCreates(presets, s, req);
    OneMoreAtFirst(npus0, s, first, w);
    assert NewestSlices(first) == ToSet(w.usage.value);
    PairRunsStayOneApart(presets, npus0, first, s, c, w, ops);
    var (a, b) := Both(presets, first, s, c, ops);
    var i: nat :| LiveAt(a.workloads, a.index, DeployId(c), i) && a.workloads[i] == w;
    DeleteFindsOwn(a, DeployId(c), i);
    BagWithout(a.workloads, b.workloads, i);
    CacheRestored(npus0, a, b, w);
    IndexRestored(a.index, b.index, c);
  }

  /** The condition on placements is needed: one that lists a slice of the pair fails beside it,
      whether or not it would succeed without. */
  lemma ConflictFailsBesidePair(presets: seq<Option<Preset>>, npus0: seq<Option<Npu>>, a: State, b: State, c: nat,
                                w: Workload, req: DeployRequest)
    requires OneMore(npus0, a, b, c, w) && AsksManual(req)
    requires !(ToSet(ManualIds(req.scheduling)) !! ToSet(w.usage.value))
    ensures Deploy(presets, a, Some(req)).1.Err? && Deploy(presets, a, Some(req)).0 == a
  {
    var checked := Check(presets, Some(req));
    if checked.Ok? {
      PicksBesidePair(npus0, a, b, c, w, checked.value, req.scheduling);
    }
    FailedDeployChangesNothing(presets, a, Some(req));
  }

  /** In particular right after the deploy that took the slice. */
  lemma SecondClaimFails(presets: seq<Option<Preset>>, npus0: seq<Option<Npu>>, s: State, req: DeployRequest,
                         other: DeployRequest)
    requires Inv(npus0, s) && Deploy(presets, s, Some(req)).1.Ok? && FreshName(s, req)
    requires AsksManual(other)
    requires exists id :: id in ManualIds(other.scheduling) && id in NewestSlices(Deploy(presets, s, Some(req)).0)
    ensures Deploy(presets, Deploy(presets, s, Some(req)).0, Some(other)).1.Err?
  {
    var first := Deploy(presets, s, Some(req)).0;
    ShapeFacts(npus0, s.npus);
    var w := DeployCreates(presets, s, req);
    OneMoreAtFirst(npus0, s, first, w);
    var id :| id in ManualIds(other.scheduling) && id in NewestSlices(first);
    assert id in ToSet(ManualIds(other.scheduling)) && id in ToSet(w.usage.value);
    ConflictFailsBesidePair(presets, npus0, first, s, s.counter + 1, w, other);
  }

  // ---------------------------------------------------------------- an input that conflicts

  const ONE_PRESET: seq<Option<Preset>> := [Some(Preset("p", "inference", None))]

  const ONE_SLICE: State := State([Some(Npu("n", "host", [Slice("s1", "available", None)]))], [], 0, map[])

  function Claim(name: string): DeployRequest {
    DeployRequest("p", "ns", name, 1, Some(Scheduling("manual", [["s1"]])))
  }

  lemma OneSliceOnly()
    ensures Unique(ONE_SLICE.npus)
    ensures forall id :: Known(ONE_SLICE.npus, id) <==> id == "s1"
    ensures Available(ONE_SLICE.npus, "s1")
  {
    var npus := ONE_SLICE.npus;
    assert forall p :: Has(npus, p) <==> p == Pos(0, 0);
    assert SliceAt(npus, Pos(0, 0)).id == "s1";
  }

  lemma OneEntry(name: string)
    ensures ManualIds(Claim(name).scheduling) == ["s1"]
  {
    assert Claim(name).scheduling.value.manualPlacement[..0] == [];
    assert Flatten([]) == [];
  }

  lemma ClaimAccepted(name: string)
    ensures Check(ONE_PRESET, Some(Claim(name))) == Ok(Plan(true, 1, 1, "inference"))
    ensures Deploy(ONE_PRESET, ONE_SLICE, Some(Claim(name))).1.Ok?
  {
    Text.NotBlank("p");
    Text.NotBlank("ns");
    assert Times(1, PerReplica(ONE_PRESET[0].value)) == 1;
    OneSliceOnly();
    OneEntry(name);
    PickExact(ONE_SLICE.npus, Plan(true, 1, 1, "inference"), Claim(name).scheduling);
    FailedDeployChangesNothing(ONE_PRESET, ONE_SLICE, Some(Claim(name)));
  }

  lemma ClaimTakesTheSlice(name: string)
    ensures "s1" in NewestSlices(Deploy(ONE_PRESET, ONE_SLICE, Some(Claim(name))).0)
  {
    ClaimAccepted(name);
    OneSliceOnly();
    var w := DeployCreates(ONE_PRESET, ONE_SLICE, Claim(name));
    assert w.usage.value[0] in w.usage.value;
  }

  /** Two deploys that list the one slice: the second succeeds alone and fails beside the first,
      so once the first is deleted its workload is missing. */
  lemma ConflictExample()
    ensures var beside := Deploy(ONE_PRESET, ONE_SLICE, Some(Claim("first"))).0;
      && Deploy(ONE_PRESET, ONE_SLICE, Some(Claim("first"))).1.Ok?
      && Deploy(ONE_PRESET, ONE_SLICE, Some(Claim("second"))).1.Ok?
      && Deploy(ONE_PRESET, beside, Some(Claim("second"))).1.Err?
  {
    ClaimAccepted("first");
    ClaimAccepted("second");
    ClaimTakesTheSlice("first");
    OneSliceOnly();
    OneEntry("second");
    RunsKeepOwnership(ONE_PRESET, ONE_SLICE, []);
    SecondClaimFails(ONE_PRESET, ONE_SLICE.npus, ONE_SLICE, Claim("first"), Claim("second"));
  }


  lemma BagWithout(a: seq<Workload>, b: seq<Workload>, i: nat)
    requires i < |a| && Bag(a) == Bag(b) + multiset{Erase(a[i])}
    ensures Bag(SwapDelete(a, i)) == Bag(b)
  {
    BagSwapDelete(a, i);
  }

  lemma CacheRestored(npus0: seq<Option<Npu>>, a: State, b: State, w: Workload)
    requires Unique(npus0) && SameShape(npus0, b.npus) && w.usage.Some?
    requires a.npus == Touch(b.npus, ToSet(w.usage.value), "allocated", Some(Owner(w.namespace, w.name)))
    requires forall x :: x in w.usage.value ==> Known(b.npus, x) && Lookup(b.npus, x).status == "available"
    ensures var back := Touch(a.npus, ToSet(w.usage.value), "available", None);
      SameStatuses(b.npus, back) && (CleanFree(b.npus) ==> back == b.npus)
  {
    ShapeFacts(npus0, b.npus);
    ReleaseRestores(b.npus, ToSet(w.usage.value), "allocated", Some(Owner(w.namespace, w.name)));
  }

  lemma IndexRestored(a: map<string, string>, b: map<string, string>, c: nat)
    requires SameIndex(a, b, c)
    ensures SameIndex(a - {DeployId(c)}, b, c)
  {
    forall k: nat | k != c ensures DeployId(k) != DeployId(c) {
      if DeployId(k) == DeployId(c) { DeployIdInjective(k, c); }
    }
  }
}
