/** What Deploy and DeleteDeploy keep over whole runs: who owns which slice, which ids are
    live, and that a live id leads delete to its own workload. */
module AllocatorRuns {
  import opened Wrappers
  import opened AllocatorSpec
  import Text

  // ---------------------------------------------------------------- the NPU cache

  ghost predicate SameShape(a: seq<Option<Npu>>, b: seq<Option<Npu>>) {
    && |a| == |b|
    && (forall i :: 0 <= i < |a| ==> a[i].Some? == b[i].Some?)
    && (forall i :: 0 <= i < |a| && a[i].Some? ==>
          a[i].value.id == b[i].value.id && a[i].value.nodeName == b[i].value.nodeName)
    && (forall i: nat :: i < |a| ==> Width(a, i) == Width(b, i))
    && (forall p :: Has(a, p) && Has(b, p) ==> SliceAt(a, p).id == SliceAt(b, p).id)
  }

  lemma SameCache(a: seq<Option<Npu>>, b: seq<Option<Npu>>)
    requires SameShape(a, b)
    requires forall p :: Has(a, p) && Has(b, p) ==> SliceAt(a, p) == SliceAt(b, p)
    ensures a == b
  {
    forall i: nat | i < |a| ensures a[i] == b[i] {
      if a[i].Some? {
        assert Width(a, i) == Width(b, i);
        forall j: nat | j < Width(a, i) ensures a[i].value.slices[j] == b[i].value.slices[j] {
          assert Has(a, Pos(i, j)) && Has(b, Pos(i, j));
          assert SliceAt(a, Pos(i, j)) == SliceAt(b, Pos(i, j));
        }
        assert a[i].value.slices == b[i].value.slices;
      }
    }
  }

  /** Touch rewrites exactly the named slices and keeps ids, nodes and order. */
  lemma TouchAt(npus: seq<Option<Npu>>, ids: set<string>, status: string, to: Option<Allocation>)
    ensures var t := Touch(npus, ids, status, to);
      && SameShape(npus, t)
      && (forall p :: Has(t, p) <==> Has(npus, p))
      && (forall p :: Has(t, p) && Has(npus, p) ==> SliceAt(t, p) == TouchSlice(SliceAt(npus, p), ids, status, to))
      && (forall p :: Has(t, p) && Has(npus, p) ==> NodeAt(t, p) == NodeAt(npus, p))
  {
  }

  lemma ShapeFacts(a: seq<Option<Npu>>, b: seq<Option<Npu>>)
    requires SameShape(a, b)
    ensures forall p :: Has(a, p) <==> Has(b, p)
    ensures Unique(a) ==> Unique(b)
    ensures forall id :: Known(a, id) <==> Known(b, id)
    ensures Unique(a) ==> forall id :: Known(a, id) && Known(b, id) ==> PosOf(a, id) == PosOf(b, id)
    ensures SameShape(b, a)
  {
    forall p ensures Has(a, p) <==> Has(b, p) {
      if p.npu < |a| { assert Width(a, p.npu) == Width(b, p.npu); }
    }
    forall id ensures Known(a, id) <==> Known(b, id) {
      if Known(a, id) { assert Has(b, PosOf(a, id)); }
      if Known(b, id) { assert Has(a, PosOf(b, id)); }
    }
    if Unique(a) {
      forall id | Known(a, id) && Known(b, id) ensures PosOf(a, id) == PosOf(b, id) {
        assert Has(a, PosOf(b, id));
      }
    }
  }

  lemma ShapeTransitive(a: seq<Option<Npu>>, b: seq<Option<Npu>>, c: seq<Option<Npu>>)
    requires SameShape(a, b) && SameShape(b, c)
    ensures SameShape(a, c)
  {
    ShapeFacts(a, b);
    ShapeFacts(b, c);
    forall i: nat | i < |a| ensures Width(a, i) == Width(c, i) {
      assert Width(a, i) == Width(b, i) == Width(c, i);
    }
  }

  /** The slice with a known id. */
  ghost function Lookup(npus: seq<Option<Npu>>, id: string): Slice
    requires Known(npus, id)
  {
    SliceAt(npus, PosOf(npus, id))
  }

  lemma LookupTouched(npus: seq<Option<Npu>>, ids: set<string>, status: string, to: Option<Allocation>)
    requires Unique(npus)
    ensures var t := Touch(npus, ids, status, to);
      && SameShape(npus, t) && Unique(t)
      && (forall id :: Known(t, id) <==> Known(npus, id))
      && (forall id :: Known(t, id) && Known(npus, id) ==>
          Lookup(t, id) == TouchSlice(Lookup(npus, id), ids, status, to))
  {
    TouchAt(npus, ids, status, to);
    ShapeFacts(npus, Touch(npus, ids, status, to));
  }

  /** Caches of one shape are equal when every known slice is. */
  lemma SameLookups(a: seq<Option<Npu>>, b: seq<Option<Npu>>)
    requires SameShape(a, b) && Unique(a)
    requires forall id :: Known(a, id) && Known(b, id) ==> Lookup(a, id) == Lookup(b, id)
    ensures a == b
  {
    ShapeFacts(a, b);
    forall p | Has(a, p) && Has(b, p) ensures SliceAt(a, p) == SliceAt(b, p) {
      var id := SliceAt(a, p).id;
      assert Known(a, id) && PosOf(a, id) == p;
      assert Known(b, id) && PosOf(b, id) == p;
    }
    SameCache(a, b);
  }

  // ---------------------------------------------------------------- keys, ids and names

  /** An index key splits back into its parts exactly when the namespace has no slash. */
  lemma {:induction false} SplitOfKey(namespace: string, name: string)
    ensures SplitFirst(Key(namespace, name)).Some?
    ensures SplitFirst(Key(namespace, name)).value == (namespace, name) <==> '/' !in namespace
  {
    var key := Key(namespace, name);
    if namespace == "" {
      assert key[1..] == name;
    } else {
      assert key[1..] == Key(namespace[1..], name);
      assert namespace == [namespace[0]] + namespace[1..];
      SplitOfKey(namespace[1..], name);
    }
  }

  lemma {:induction false} SplitHasNoSlash(key: string)
    requires SplitFirst(key).Some?
    ensures '/' !in SplitFirst(key).value.0
  {
    if key[0] != '/' {
      SplitHasNoSlash(key[1..]);
    }
  }

  lemma DeployIdInjective(j: nat, k: nat)
    requires DeployId(j) == DeployId(k)
    ensures j == k
  {
    assert DeployId(j)[2..] == Text.Itoa(j) && DeployId(k)[2..] == Text.Itoa(k);
    Text.ItoaInjective(j, k);
  }

  lemma DeployIdNotBlank(k: nat)
    ensures Text.TrimSpace(DeployId(k)) != ""
  {
    Text.NotBlank(DeployId(k));
  }

  lemma KeyInjective(namespace1: string, name1: string, namespace2: string, name2: string)
    requires '/' !in namespace1 && '/' !in namespace2
    requires Key(namespace1, name1) == Key(namespace2, name2)
    ensures namespace1 == namespace2 && name1 == name2
  {
    SplitOfKey(namespace1, name1);
    SplitOfKey(namespace2, name2);
  }

  lemma OwnerInjective(namespace1: string, name1: string, namespace2: string, name2: string)
    requires Owner(namespace1, name1) == Owner(namespace2, name2)
    ensures namespace1 == namespace2 && name1 == name2
  {
    assert name1 == (name1 + "-0")[..|name1 + "-0"| - 2];
    assert name2 == (name2 + "-0")[..|name2 + "-0"| - 2];
  }

  /** Generated names never repeat: not for one preset, and not across presets either. */
  lemma GeneratedNamesDiffer(a: DeployRequest, j: nat, b: DeployRequest, k: nat)
    requires Text.TrimSpace(a.name) == "" && Text.TrimSpace(b.name) == ""
    requires EffectiveName(a, j) == EffectiveName(b, k)
    ensures a.presetId == b.presetId && j == k
  {
    Text.DashThenNumber(a.presetId, j, b.presetId, k);
  }

  /** No workload has that namespace and name. */
  predicate Absent(ws: seq<Workload>, namespace: string, name: string) {
    forall j :: 0 <= j < |ws| ==> !Named(ws[j], namespace, name)
  }

  // ---------------------------------------------------------------- live deploys

  /** Nothing else has the name of the workload at `i`. */
  predicate Sole(ws: seq<Workload>, i: nat)
    requires i < |ws|
  {
    forall j :: 0 <= j < |ws| && Named(ws[j], ws[i].namespace, ws[i].name) ==> j == i
  }

  /** Workload `w` is what deploy `id` created. */
  predicate RecordOf(index: map<string, string>, id: string, w: Workload) {
    && id in index
    && w.deployId == id
    && w.usage.Some?
    && '/' !in w.namespace
    && index[id] == Key(w.namespace, w.name)
  }

  /** Deploy `id` is live: its workload stands at position `i`, alone with its name. */
  predicate LiveAt(ws: seq<Workload>, index: map<string, string>, id: string, i: nat) {
    i < |ws| && RecordOf(index, id, ws[i]) && Sole(ws, i)
  }

  ghost predicate Live(ws: seq<Workload>, index: map<string, string>, id: string) {
    exists i: nat :: LiveAt(ws, index, id, i)
  }

  ghost predicate Issued(counter: nat, id: string) {
    exists k: nat :: 1 <= k <= counter && id == DeployId(k)
  }

  /** Every id in the index was issued by the counter and is live. */
  ghost predicate IndexInv(ws: seq<Workload>, index: map<string, string>, counter: nat) {
    forall id :: id in index ==> Issued(counter, id) && Live(ws, index, id)
  }

  lemma AppendLive(ws: seq<Workload>, index: map<string, string>, counter: nat, w: Workload, id: string)
    requires IndexInv(ws, index, counter)
    requires w.deployId == id == DeployId(counter + 1) && w.usage.Some? && '/' !in w.namespace
    requires Absent(ws, w.namespace, w.name)
    ensures var ws', index' := ws + [w], index[id := Key(w.namespace, w.name)];
      && id !in index
      && LiveAt(ws', index', id, |ws|)
      && (forall x, i: nat :: LiveAt(ws, index, x, i) ==> LiveAt(ws', index', x, i))
      && (forall x, i: nat :: LiveAt(ws', index', x, i) ==> LiveAt(ws, index, x, i) || (x == id && i == |ws|))
  {
    var ws', index' := ws + [w], index[id := Key(w.namespace, w.name)];
    if id in index {
      var k: nat :| 1 <= k <= counter && id == DeployId(k);
      DeployIdInjective(k, counter + 1);
    }
    forall x, i: nat | LiveAt(ws, index, x, i) ensures LiveAt(ws', index', x, i) {
      assert !Named(ws[i], w.namespace, w.name);
    }
    forall x, i: nat | LiveAt(ws', index', x, i) ensures LiveAt(ws, index, x, i) || (x == id && i == |ws|) {
      if i < |ws| {
        assert ws'[i] == ws[i];
        if x == id {
          KeyInjective(ws[i].namespace, ws[i].name, w.namespace, w.name);
        } else {
          forall j | 0 <= j < |ws| && Named(ws[j], ws[i].namespace, ws[i].name) ensures j == i {
            assert ws'[j] == ws[j];
          }
        }
      }
    }
  }

  /** Where the survivors of a swap-delete come from. */
  function From(n: nat, i: nat, j: nat): nat
    requires i < n
  {
    if j == i then n - 1 else j
  }

  /** Where they go. */
  function To(n: nat, i: nat, m: nat): nat {
    if m == n - 1 then i else m
  }

  lemma SwapDeleteAt(ws: seq<Workload>, i: nat)
    requires i < |ws|
    ensures var ws', n := SwapDelete(ws, i), |ws|;
      && |ws'| == n - 1
      && (forall j: nat :: j < n - 1 ==> From(n, i, j) != i && ws'[j] == ws[From(n, i, j)])
      && (forall m: nat :: m < n && m != i ==>
            To(n, i, m) < n - 1 && From(n, i, To(n, i, m)) == m && ws'[To(n, i, m)] == ws[m])
  {
  }

  lemma SwapDeleteLive(ws: seq<Workload>, index: map<string, string>, id: string, i: nat)
    requires LiveAt(ws, index, id, i)
    ensures var ws', index' := SwapDelete(ws, i), index - {id};
      && (forall x, m: nat :: LiveAt(ws, index, x, m) && x != id ==> LiveAt(ws', index', x, To(|ws|, i, m)))
      && (forall x, j: nat :: LiveAt(ws', index', x, j) ==> x != id && LiveAt(ws, index, x, From(|ws|, i, j)))
  {
    var ws', index', n := SwapDelete(ws, i), index - {id}, |ws|;
    SwapDeleteAt(ws, i);
    forall x, m: nat | LiveAt(ws, index, x, m) && x != id ensures LiveAt(ws', index', x, To(n, i, m)) {
      assert m != i;
      forall j: nat | j < n - 1 && Named(ws'[j], ws[m].namespace, ws[m].name) ensures j == To(n, i, m) {
        assert From(n, i, j) == m;
      }
    }
    forall x, j: nat | LiveAt(ws', index', x, j)
      ensures x != id && LiveAt(ws, index, x, From(n, i, j)) {
      SurvivorSole(ws, index, id, i, j);
    }
  }

  lemma SurvivorSole(ws: seq<Workload>, index: map<string, string>, id: string, i: nat, j: nat)
    requires LiveAt(ws, index, id, i)
    requires j < |ws| - 1 && Sole(SwapDelete(ws, i), j)
    ensures Sole(ws, From(|ws|, i, j))
  {
    var ws', n := SwapDelete(ws, i), |ws|;
    SwapDeleteAt(ws, i);
    var w := ws[From(n, i, j)];
    forall m: nat | m < n && Named(ws[m], w.namespace, w.name) ensures m == From(n, i, j) {
      assert Named(w, ws[m].namespace, ws[m].name);
      if m != i {
        assert Named(ws'[To(n, i, m)], ws'[j].namespace, ws'[j].name);
      }
    }
  }

  // ---------------------------------------------------------------- who holds what

  ghost predicate Owned(ws: seq<Workload>, index: map<string, string>, sliceId: string) {
    exists id, i: nat :: LiveAt(ws, index, id, i) && sliceId in ws[i].usage.value
  }

  /** A slice that came back from a deploy, or never left: its initial status, and its
      initial allocation record unless that was cleared on release. */
  predicate Restored(initial: Slice, now: Slice) {
    now == initial || (initial.status == "available" && now == initial.(allocatedTo := None))
  }

  /** A slice that was available at first and is now allocated to workload `w`. */
  ghost predicate HeldBy(npus0: seq<Option<Npu>>, npus: seq<Option<Npu>>, sliceId: string, w: Workload) {
    && Known(npus0, sliceId) && Lookup(npus0, sliceId).status == "available"
    && Known(npus, sliceId) && Lookup(npus, sliceId).status == "allocated"
    && Lookup(npus, sliceId).allocatedTo == Some(Owner(w.namespace, w.name))
  }

  ghost predicate LiveHold(npus0: seq<Option<Npu>>, npus: seq<Option<Npu>>, ws: seq<Workload>, index: map<string,
                           string>) {
    forall id, i: nat, x :: LiveAt(ws, index, id, i) && x in ws[i].usage.value ==> HeldBy(npus0, npus, x, ws[i])
  }

  ghost predicate RestUntouched(npus0: seq<Option<Npu>>, npus: seq<Option<Npu>>, ws: seq<Workload>, index: map<string,
                                string>) {
    forall x :: Known(npus0, x) && Known(npus, x) && !Owned(ws, index, x) ==>
        Restored(Lookup(npus0, x), Lookup(npus, x))
  }

  ghost predicate Inv(npus0: seq<Option<Npu>>, s: State) {
    && Unique(npus0) && SameShape(npus0, s.npus)
    && IndexInv(s.workloads, s.index, s.counter)
    && LiveHold(npus0, s.npus, s.workloads, s.index)
    && RestUntouched(npus0, s.npus, s.workloads, s.index)
  }

  /** A slice has one holder. */
  lemma HolderUnique(npus0: seq<Option<Npu>>, s: State, id1: string, i1: nat, id2: string, i2: nat, x: string)
    requires LiveHold(npus0, s.npus, s.workloads, s.index)
    requires LiveAt(s.workloads, s.index, id1, i1) && LiveAt(s.workloads, s.index, id2, i2)
    requires x in s.workloads[i1].usage.value && x in s.workloads[i2].usage.value
    ensures id1 == id2 && i1 == i2
  {
    var w1, w2 := s.workloads[i1], s.workloads[i2];
    assert HeldBy(npus0, s.npus, x, w1) && HeldBy(npus0, s.npus, x, w2);
    OwnerInjective(w1.namespace, w1.name, w2.namespace, w2.name);
    assert Named(w2, w1.namespace, w1.name);
  }

  /** No two live deploys share a slice. */
  lemma LiveDeploysAreDisjoint(npus0: seq<Option<Npu>>, s: State, id1: string, i1: nat, id2: string, i2: nat)
    requires Inv(npus0, s) && id1 != id2
    requires LiveAt(s.workloads, s.index, id1, i1) && LiveAt(s.workloads, s.index, id2, i2)
    ensures ToSet(s.workloads[i1].usage.value) !! ToSet(s.workloads[i2].usage.value)
  {
    forall x | x in s.workloads[i1].usage.value ensures x !in s.workloads[i2].usage.value {
      if x in s.workloads[i2].usage.value {
        HolderUnique(npus0, s, id1, i1, id2, i2, x);
      }
    }
  }

  // ---------------------------------------------------------------- Deploy keeps it

  /** The slices a deploy marks were known and free. */
  lemma PickedIds(npus: seq<Option<Npu>>, picked: seq<Pos>)
    requires Unique(npus) && AllIn(npus, picked)
    requires forall p :: p in picked ==> Has(npus, p) && SliceAt(npus, p).status == "available"
    ensures forall id :: id in SliceIds(npus, picked) ==> Known(npus, id) && Lookup(npus, id).status == "available"
  {
    var ids := SliceIds(npus, picked);
    forall id | id in ids ensures Known(npus, id) && Lookup(npus, id).status == "available" {
      var k :| 0 <= k < |ids| && ids[k] == id;
      assert Has(npus, picked[k]) && SliceAt(npus, picked[k]).id == id;
      assert PosOf(npus, id) == picked[k];
    }
  }

  /** Marking free slices for a new live deploy keeps ownership. */
  lemma MarkKeepsInv(npus0: seq<Option<Npu>>, s: State, t: State, w: Workload, ids: seq<string>)
    requires Inv(npus0, s)
    requires forall x :: x in ids ==> Known(s.npus, x) && Lookup(s.npus, x).status == "available"
    requires w.deployId == DeployId(s.counter + 1) && w.usage == Some(ids) && '/' !in w.namespace
    requires Absent(s.workloads, w.namespace, w.name)
    requires t == State(Touch(s.npus, ToSet(ids), "allocated", Some(Owner(w.namespace, w.name))), s.workloads + [w],
                        s.counter + 1, s.index[w.deployId := Key(w.namespace, w.name)])
    ensures Inv(npus0, t)
  {
    AppendLive(s.workloads, s.index, s.counter, w, w.deployId);
    forall id | id in t.index ensures Issued(t.counter, id) && Live(t.workloads, t.index, id) {
      if id != w.deployId {
        assert Issued(s.counter, id) && Live(s.workloads, s.index, id);
      }
    }
    ShapeFacts(npus0, s.npus);
    LookupTouched(s.npus, ToSet(ids), "allocated", Some(Owner(w.namespace, w.name)));
    ShapeTransitive(npus0, s.npus, t.npus);
    MarkKeepsHold(npus0, s, t, w, ids);
    forall x | Owned(s.workloads, s.index, x) ensures Owned(t.workloads, t.index, x) {
      var id, i: nat :| LiveAt(s.workloads, s.index, id, i) && x in s.workloads[i].usage.value;
      assert LiveAt(t.workloads, t.index, id, i) && t.workloads[i] == s.workloads[i];
    }
    forall x | x in ids ensures Owned(t.workloads, t.index, x) {
      assert LiveAt(t.workloads, t.index, w.deployId, |s.workloads|) && t.workloads[|s.workloads|] == w;
    }
  }

  lemma MarkKeepsHold(npus0: seq<Option<Npu>>, s: State, t: State, w: Workload, ids: seq<string>)
    requires Inv(npus0, s)
    requires forall x :: x in ids ==> Known(s.npus, x) && Lookup(s.npus, x).status == "available"
    requires w.usage == Some(ids) && t.workloads == s.workloads + [w]
    requires t.npus == Touch(s.npus, ToSet(ids), "allocated", Some(Owner(w.namespace, w.name)))
    requires forall id, i: nat :: LiveAt(t.workloads, t.index, id, i) ==>
        LiveAt(s.workloads, s.index, id, i) || i == |s.workloads|
    ensures LiveHold(npus0, t.npus, t.workloads, t.index)
  {
    ShapeFacts(npus0, s.npus);
    LookupTouched(s.npus, ToSet(ids), "allocated", Some(Owner(w.namespace, w.name)));
    forall id, i: nat, x | LiveAt(t.workloads, t.index, id, i) && x in t.workloads[i].usage.value
      ensures HeldBy(npus0, t.npus, x, t.workloads[i]) {
      if LiveAt(s.workloads, s.index, id, i) {
        assert t.workloads[i] == s.workloads[i];
        assert HeldBy(npus0, s.npus, x, s.workloads[i]);
      } else {
        assert t.workloads[i] == w && x in ids;
        assert Restored(Lookup(npus0, x), Lookup(s.npus, x));
      }
    }
  }

  // ---------------------------------------------------------------- DeleteDeploy keeps it

  /** The index entry of a live deploy leads to its own workload. */
  lemma KeyFindsOwn(ws: seq<Workload>, index: map<string, string>, id: string, i: nat)
    requires LiveAt(ws, index, id, i)
    ensures SplitFirst(index[id]) == Some((ws[i].namespace, ws[i].name))
    ensures FindWorkload(ws, ws[i].namespace, ws[i].name) == i
  {
    SplitOfKey(ws[i].namespace, ws[i].name);
    assert Named(ws[i], ws[i].namespace, ws[i].name);
  }

  lemma DeleteUnfolds(s: State, id: string, namespace: string, name: string)
    requires Text.TrimSpace(id) != "" && id in s.index && SplitFirst(s.index[id]) == Some((namespace, name))
    ensures var i := FindWorkload(s.workloads, namespace, name);
      Delete(s, id) ==
        if i == |s.workloads| then (s.(index := s.index - {id}), Some(DeployNotFound))
        else (State(Touch(s.npus, Released(s.workloads[i]), "available", None),
                    SwapDelete(s.workloads, i), s.counter, s.index - {id}), None)
  {
  }

  /** Deleting a live deploy removes its own workload and frees its own slices. */
  lemma DeleteFindsOwn(s: State, id: string, i: nat)
    requires IndexInv(s.workloads, s.index, s.counter) && LiveAt(s.workloads, s.index, id, i)
    ensures Delete(s, id) == (State(Touch(s.npus, ToSet(s.workloads[i].usage.value), "available", None),
                                    SwapDelete(s.workloads, i), s.counter, s.index - {id}), None)
  {
    KeyFindsOwn(s.workloads, s.index, id, i);
    DeleteUnfolds(s, id, s.workloads[i].namespace, s.workloads[i].name);
  }

  lemma DeleteKeepsInv(npus0: seq<Option<Npu>>, s: State, id: string, i: nat)
    requires Inv(npus0, s) && LiveAt(s.workloads, s.index, id, i)
    ensures Inv(npus0, Delete(s, id).0)
  {
    DeleteFindsOwn(s, id, i);
    ReleaseKeepsInv(npus0, s, Delete(s, id).0, id, i);
  }

  /** Releasing one live deploy keeps the ownership of all others. */
  lemma ReleaseKeepsInv(npus0: seq<Option<Npu>>, s: State, t: State, id: string, i: nat)
    requires Inv(npus0, s) && LiveAt(s.workloads, s.index, id, i)
    requires t == State(Touch(s.npus, ToSet(s.workloads[i].usage.value), "available", None),
                        SwapDelete(s.workloads, i), s.counter, s.index - {id})
    ensures Inv(npus0, t)
  {
    ShapeFacts(npus0, s.npus);
    LookupTouched(s.npus, ToSet(s.workloads[i].usage.value), "available", None);
    ShapeTransitive(npus0, s.npus, t.npus);
    ReleaseKeepsIndex(s, t, id, i);
    ReleaseKeepsHold(npus0, s, t, id, i);
    forall y | Known(npus0, y) && Known(t.npus, y) && !Owned(t.workloads, t.index, y)
      ensures Restored(Lookup(npus0, y), Lookup(t.npus, y)) {
      if y in s.workloads[i].usage.value {
        assert HeldBy(npus0, s.npus, y, s.workloads[i]);
      } else {
        OwnedSurvives(s, t, id, i, y);
      }
    }
  }

  lemma ReleaseKeepsHold(npus0: seq<Option<Npu>>, s: State, t: State, id: string, i: nat)
    requires Inv(npus0, s) && LiveAt(s.workloads, s.index, id, i)
    requires t.workloads == SwapDelete(s.workloads, i) && t.index == s.index - {id}
    requires t.npus == Touch(s.npus, ToSet(s.workloads[i].usage.value), "available", None)
    ensures LiveHold(npus0, t.npus, t.workloads, t.index)
  {
    ShapeFacts(npus0, s.npus);
    LookupTouched(s.npus, ToSet(s.workloads[i].usage.value), "available", None);
    SwapDeleteLive(s.workloads, s.index, id, i);
    SwapDeleteAt(s.workloads, i);
    forall x, j: nat, y | LiveAt(t.workloads, t.index, x, j) && y in t.workloads[j].usage.value
      ensures HeldBy(npus0, t.npus, y, t.workloads[j]) {
      var from := From(|s.workloads|, i, j);
      assert LiveAt(s.workloads, s.index, x, from) && t.workloads[j] == s.workloads[from];
      assert HeldBy(npus0, s.npus, y, s.workloads[from]);
      LiveDeploysAreDisjoint(npus0, s, id, i, x, from);
    }
  }

  lemma ReleaseKeepsIndex(s: State, t: State, id: string, i: nat)
    requires IndexInv(s.workloads, s.index, s.counter) && LiveAt(s.workloads, s.index, id, i)
    requires t.workloads == SwapDelete(s.workloads, i) && t.index == s.index - {id} && t.counter == s.counter
    ensures IndexInv(t.workloads, t.index, t.counter)
  {
    SwapDeleteLive(s.workloads, s.index, id, i);
    forall x | x in t.index ensures Issued(t.counter, x) && Live(t.workloads, t.index, x) {
      assert Issued(s.counter, x) && Live(s.workloads, s.index, x);
      var m: nat :| LiveAt(s.workloads, s.index, x, m);
      assert LiveAt(t.workloads, t.index, x, To(|s.workloads|, i, m));
    }
  }

  lemma OwnedSurvives(s: State, t: State, id: string, i: nat, y: string)
    requires LiveAt(s.workloads, s.index, id, i) && y !in s.workloads[i].usage.value
    requires t.workloads == SwapDelete(s.workloads, i) && t.index == s.index - {id}
    ensures Owned(s.workloads, s.index, y) ==> Owned(t.workloads, t.index, y)
  {
    SwapDeleteLive(s.workloads, s.index, id, i);
    SwapDeleteAt(s.workloads, i);
    if Owned(s.workloads, s.index, y) {
      var x, m: nat :| LiveAt(s.workloads, s.index, x, m) && y in s.workloads[m].usage.value;
      assert m != i;
      assert x != id by {
        if x == id {
          KeyFindsOwn(s.workloads, s.index, x, m);
          KeyFindsOwn(s.workloads, s.index, id, i);
        }
      }
      assert LiveAt(t.workloads, t.index, x, To(|s.workloads|, i, m));
    }
  }

  /** In a run every indexed deploy still has its workload, so delete succeeds exactly on the
      live ids and changes nothing otherwise. */
  lemma DeleteExact(npus0: seq<Option<Npu>>, s: State, id: string)
    requires Inv(npus0, s)
    ensures Delete(s, id).1.None? <==> id in s.index
    ensures Delete(s, id).1.Some? ==> Delete(s, id).0 == s
  {
    if id in s.index {
      assert Live(s.workloads, s.index, id);
      var i: nat :| LiveAt(s.workloads, s.index, id, i);
      DeleteFindsOwn(s, id, i);
    }
  }

  // ---------------------------------------------------------------- whole runs

  /** A cache as loaded: unique slice ids and no deploy yet. */
  ghost predicate Loaded(s: State) {
    Unique(s.npus) && s.index == map[]
  }

  datatype Op = DeployOp(req: Option<DeployRequest>) | DeleteOp(id: string)

  ghost function Step(presets: seq<Option<Preset>>, s: State, op: Op): State {
    match op
    case DeployOp(req) => Deploy(presets, s, req).0
    case DeleteOp(id) => Delete(s, id).0
  }

  /** The caller's side of the bargain: a namespace without slash, and a name not in use. */
  predicate FreshName(s: State, req: DeployRequest) {
    '/' !in req.namespace && Absent(s.workloads, req.namespace, EffectiveName(req, s.counter + 1))
  }

  predicate FreshOp(s: State, op: Op) {
    op.DeployOp? && op.req.Some? ==> FreshName(s, op.req.value)
  }

  ghost function Run(presets: seq<Option<Preset>>, s: State, ops: seq<Op>): State {
    if ops == [] then s else Step(presets, Run(presets, s, ops[..|ops| - 1]), ops[|ops| - 1])
  }

  ghost predicate FreshRun(presets: seq<Option<Preset>>, s: State, ops: seq<Op>) {
    ops == [] ||
    (FreshRun(presets, s, ops[..|ops| - 1]) && FreshOp(Run(presets, s, ops[..|ops| - 1]), ops[|ops| - 1]))
  }

  lemma DeployKeepsInv(presets: seq<Option<Preset>>, npus0: seq<Option<Npu>>, s: State, req: Option<DeployRequest>)
    requires Inv(npus0, s) && FreshOp(s, DeployOp(req))
    ensures Inv(npus0, Deploy(presets, s, req).0)
  {
    var picked := Picks(presets, s, req);
    if picked.Ok? {
      var plan := Check(presets, req).value;
      PickIsFree(s.npus, plan, req.value.scheduling);
      ShapeFacts(npus0, s.npus);
      PickedIds(s.npus, picked.value);
      MarkKeepsInv(npus0, s, Commit(s, req.value, plan, picked.value), NewWorkload(s, req.value, plan, picked.value),
                   SliceIds(s.npus, picked.value));
    }
  }

  lemma StepKeepsInv(presets: seq<Option<Preset>>, npus0: seq<Option<Npu>>, s: State, op: Op)
    requires Inv(npus0, s) && FreshOp(s, op)
    ensures Inv(npus0, Step(presets, s, op))
  {
    match op
    case DeployOp(req) => DeployKeepsInv(presets, npus0, s, req);
    case DeleteOp(id) =>
      DeleteExact(npus0, s, id);
      if id in s.index {
        assert Live(s.workloads, s.index, id);
        var i: nat :| LiveAt(s.workloads, s.index, id, i);
        DeleteKeepsInv(npus0, s, id, i);
      }
  }

  /** In every run of deploys with fresh names and of deletes of any ids: each live deploy's
      slices are allocated to its own workload, no two live deploys share one, and every
      other slice has its initial status. */
  lemma {:induction false} RunsKeepOwnership(presets: seq<Option<Preset>>, s0: State, ops: seq<Op>)
    requires Loaded(s0) && FreshRun(presets, s0, ops)
    ensures Inv(s0.npus, Run(presets, s0, ops))
  {
    if ops != [] {
      RunsKeepOwnership(presets, s0, ops[..|ops| - 1]);
      StepKeepsInv(presets, s0.npus, Run(presets, s0, ops[..|ops| - 1]), ops[|ops| - 1]);
    }
  }
}
