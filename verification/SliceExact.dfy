/** What slice resolution returns, said on the NPUs and on the pools as listed
    (backend/pkg/datasource/crd/resolution.go, pools.go). */
module SliceExact {
  import opened Wrappers
  import opened Sorting
  import opened SliceResolution
  import Text

  // ---------------------------------------------------------------- which pool serves

  /** The pool's reference ends the group of the NPU, is its model, or begins its node name. */
  ghost predicate RefersTo(pool: Pool, npu: Npu) {
    && pool.npuPoolRef != ""
    && ((exists front :: npu.hccsGroup == front + pool.npuPoolRef)
        || npu.model == pool.npuPoolRef
        || exists rest :: npu.nodeName == pool.npuPoolRef + rest)
  }

  lemma RefersIs(pool: Pool, npu: Npu)
    ensures RefersTo(pool, npu) <==> Matches(npu, pool)
  {
    var ref := pool.npuPoolRef;
    if HasSuffix(npu.hccsGroup, ref) {
      assert npu.hccsGroup == npu.hccsGroup[..|npu.hccsGroup| - |ref|] + ref;
    }
    if HasPrefix(npu.nodeName, ref) {
      assert npu.nodeName == ref + npu.nodeName[|ref|..];
    }
  }

  /** By name, and by namespace where the names are the same. */
  predicate StandsBefore(p: Pool, q: Pool) {
    || Text.Less(p.name, q.name)
    || (p.name == q.name && (Text.Less(p.namespace, q.namespace) || p.namespace == q.namespace))
  }

  lemma BeforeIs(p: Pool, q: Pool)
    ensures StandsBefore(p, q) <==> ByNameFirst(p, q)
  {
    Text.LessTotal(p.name, q.name);
    Text.LessTotal(p.namespace, q.namespace);
  }

  /** A pool that refers to the NPU; any pool when none does. */
  ghost predicate MayServe(pool: Pool, npu: Npu, listed: seq<Option<Pool>>) {
    Some(pool) in listed && (RefersTo(pool, npu) || forall q :: Some(q) in listed ==> !RefersTo(q, npu))
  }

  /** The first of these serves. */
  ghost predicate Serves(pool: Pool, npu: Npu, listed: seq<Option<Pool>>) {
    MayServe(pool, npu, listed) && forall q :: MayServe(q, npu, listed) ==> StandsBefore(pool, q)
  }

  lemma PresentIs(listed: seq<Option<Pool>>, p: Pool)
    ensures p in Present(listed) <==> Some(p) in listed
  {
    GatherMembers(PoolOf, listed, p);
    if Some(p) in listed {
      assert p in PoolOf(Some(p));
    }
  }

  lemma MayServeIs(pool: Pool, npu: Npu, listed: seq<Option<Pool>>)
    ensures MayServe(pool, npu, listed) <==> Candidate(npu, pool, Present(listed))
  {
    forall q ensures q in Present(listed) <==> Some(q) in listed {
      PresentIs(listed, q);
    }
    forall q ensures RefersTo(q, npu) <==> Matches(npu, q) {
      RefersIs(q, npu);
    }
  }

  lemma SameServer(p: Pool, q: Pool, npu: Npu, listed: seq<Option<Pool>>)
    requires DistinctPools(listed) && Serves(p, npu, listed) && Serves(q, npu, listed)
    ensures p == q
  {
    assert StandsBefore(p, q) && StandsBefore(q, p);
    Text.LessTotal(p.name, q.name);
    Text.LessTotal(p.namespace, q.namespace);
    var i :| 0 <= i < |listed| && listed[i] == Some(p);
    var j :| 0 <= j < |listed| && listed[j] == Some(q);
    assert !(i < j) && !(j < i);
  }

  /** The pool picked serves, and it is the only one that does when no two pools share both names. */
  lemma PickServes(npu: Npu, listed: seq<Option<Pool>>)
    ensures Pick(npu, Ordered(listed)).Some? ==> Serves(Pick(npu, Ordered(listed)).value, npu, listed)
    ensures DistinctPools(listed) ==>
      forall pool :: Serves(pool, npu, listed) ==> Pick(npu, Ordered(listed)) == Some(pool)
  {
    PickIsLeast(npu, listed);
    forall q ensures MayServe(q, npu, listed) <==> Candidate(npu, q, Present(listed)) {
      MayServeIs(q, npu, listed);
    }
    var pick := Pick(npu, Ordered(listed));
    if pick.Some? {
      forall q | MayServe(q, npu, listed) ensures StandsBefore(pick.value, q) {
        BeforeIs(pick.value, q);
      }
    }
    forall pool | DistinctPools(listed) && Serves(pool, npu, listed) ensures pick == Some(pool) {
      PresentIs(listed, pool);
      assert pool in Present(listed);
      SameServer(pick.value, pool, npu, listed);
    }
  }

  // ---------------------------------------------------------------- the slices

  /** Slice `k` of the NPU: of a fixed template the template at that place, of a dynamic pool one of
      two without a size. */
  predicate IsSlice(s: Slice, npu: Npu, pool: Pool, k: nat) {
    && s.id == npu.id + "-slice-" + Text.Itoa(k) && s.parentNpu == npu.id && s.status == "available"
    && if pool.strategy == "FixedTemplate" then k < |pool.templates| && s.template == pool.templates[k]
       else pool.strategy == "Dynamic" && k < 2 && s.template == Template("dynamic", 0, 0)
  }

  ghost predicate Yields(npu: Npu, s: Slice, listed: seq<Option<Pool>>) {
    npu.sliceMode != "whole" && exists pool, k: nat :: Serves(pool, npu, listed) && IsSlice(s, npu, pool, k)
  }

  lemma IsSliceIs(s: Slice, npu: Npu, pool: Pool, k: nat)
    ensures IsSlice(s, npu, pool, k) <==>
      k < |Templates(pool)| && s == Slice(SliceId(npu.id, k), npu.id, Templates(pool)[k], "available")
  {
  }

  lemma YieldsIs(npu: Npu, s: Slice, listed: seq<Option<Pool>>)
    ensures Cut(s, Some(npu), Ordered(listed)) ==> Yields(npu, s, listed)
    ensures DistinctPools(listed) && Yields(npu, s, listed) ==> Cut(s, Some(npu), Ordered(listed))
  {
    var pools := Ordered(listed);
    PickServes(npu, listed);
    if Cut(s, Some(npu), pools) {
      var k: nat :| CutFrom(s, Some(npu), k, pools);
      IsSliceIs(s, npu, Pick(npu, pools).value, k);
    }
    if DistinctPools(listed) && Yields(npu, s, listed) {
      var pool, k: nat :| Serves(pool, npu, listed) && IsSlice(s, npu, pool, k);
      IsSliceIs(s, npu, pool, k);
      assert CutFrom(s, Some(npu), k, pools);
    }
  }

  /** The result: the slices that the NPUs not used whole yield from the pools that serve them, in
      ascending order of id. */
  lemma SlicesAre(npus: seq<Option<Npu>>, listed: seq<Option<Pool>>)
    requires DistinctNpus(npus)
    ensures var out := Resolve(npus, listed);
      && (forall s :: s in out ==> exists npu :: Some(npu) in npus && Yields(npu, s, listed))
      && (DistinctPools(listed) ==> forall npu, s :: Some(npu) in npus && Yields(npu, s, listed) ==> s in out)
      && forall i, j :: 0 <= i < j < |out| ==> Text.Less(out[i].id, out[j].id)
  {
    ResolveExact(npus, listed);
    var out := Resolve(npus, listed);
    forall s | s in out ensures exists npu :: Some(npu) in npus && Yields(npu, s, listed) {
      var npu :| npu in npus && Cut(s, npu, Ordered(listed));
      YieldsIs(npu.value, s, listed);
      assert Some(npu.value) in npus;
    }
    forall npu, s | DistinctPools(listed) && Some(npu) in npus && Yields(npu, s, listed) ensures s in out {
      YieldsIs(npu, s, listed);
    }
  }
}
