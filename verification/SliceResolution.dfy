/** Resolving NPUs to slices from the slice-pool CRDs
    (backend/pkg/datasource/crd/resolution.go, pools.go): which pool serves an NPU, which
    slices it yields, and that neither depends on the order the API server lists things in. */
module SliceResolution {
  import opened Wrappers
  import opened Sorting
  import Text

  datatype Template = Template(name: string, aiCore: int, memoryMiB: int)

  datatype Pool = Pool(name: string, namespace: string, npuPoolRef: string, strategy: string, templates: seq<Template>)

  datatype Npu = Npu(id: string, nodeName: string, model: string, hccsGroup: string, sliceMode: string)

  datatype Slice = Slice(id: string, parentNpu: string, template: Template, status: string)

  // ---------------------------------------------------------------- the order of the pools

  /** The order ListNPUSlicePools leaves: by namespace, then by name. */
  predicate ByNamespace(a: Pool, b: Pool) {
    if a.namespace != b.namespace then Text.AtMost(a.namespace, b.namespace) else Text.AtMost(a.name, b.name)
  }

  predicate ByName(a: Pool, b: Pool) {
    Text.AtMost(a.name, b.name)
  }

  /** By name, then by namespace: what sorting twice amounts to. */
  predicate ByNameFirst(a: Pool, b: Pool) {
    ByName(a, b) && (ByName(b, a) ==> ByNamespace(a, b))
  }

  predicate ById(a: Slice, b: Slice) {
    Text.AtMost(a.id, b.id)
  }

  function PoolOf(p: Option<Pool>): seq<Pool> {
    if p.Some? then [p.value] else []
  }

  /** The listed objects that could be read as pools. */
  function Present(listed: seq<Option<Pool>>): seq<Pool> {
    Gather(PoolOf, listed)
  }

  function Listed(listed: seq<Option<Pool>>): seq<Pool> {
    StableSort(ByNamespace, Present(listed))
  }

  function Ordered(listed: seq<Option<Pool>>): seq<Pool> {
    StableSort(ByName, Listed(listed))
  }

  // ---------------------------------------------------------------- pool and slices of one NPU

  predicate HasPrefix(s: string, prefix: string) {
    |prefix| <= |s| && s[..|prefix|] == prefix
  }

  predicate HasSuffix(s: string, suffix: string) {
    |suffix| <= |s| && s[|s| - |suffix|..] == suffix
  }

  predicate Matches(npu: Npu, pool: Pool) {
    && pool.npuPoolRef != ""
    && (HasSuffix(npu.hccsGroup, pool.npuPoolRef) || npu.model == pool.npuPoolRef ||
        HasPrefix(npu.nodeName, pool.npuPoolRef))
  }

  function FirstMatch(npu: Npu, pools: seq<Pool>): Option<Pool> {
    if pools == [] then None else if Matches(npu, pools[0]) then Some(pools[0]) else FirstMatch(npu, pools[1..])
  }

  function Pick(npu: Npu, pools: seq<Pool>): Option<Pool> {
    if pools == [] then None
    else if FirstMatch(npu, pools).Some? then FirstMatch(npu, pools)
    else Some(pools[0])
  }

  function SliceId(npuId: string, index: nat): string {
    npuId + "-slice-" + Text.Itoa(index)
  }

  /** The templates of the slices one NPU gets. */
  function Templates(pool: Pool): seq<Template> {
    if pool.strategy == "FixedTemplate" then pool.templates
    else if pool.strategy == "Dynamic" then [Template("dynamic", 0, 0), Template("dynamic", 0, 0)]
    else []
  }

  function Generate(npu: Npu, pool: Pool): seq<Slice> {
    seq(|Templates(pool)|, i requires 0 <= i < |Templates(pool)| =>
      Slice(SliceId(npu.id, i), npu.id, Templates(pool)[i], "available"))
  }

  predicate Sliced(npu: Option<Npu>) {
    npu.Some? && npu.value.sliceMode != "whole"
  }

  function SlicesOf(npu: Option<Npu>, pools: seq<Pool>): seq<Slice> {
    if !Sliced(npu) || Pick(npu.value, pools).None? then [] else Generate(npu.value, Pick(npu.value, pools).value)
  }

  function Cutter(pools: seq<Pool>): Option<Npu> -> seq<Slice> {
    npu => SlicesOf(npu, pools)
  }

  function Collected(npus: seq<Option<Npu>>, pools: seq<Pool>): seq<Slice> {
    Gather(Cutter(pools), npus)
  }

  function Resolve(npus: seq<Option<Npu>>, listed: seq<Option<Pool>>): seq<Slice> {
    StableSort(ById, Collected(npus, Ordered(listed)))
  }

  // ---------------------------------------------------------------- the loops

  method PickPool(npu: Npu, pools: seq<Pool>) returns (r: Option<Pool>)
    ensures r == Pick(npu, pools)
  {
    if |pools| == 0 {
      return None;
    }
    var i := 0;
    while i < |pools|
      invariant 0 <= i <= |pools|
      invariant FirstMatch(npu, pools) == FirstMatch(npu, pools[i..])
    {
      var p := pools[i];
      assert pools[i..][0] == p && pools[i..][1..] == pools[i + 1..];
      if p.npuPoolRef != "" {
        if HasSuffix(npu.hccsGroup, p.npuPoolRef) {
          return Some(p);
        }
        if npu.model == p.npuPoolRef {
          return Some(p);
        }
        if HasPrefix(npu.nodeName, p.npuPoolRef) {
          return Some(p);
        }
      }
      i := i + 1;
    }
    return Some(pools[0]);
  }

  method GenerateSlices(npu: Npu, pool: Pool) returns (out: seq<Slice>)
    ensures out == Generate(npu, pool)
  {
    out := [];
    if pool.strategy == "FixedTemplate" {
      for i := 0 to |pool.templates|
        invariant out == Generate(npu, pool)[..i]
      {
        out := out + [Slice(SliceId(npu.id, i), npu.id, pool.templates[i], "available")];
      }
    } else if pool.strategy == "Dynamic" {
      for i := 0 to 2
        invariant out == Generate(npu, pool)[..i]
      {
        out := out + [Slice(SliceId(npu.id, i), npu.id, Template("dynamic", 0, 0), "available")];
      }
    }
  }

  method ListPools(listed: seq<Option<Pool>>) returns (pools: seq<Pool>)
    ensures pools == Listed(listed)
  {
    pools := [];
    for i := 0 to |listed|
      invariant pools == Present(listed[..i])
    {
      assert listed[..i + 1][..i] == listed[..i];
      if listed[i].Some? {
        pools := pools + [listed[i].value];
      }
    }
    assert listed[..|listed|] == listed;
    pools := StableSort(ByNamespace, pools);
  }

  method ResolveSlicesForNpus(npus: seq<Option<Npu>>, listed: seq<Option<Pool>>) returns (out: seq<Slice>)
    ensures out == Resolve(npus, listed)
  {
    if |npus| == 0 {
      return [];
    }
    var pools := ListPools(listed);
    if |pools| == 0 {
      NoPoolsNoSlices(npus);
      return [];
    }
    pools := StableSort(ByName, pools);
    out := [];
    for i := 0 to |npus|
      invariant out == Collected(npus[..i], pools)
    {
      assert npus[..i + 1][..i] == npus[..i];
      if npus[i].Some? && npus[i].value.sliceMode != "whole" {
        var pool := PickPool(npus[i].value, pools);
        if pool.Some? {
          var slices := GenerateSlices(npus[i].value, pool.value);
          out := out + slices;
        }
      }
    }
    assert npus[..|npus|] == npus;
    out := StableSort(ById, out);
  }

  lemma {:induction false} NoPoolsNoSlices(npus: seq<Option<Npu>>)
    ensures Collected(npus, []) == []
  {
    if npus != [] {
      NoPoolsNoSlices(npus[..|npus| - 1]);
    }
  }

  // ---------------------------------------------------------------- the orders are orders

  lemma NamespaceOrder()
    ensures TotalPreorder(ByNamespace)
  {
    forall x: Pool, y: Pool ensures ByNamespace(x, y) || ByNamespace(y, x) {
      Text.LessTotal(x.namespace, y.namespace);
      Text.LessTotal(x.name, y.name);
    }
    forall x: Pool, y: Pool, z: Pool | ByNamespace(x, y) && ByNamespace(y, z) ensures ByNamespace(x, z) {
      NamespaceTransitive(x, y, z);
    }
  }

  lemma NamespaceTransitive(x: Pool, y: Pool, z: Pool)
    requires ByNamespace(x, y) && ByNamespace(y, z)
    ensures ByNamespace(x, z)
  {
    Text.LessTotal(x.namespace, y.namespace);
    Text.LessTotal(y.namespace, z.namespace);
    if x.namespace == y.namespace == z.namespace {
      Text.AtMostTransitive(x.name, y.name, z.name);
    } else if x.namespace != y.namespace && y.namespace != z.namespace {
      Text.LessTransitive(x.namespace, y.namespace, z.namespace);
      Text.LessTotal(x.namespace, z.namespace);
    }
  }

  lemma NameOrder()
    ensures TotalPreorder(ByName)
  {
    forall x: Pool, y: Pool ensures ByName(x, y) || ByName(y, x) {
      Text.LessTotal(x.name, y.name);
    }
    forall x: Pool, y: Pool, z: Pool | ByName(x, y) && ByName(y, z) ensures ByName(x, z) {
      Text.AtMostTransitive(x.name, y.name, z.name);
    }
  }

  lemma NameFirstOrder()
    ensures TotalPreorder(ByNameFirst)
  {
    NameOrder();
    NamespaceOrder();
    forall x: Pool, y: Pool ensures ByNameFirst(x, y) || ByNameFirst(y, x) {
      assert (ByName(x, y) || ByName(y, x)) && (ByNamespace(x, y) || ByNamespace(y, x));
    }
    forall x: Pool, y: Pool, z: Pool | ByNameFirst(x, y) && ByNameFirst(y, z) ensures ByNameFirst(x, z) {
      assert ByName(x, z);
      if ByName(z, x) {
        assert ByName(z, y) && ByName(y, x);
        NamespaceTransitive(x, y, z);
      }
    }
  }

  lemma IdOrder()
    ensures TotalPreorder(ById)
  {
    forall x: Slice, y: Slice ensures ById(x, y) || ById(y, x) {
      Text.LessTotal(x.id, y.id);
    }
    forall x: Slice, y: Slice, z: Slice | ById(x, y) && ById(y, z) ensures ById(x, z) {
      Text.AtMostTransitive(x.id, y.id, z.id);
    }
  }

  /** Sorting stably by name what is already in namespace order is sorting by both. */
  lemma {:induction false} SortedTwice(pools: seq<Pool>)
    requires Sorted(ByNamespace, pools)
    ensures StableSort(ByName, pools) == StableSort(ByNameFirst, pools)
  {
    if pools != [] {
      var u, x := pools[..|pools| - 1], pools[|pools| - 1];
      SortedTwice(u);
      var r := StableSort(ByName, u);
      StableSortPerm(ByName, u);
      SameElements(r, u);
      forall i | 0 <= i < |r| ensures ByNamespace(r[i], x) {
        assert r[i] in u;
      }
      SameInsertion(r, x);
    }
  }

  lemma {:induction false} SameInsertion(r: seq<Pool>, x: Pool)
    requires forall i :: 0 <= i < |r| ==> ByNamespace(r[i], x)
    ensures InsertLast(ByName, r, x) == InsertLast(ByNameFirst, r, x)
  {
    if r != [] {
      SameInsertion(r[..|r| - 1], x);
    }
  }

  /** The pools reach the selection in the order of (name, namespace). */
  lemma OrderedByNameFirst(listed: seq<Option<Pool>>)
    ensures Sorted(ByNameFirst, Ordered(listed))
    ensures multiset(Ordered(listed)) == multiset(Present(listed))
  {
    NamespaceOrder();
    StableSortSorted(ByNamespace, Present(listed));
    StableSortPerm(ByNamespace, Present(listed));
    SortedTwice(Listed(listed));
    NameFirstOrder();
    StableSortSorted(ByNameFirst, Listed(listed));
    StableSortPerm(ByName, Listed(listed));
  }

  // ---------------------------------------------------------------- which pool

  lemma {:induction false} FirstMatchExact(npu: Npu, pools: seq<Pool>)
    ensures FirstMatch(npu, pools).None? ==> forall k :: 0 <= k < |pools| ==> !Matches(npu, pools[k])
    ensures FirstMatch(npu, pools).Some? ==>
      exists i :: 0 <= i < |pools| && FirstMatch(npu, pools) == Some(pools[i]) && Matches(npu, pools[i])
        && forall k :: 0 <= k < i ==> !Matches(npu, pools[k])
  {
    if pools != [] && !Matches(npu, pools[0]) {
      var rest := pools[1..];
      FirstMatchExact(npu, rest);
      forall k | 0 <= k < |pools| && FirstMatch(npu, pools).None? ensures !Matches(npu, pools[k]) {
        if k > 0 { assert pools[k] == rest[k - 1]; }
      }
      if FirstMatch(npu, rest).Some? {
        var i :| 0 <= i < |rest| && FirstMatch(npu, rest) == Some(rest[i]) && Matches(npu, rest[i])
          && forall k :: 0 <= k < i ==> !Matches(npu, rest[k]);
        forall k | 0 <= k < i + 1 ensures !Matches(npu, pools[k]) {
          if k > 0 { assert pools[k] == rest[k - 1]; }
        }
        assert pools[i + 1] == rest[i];
      }
    } else if pools != [] {
      assert FirstMatch(npu, pools) == Some(pools[0]);
    }
  }

  ghost predicate AnyMatch(npu: Npu, pools: seq<Pool>) {
    exists q :: q in pools && Matches(npu, q)
  }

  /** The matching pools are the candidates; all pools are, when none matches. */
  ghost predicate Candidate(npu: Npu, p: Pool, pools: seq<Pool>) {
    p in pools && (Matches(npu, p) || !AnyMatch(npu, pools))
  }

  /** Among the pools whose reference matches, the one with the smallest name serves the NPU;
      when none matches, the one with the smallest name of all.  Without pools, none does. */
  lemma PickIsLeast(npu: Npu, listed: seq<Option<Pool>>)
    ensures var pools, pick := Present(listed), Pick(npu, Ordered(listed));
      && (pick.None? <==> pools == [])
      && (pick.Some? ==> Candidate(npu, pick.value, pools))
      && (pick.Some? ==> forall q :: Candidate(npu, q, pools) ==> ByNameFirst(pick.value, q))
  {
    var s, pools := Ordered(listed), Present(listed);
    OrderedByNameFirst(listed);
    SameElements(s, pools);
    assert |multiset(s)| == |s| && |multiset(pools)| == |pools|;
    if s != [] {
      var k := PickFirst(npu, s);
      assert s[k] in pools;
      NameFirstOrder();
      forall q | Candidate(npu, q, pools) ensures ByNameFirst(s[k], q) {
        var j :| 0 <= j < |s| && s[j] == q;
        assert k <= j;
      }
    }
  }

  /** The pool picked is the first candidate in line. */
  lemma PickFirst(npu: Npu, s: seq<Pool>) returns (k: nat)
    requires s != []
    ensures k < |s| && Pick(npu, s) == Some(s[k]) && Candidate(npu, s[k], s)
    ensures forall j :: 0 <= j < k ==> !Candidate(npu, s[j], s)
  {
    FirstMatchExact(npu, s);
    k := 0;
    if FirstMatch(npu, s).Some? {
      k :| 0 <= k < |s| && FirstMatch(npu, s) == Some(s[k]) && Matches(npu, s[k])
        && forall j :: 0 <= j < k ==> !Matches(npu, s[j]);
      assert AnyMatch(npu, s);
    }
  }

  // ---------------------------------------------------------------- slice ids

  /** A slice id names its NPU and its position: digits contain no dash. */
  lemma SliceIdInjective(a: string, i: nat, b: string, j: nat)
    requires SliceId(a, i) == SliceId(b, j)
    ensures a == b && i == j
  {
    var infix := "-slice";
    assert SliceId(a, i) == (a + infix) + "-" + Text.Itoa(i);
    assert SliceId(b, j) == (b + infix) + "-" + Text.Itoa(j);
    Text.DashThenNumber(a + infix, i, b + infix, j);
    assert a == (a + infix)[..|a|] && b == (b + infix)[..|b|];
  }

  /** Two entries that are NPUs have different ids. */
  ghost predicate DistinctNpus(npus: seq<Option<Npu>>) {
    forall i, j :: 0 <= i < j < |npus| && npus[i].Some? && npus[j].Some? ==> npus[i].value.id != npus[j].value.id
  }

  ghost predicate DistinctIds(slices: seq<Slice>) {
    forall i, j :: 0 <= i < j < |slices| ==> slices[i].id != slices[j].id
  }

  /** Every slice is position `k` of an input NPU that is not used whole, cut by the pool
      that serves it; and every such position is there. */
  ghost predicate CutFrom(s: Slice, npu: Option<Npu>, k: nat, pools: seq<Pool>) {
    && Sliced(npu) && Pick(npu.value, pools).Some?
    && k < |Templates(Pick(npu.value, pools).value)|
    && s == Slice(SliceId(npu.value.id, k), npu.value.id, Templates(Pick(npu.value, pools).value)[k], "available")
  }

  ghost predicate Cut(s: Slice, npu: Option<Npu>, pools: seq<Pool>) {
    exists k: nat :: CutFrom(s, npu, k, pools)
  }

  lemma SlicesOfExact(npu: Option<Npu>, pools: seq<Pool>)
    ensures forall s :: s in SlicesOf(npu, pools) <==> Cut(s, npu, pools)
    ensures DistinctIds(SlicesOf(npu, pools))
  {
    var out := SlicesOf(npu, pools);
    forall s ensures s in out <==> Cut(s, npu, pools) {
      if s in out {
        var k: nat :| k < |out| && out[k] == s;
        assert CutFrom(s, npu, k, pools);
      }
      if Cut(s, npu, pools) {
        var k: nat :| CutFrom(s, npu, k, pools);
        assert out[k] == s;
      }
    }
    forall i, j | 0 <= i < j < |out| ensures out[i].id != out[j].id {
      if out[i].id == out[j].id {
        SliceIdInjective(npu.value.id, i, npu.value.id, j);
      }
    }
  }

  lemma CollectedExact(npus: seq<Option<Npu>>, pools: seq<Pool>)
    ensures forall s :: s in Collected(npus, pools) <==> exists npu :: npu in npus && Cut(s, npu, pools)
  {
    forall s ensures s in Collected(npus, pools) <==> exists npu :: npu in npus && Cut(s, npu, pools) {
      GatherMembers(Cutter(pools), npus, s);
      forall npu { SlicesOfExact(npu, pools); }
    }
  }

  /** Slices of one NPU never share an id with slices of others. */
  lemma {:induction false} CollectedDistinct(npus: seq<Option<Npu>>, pools: seq<Pool>)
    requires DistinctNpus(npus)
    ensures DistinctIds(Collected(npus, pools))
  {
    if npus != [] {
      var u, x := npus[..|npus| - 1], npus[|npus| - 1];
      CollectedDistinct(u, pools);
      SlicesOfExact(x, pools);
      var before, here := Collected(u, pools), SlicesOf(x, pools);
      forall s, t | s in before && t in here ensures s.id != t.id {
        OtherNpuOtherId(npus, pools, s, t);
      }
      var all := before + here;
      forall i, j | 0 <= i < j < |all| ensures all[i].id != all[j].id {
        if i < |before| <= j {
          assert all[i] in before && all[j] in here;
        }
      }
    }
  }

  lemma OtherNpuOtherId(npus: seq<Option<Npu>>, pools: seq<Pool>, s: Slice, t: Slice)
    requires npus != [] && DistinctNpus(npus)
    requires s in Collected(npus[..|npus| - 1], pools) && t in SlicesOf(npus[|npus| - 1], pools)
    ensures s.id != t.id
  {
    var u, x := npus[..|npus| - 1], npus[|npus| - 1];
    CollectedExact(u, pools);
    SlicesOfExact(x, pools);
    var npu :| npu in u && Cut(s, npu, pools);
    var k: nat :| CutFrom(s, npu, k, pools);
    var l: nat :| CutFrom(t, x, l, pools);
    var i :| 0 <= i < |u| && u[i] == npu;
    assert npus[i] == npu && npus[i].value.id != x.value.id;
    if s.id == t.id {
      SliceIdInjective(npu.value.id, k, x.value.id, l);
    }
  }

  // ---------------------------------------------------------------- the result

  /** What resolution returns, for NPUs with distinct ids: exactly the slices cut from the
      NPUs that are not used whole, with pairwise distinct ids, in ascending order of id. */
  lemma ResolveExact(npus: seq<Option<Npu>>, listed: seq<Option<Pool>>)
    requires DistinctNpus(npus)
    ensures var out := Resolve(npus, listed);
      && (forall s :: s in out <==> exists npu :: npu in npus && Cut(s, npu, Ordered(listed)))
      && (forall i, j :: 0 <= i < j < |out| ==> Text.Less(out[i].id, out[j].id))
  {
    var pools := Ordered(listed);
    var raw, out := Collected(npus, pools), Resolve(npus, listed);
    CollectedExact(npus, pools);
    CollectedDistinct(npus, pools);
    StableSortPerm(ById, raw);
    SameElements(out, raw);
    IdOrder();
    StableSortSorted(ById, raw);
    DistinctStays(raw, out);
    forall i, j | 0 <= i < j < |out| ensures Text.Less(out[i].id, out[j].id) {
      assert ById(out[i], out[j]);
      Text.LessTotal(out[i].id, out[j].id);
    }
  }

  lemma DistinctStays(s: seq<Slice>, t: seq<Slice>)
    requires DistinctIds(s) && multiset(s) == multiset(t)
    ensures DistinctIds(t)
  {
    SameElements(s, t);
    DistinctPermutes(s, t);
    forall i, j | 0 <= i < j < |t| ensures t[i].id != t[j].id {
      assert t[i] in s && t[j] in s && t[i] != t[j];
    }
  }

  // ---------------------------------------------------------------- order independence

  /** The API server may list NPUs and pools in any order: as long as NPU ids and pool
      (namespace, name) pairs are distinct, the answer is the same sequence. */
  lemma ResolveIgnoresOrder(npus: seq<Option<Npu>>, npus': seq<Option<Npu>>, listed: seq<Option<Pool>>,
                            listed': seq<Option<Pool>>)
    requires multiset(npus) == multiset(npus') && DistinctNpus(npus)
    requires multiset(listed) == multiset(listed') && DistinctPools(listed)
    ensures Resolve(npus, listed) == Resolve(npus', listed')
  {
    PoolOrderIgnored(listed, listed');
    var pools := Ordered(listed);
    GatherPermutes(Cutter(pools), npus, npus');
    CollectedDistinct(npus, pools);
    IdOrder();
    var raw := Collected(npus, pools);
    forall x, y | x in raw && y in raw && ById(x, y) && ById(y, x) ensures x == y {
      Text.LessTotal(x.id, y.id);
      var i :| 0 <= i < |raw| && raw[i] == x;
      var j :| 0 <= j < |raw| && raw[j] == y;
      assert !(i < j) && !(j < i);
    }
    SortIgnoresOrder(ById, raw, Collected(npus', pools));
  }

  ghost predicate DistinctPools(listed: seq<Option<Pool>>) {
    forall i, j :: 0 <= i < j < |listed| && listed[i].Some? && listed[j].Some? ==>
      !(listed[i].value.namespace == listed[j].value.namespace && listed[i].value.name == listed[j].value.name)
  }

  lemma PoolOrderIgnored(listed: seq<Option<Pool>>, listed': seq<Option<Pool>>)
    requires multiset(listed) == multiset(listed') && DistinctPools(listed)
    ensures Ordered(listed) == Ordered(listed')
  {
    GatherPermutes(PoolOf, listed, listed');
    NamespaceOrder();
    forall x, y | x in Present(listed) && y in Present(listed) && ByNamespace(x, y) && ByNamespace(y, x)
      ensures x == y {
      TiedPoolsSame(listed, x, y);
    }
    SortIgnoresOrder(ByNamespace, Present(listed), Present(listed'));
  }

  lemma TiedPoolsSame(listed: seq<Option<Pool>>, x: Pool, y: Pool)
    requires DistinctPools(listed) && x in Present(listed) && y in Present(listed)
    requires ByNamespace(x, y) && ByNamespace(y, x)
    ensures x == y
  {
    Text.LessTotal(x.namespace, y.namespace);
    Text.LessTotal(x.name, y.name);
    PresentFrom(listed, x);
    PresentFrom(listed, y);
    var i :| 0 <= i < |listed| && listed[i] == Some(x);
    var j :| 0 <= j < |listed| && listed[j] == Some(y);
    assert !(i < j) && !(j < i);
  }

  lemma PresentFrom(listed: seq<Option<Pool>>, p: Pool)
    requires p in Present(listed)
    ensures Some(p) in listed
  {
    GatherMembers(PoolOf, listed, p);
  }

  /** The last element of `s`, found in a rearrangement of it. */
  lemma Counterpart<T>(s: seq<T>, t: seq<T>) returns (k: nat)
    requires multiset(s) == multiset(t) && s != []
    ensures k < |t| && t[k] == s[|s| - 1]
    ensures multiset(s[..|s| - 1]) == multiset(t[..k] + t[k + 1..])
  {
    var x := s[|s| - 1];
    DropLast(s);
    SameElements(s, t);
    assert x in s && x in t;
    k :| 0 <= k < |t| && t[k] == x;
    TakeOut(t, k);
  }

  /** The bag of everything gathered. */
  ghost function Bag<S, T>(f: S -> seq<T>, s: seq<S>): multiset<T> {
    if s == [] then multiset{} else Bag(f, s[..|s| - 1]) + multiset(f(s[|s| - 1]))
  }

  lemma {:induction false} BagOfGather<S, T>(f: S -> seq<T>, s: seq<S>)
    ensures multiset(Gather(f, s)) == Bag(f, s)
  {
    if s != [] {
      BagOfGather(f, s[..|s| - 1]);
    }
  }

  lemma {:induction false} BagWithout<S, T>(f: S -> seq<T>, s: seq<S>, k: nat)
    requires k < |s|
    ensures Bag(f, s) == Bag(f, s[..k] + s[k + 1..]) + multiset(f(s[k]))
  {
    var n := |s| - 1;
    if k < n {
      var u := s[..n];
      BagWithout(f, u, k);
      assert u[..k] + u[k + 1..] == (s[..k] + s[k + 1..])[..n - 1];
      assert (s[..k] + s[k + 1..])[n - 1] == s[n];
    } else {
      assert s[..k] + s[k + 1..] == s[..n];
    }
  }

  lemma TakeOut<T>(t: seq<T>, k: nat)
    requires k < |t|
    ensures multiset(t) == multiset(t[..k] + t[k + 1..]) + multiset{t[k]}
  {
    assert t == t[..k] + [t[k]] + t[k + 1..];
  }

  lemma {:induction false} BagPermutes<S, T>(f: S -> seq<T>, s: seq<S>, t: seq<S>)
    requires multiset(s) == multiset(t)
    ensures Bag(f, s) == Bag(f, t)
  {
    assert |multiset(s)| == |s| && |multiset(t)| == |t|;
    if s != [] {
      var k := Counterpart(s, t);
      BagWithout(f, t, k);
      BagPermutes(f, s[..|s| - 1], t[..k] + t[k + 1..]);
    }
  }

  /** Gathering from a rearrangement gathers a rearrangement. */
  lemma GatherPermutes<S, T>(f: S -> seq<T>, s: seq<S>, t: seq<S>)
    requires multiset(s) == multiset(t)
    ensures multiset(Gather(f, s)) == multiset(Gather(f, t))
  {
    BagOfGather(f, s);
    BagOfGather(f, t);
    BagPermutes(f, s, t);
  }
}
