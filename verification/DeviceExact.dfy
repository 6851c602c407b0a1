/** The NPUs read off pool status, said on the pools themselves: which listing of an id counts,
    and what each part of the id becomes (backend/pkg/datasource/crd/topology.go). */
module DeviceExact {
  import opened Wrappers
  import opened Sorting
  import opened DeviceIds
  import Text
  import T = TopologySpec
  import P = TopologyProofs

  // ---------------------------------------------------------------- the parts of an id

  /** The id is a node name, then the last separator, then `tail`. */
  ghost predicate Reads(id: string, node: string, tail: string) {
    && node != "" && id == node + "-npu-" + tail
    && forall a, b :: id == a + "-npu-" + b ==> |a| <= |node|
  }

  lemma StandsBetween(id: string, a: string, b: string)
    requires id == a + "-npu-" + b
    ensures StandsAt(id, "-npu-", |a|)
  {
    assert id[|a|..|a| + 5] == "-npu-";
  }

  lemma CutAt(id: string, k: int)
    requires StandsAt(id, "-npu-", k)
    ensures id == id[..k] + "-npu-" + id[k + 5..]
  {
    assert id == id[..k] + id[k..k + 5] + id[k + 5..];
  }

  lemma ReadsExact(id: string, node: string, tail: string)
    ensures Reads(id, node, tail) <==> NodeOf(id) == Some(node) && Suffix(id) == Some(tail)
  {
    var at := LastIndex(id, "-npu-");
    LastFromExact(id, "-npu-", |id| - 5);
    if Reads(id, node, tail) {
      StandsBetween(id, node, tail);
      assert StandsAt(id, "-npu-", at);
      CutAt(id, at);
      assert at == |node|;
      assert id[..at] == node && id[at + 5..] == tail;
    }
    if NodeOf(id) == Some(node) && Suffix(id) == Some(tail) {
      CutAt(id, at);
      forall a, b | id == a + "-npu-" + b ensures |a| <= |node| {
        StandsBetween(id, a, b);
      }
    }
  }

  /** The index is the number that `tail` spells, as a signed 64-bit integer holds it; a tail with
      anything but digits in it counts as zero. */
  ghost predicate Spells(tail: string, index: int) {
    if forall c :: c in tail ==> c in "0123456789" then
      -0x8000_0000_0000_0000 <= index < 0x8000_0000_0000_0000 && SameLowBits(NumberOf(tail), index)
    else index == 0
  }

  ghost predicate SameLowBits(m: int, n: int) {
    exists q: int :: m == n + 0x1_0000_0000_0000_0000 * q
  }

  ghost function NumberOf(tail: string): nat
    requires forall c :: c in tail ==> c in "0123456789"
  {
    Text.DigitsExact(tail);
    Text.Value(tail)
  }

  lemma SpellsExact(id: string, tail: string, index: int)
    requires Suffix(id) == Some(tail)
    ensures Spells(tail, index) <==> index == Index(id)
  {
    Text.DigitsExact(tail);
    if Text.AllDigits(tail) {
      var v := Text.Value(tail);
      var q := (v + 0x8000_0000_0000_0000) / 0x1_0000_0000_0000_0000;
      assert v == Wrap(v) + 0x1_0000_0000_0000_0000 * q;
      if Spells(tail, index) {
        var p: int :| v == index + 0x1_0000_0000_0000_0000 * p;
      }
    }
  }

  /** What an NPU says of the id it comes from and of the peer group that lists it. */
  ghost predicate Describes(n: T.Npu, group: string) {
    exists tail :: Reads(n.id, n.nodeName, tail) && Spells(tail, n.index) && n.hccsGroup == n.nodeName + "-" + group
  }

  lemma DescribesExact(n: T.Npu, d: Device)
    requires n.id == d.id
    ensures Describes(n, d.groupId) <==> Readable(d) && n == NpuOf(d)
  {
    if Describes(n, d.groupId) {
      var tail :| Reads(n.id, n.nodeName, tail) && Spells(tail, n.index);
      ReadsExact(n.id, n.nodeName, tail);
      SpellsExact(n.id, tail, n.index);
    }
    if Readable(d) && n == NpuOf(d) {
      LastFromExact(d.id, "-npu-", |d.id| - 5);
      var tail := Suffix(d.id).value;
      ReadsExact(n.id, n.nodeName, tail);
      SpellsExact(n.id, tail, n.index);
    }
  }

  // ---------------------------------------------------------------- the listing that counts

  /** The first device of that id is listed by `group`. */
  ghost predicate FirstWith(devices: seq<Device>, id: string, group: string) {
    exists p: nat :: p < |devices| && First(devices, p) && devices[p] == Device(group, id)
  }

  predicate Mentions(devices: seq<Device>, id: string) {
    exists d :: d in devices && d.id == id
  }

  lemma FirstInFront(a: seq<Device>, b: seq<Device>, id: string, group: string)
    requires Mentions(a, id)
    ensures FirstWith(a + b, id, group) <==> FirstWith(a, id, group)
  {
    var all := a + b;
    var d :| d in a && d.id == id;
    var m: nat :| m < |a| && a[m] == d;
    assert all[m] == a[m];
    forall p: nat | p < |a| ensures First(all, p) <==> First(a, p) {
      assert forall q :: 0 <= q <= p ==> all[q] == a[q];
    }
    if FirstWith(all, id, group) {
      var p: nat :| p < |all| && First(all, p) && all[p] == Device(group, id);
      assert p <= m;
      assert all[p] == a[p];
    }
    if FirstWith(a, id, group) {
      var p: nat :| p < |a| && First(a, p) && a[p] == Device(group, id);
      assert all[p] == a[p];
    }
  }

  lemma FirstBehind(a: seq<Device>, b: seq<Device>, id: string, group: string)
    requires !Mentions(a, id)
    ensures FirstWith(a + b, id, group) <==> FirstWith(b, id, group)
  {
    var all := a + b;
    assert forall q :: 0 <= q < |a| ==> all[q] == a[q] && a[q].id != id;
    forall p: nat | p < |b| && b[p].id == id ensures First(all, |a| + p) <==> First(b, p) {
      assert forall q :: 0 <= q < |b| ==> all[|a| + q] == b[q];
    }
    if FirstWith(all, id, group) {
      var p: nat :| p < |all| && First(all, p) && all[p] == Device(group, id);
      assert b[p - |a|] == all[p];
    }
    if FirstWith(b, id, group) {
      var p: nat :| p < |b| && First(b, p) && b[p] == Device(group, id);
      assert all[|a| + p] == b[p];
    }
  }

  lemma MentionsEither(a: seq<Device>, b: seq<Device>, id: string)
    ensures Mentions(a + b, id) <==> Mentions(a, id) || Mentions(b, id)
  {
  }

  lemma OneGroup(g: PeerGroup, id: string, group: string)
    ensures Mentions(GroupDevices(g), id) <==> id in g.deviceIds
    ensures FirstWith(GroupDevices(g), id, group) <==> group == g.groupId && id in g.deviceIds
  {
    var devices := GroupDevices(g);
    if id in g.deviceIds {
      var k := FirstAt(g.deviceIds, id);
      assert devices[k] == Device(g.groupId, id) && First(devices, k);
    }
  }

  lemma {:induction false} FirstAt(ids: seq<string>, id: string) returns (k: nat)
    requires id in ids
    ensures k < |ids| && ids[k] == id && forall j :: 0 <= j < k ==> ids[j] != id
  {
    if ids[0] == id {
      k := 0;
    } else {
      assert ids == [ids[0]] + ids[1..];
      k := FirstAt(ids[1..], id);
      k := k + 1;
      forall j | 0 <= j < k ensures ids[j] != id {
        assert j > 0 ==> ids[j] == ids[1..][j - 1];
      }
    }
  }

  predicate InPool(groups: seq<PeerGroup>, id: string) {
    exists g :: g in groups && id in g.deviceIds
  }

  /** Peer group `j` of the pool is the first that lists the id. */
  predicate FirstGroup(groups: seq<PeerGroup>, id: string, j: nat) {
    j < |groups| && id in groups[j].deviceIds && !InPool(groups[..j], id)
  }

  lemma {:induction false} OnePool(groups: seq<PeerGroup>, id: string, group: string)
    ensures Mentions(PoolDevices(groups), id) <==> InPool(groups, id)
    ensures FirstWith(PoolDevices(groups), id, group) <==>
        exists j: nat :: FirstGroup(groups, id, j) && groups[j].groupId == group
  {
    if groups != [] {
      var u, g := groups[..|groups| - 1], groups[|groups| - 1];
      assert groups == u + [g];
      OnePool(u, id, group);
      OneGroup(g, id, group);
      MentionsEither(PoolDevices(u), GroupDevices(g), id);
      forall j: nat | j < |u| ensures FirstGroup(groups, id, j) <==> FirstGroup(u, id, j) {
        assert groups[..j] == u[..j] && groups[j] == u[j];
      }
      assert FirstGroup(groups, id, |u|) <==> id in g.deviceIds && !InPool(u, id);
      if InPool(u, id) {
        FirstInFront(PoolDevices(u), GroupDevices(g), id, group);
        if FirstWith(PoolDevices(u), id, group) {
          var j: nat :| FirstGroup(u, id, j) && u[j].groupId == group;
          assert FirstGroup(groups, id, j) && groups[j].groupId == group;
        }
      } else {
        FirstBehind(PoolDevices(u), GroupDevices(g), id, group);
        NoFirstGroup(u, id);
      }
    }
  }

  lemma NoFirstGroup(groups: seq<PeerGroup>, id: string)
    requires !InPool(groups, id)
    ensures forall j: nat :: !FirstGroup(groups, id, j)
  {
  }

  /** Peer group `j` of pool `i` is the first of all that lists the id. */
  predicate FirstListed(pools: seq<seq<PeerGroup>>, id: string, i: nat, j: nat) {
    && i < |pools| && FirstGroup(pools[i], id, j)
    && forall k :: 0 <= k < i ==> !InPool(pools[k], id)
  }

  predicate InAny(pools: seq<seq<PeerGroup>>, id: string) {
    exists groups :: groups in pools && InPool(groups, id)
  }

  ghost predicate ListedFirstBy(pools: seq<seq<PeerGroup>>, id: string, group: string) {
    exists i: nat, j: nat :: FirstListed(pools, id, i, j) && pools[i][j].groupId == group
  }

  lemma LastPool(u: seq<seq<PeerGroup>>, groups: seq<PeerGroup>, id: string, group: string)
    ensures ListedFirstBy(u + [groups], id, group) <==>
      if InAny(u, id) then ListedFirstBy(u, id, group)
      else exists j: nat :: FirstGroup(groups, id, j) && groups[j].groupId == group
  {
    var all := u + [groups];
    forall i: nat, j: nat | i < |u| ensures FirstListed(all, id, i, j) <==> FirstListed(u, id, i, j) {
      assert forall k :: 0 <= k <= i ==> all[k] == u[k];
    }
    assert all[|u|] == groups;
    assert (forall k :: 0 <= k < |u| ==> !InPool(all[k], id)) <==> !InAny(u, id) by {
      assert forall k :: 0 <= k < |u| ==> all[k] == u[k];
    }
    if i: nat, j: nat :| FirstListed(u, id, i, j) && u[i][j].groupId == group {
      assert FirstListed(all, id, i, j) && all[i] == u[i];
      assert u[i] in u;
      InItsPool(u[i], id, j);
    }
    if j: nat :| FirstGroup(groups, id, j) && groups[j].groupId == group {
      assert !InAny(u, id) ==> FirstListed(all, id, |u|, j);
    }
    if i: nat, j: nat :| FirstListed(all, id, i, j) && all[i][j].groupId == group {
      if i < |u| {
        assert FirstListed(u, id, i, j) && u[i] == all[i];
        assert u[i] in u;
        InItsPool(u[i], id, j);
      }
    }
  }

  lemma InItsPool(groups: seq<PeerGroup>, id: string, j: nat)
    requires FirstGroup(groups, id, j)
    ensures InPool(groups, id)
  {
    assert groups[j] in groups;
  }

  lemma {:induction false} AllPools(pools: seq<seq<PeerGroup>>, id: string, group: string)
    ensures Mentions(Devices(pools), id) <==> InAny(pools, id)
    ensures FirstWith(Devices(pools), id, group) <==> ListedFirstBy(pools, id, group)
  {
    if pools != [] {
      var u, groups := pools[..|pools| - 1], pools[|pools| - 1];
      assert pools == u + [groups];
      AllPools(u, id, group);
      OnePool(groups, id, group);
      MentionsEither(Devices(u), PoolDevices(groups), id);
      LastPool(u, groups, id, group);
      if InAny(u, id) {
        FirstInFront(Devices(u), PoolDevices(groups), id, group);
      } else {
        FirstBehind(Devices(u), PoolDevices(groups), id, group);
      }
    }
  }

  // ---------------------------------------------------------------- the NPUs

  lemma FromFirstIs(n: T.Npu, devices: seq<Device>, k: nat)
    ensures FromFirst(n, devices, k) <==>
      k < |devices| && First(devices, k) && devices[k].id == n.id && Describes(n, devices[k].groupId)
  {
    if k < |devices| && devices[k].id == n.id {
      DescribesExact(n, devices[k]);
    }
  }

  /** The NPUs are exactly those described by an id and by the first peer group that lists it, over
      all pools; they come in ascending order of id. */
  lemma NpusOfPools(pools: seq<seq<PeerGroup>>)
    ensures forall n :: n in Projected(pools) <==>
      exists group :: ListedFirstBy(pools, n.id, group) && Describes(n, group)
    ensures forall i, j :: 0 <= i < j < |Projected(pools)| ==> Text.Less(Projected(pools)[i].id, Projected(pools)[j].id)
  {
    ProjectedExact(pools);
    var devices := Devices(pools);
    forall n
      ensures n in Projected(pools) <==> exists group :: ListedFirstBy(pools, n.id, group) && Describes(n, group) {
      if n in Projected(pools) {
        var k: nat :| FromFirst(n, devices, k);
        FromFirstIs(n, devices, k);
        assert FirstWith(devices, n.id, devices[k].groupId);
        AllPools(pools, n.id, devices[k].groupId);
      }
      if group :| ListedFirstBy(pools, n.id, group) && Describes(n, group) {
        AllPools(pools, n.id, group);
        var k: nat :| k < |devices| && First(devices, k) && devices[k] == Device(group, n.id);
        FromFirstIs(n, devices, k);
      }
    }
  }

  /** The nodes are those the NPUs are on, each once and in ascending order. */
  lemma HostsAscend(pools: seq<seq<PeerGroup>>)
    ensures forall name :: name in HostNames(pools) <==> exists n :: n in Projected(pools) && n.nodeName == name
    ensures forall i, j :: 0 <= i < j < |HostNames(pools)| ==> Text.Less(HostNames(pools)[i], HostNames(pools)[j])
  {
    var kept, names := Kept(Devices(pools)), HostNames(pools);
    SortsRearrange(pools);
    NpusAreHosted(kept, names, Projected(pools));
    MentionedExact(kept);
    SameElements(names, Mentioned(kept));
    SameElements(Projected(pools), kept);
    forall name ensures name in names <==> exists n :: n in Projected(pools) && n.nodeName == name {
      CountedIsThere(kept, name);
    }
    NameOrder();
    StableSortSorted(Text.AtMost, Mentioned(kept));
    forall i, j | 0 <= i < j < |names| ensures Text.Less(names[i], names[j]) {
      Text.LessTotal(names[i], names[j]);
      assert Text.AtMost(names[i], names[j]);
    }
  }

  lemma {:induction false} CountedIsThere(npus: seq<T.Npu>, name: string)
    ensures CountOn(name, npus) > 0 <==> exists n :: n in npus && n.nodeName == name
  {
    if npus != [] {
      CountedIsThere(npus[..|npus| - 1], name);
      assert npus == npus[..|npus| - 1] + [npus[|npus| - 1]];
    }
  }

  /** At depth node the graph stops at the nodes. */
  lemma OnlyHosts(pools: seq<seq<PeerGroup>>, depth: string, fabric: bool, workloads: bool)
    requires P.Spelled(depth) == "node"
    ensures GraphOf(pools, depth, fabric, workloads).nodes ==
      [T.Node("kubernetes", T.ClusterNode)] + T.Nodes(HostNames(pools), T.HostNode)
  {
    var x := InputsOf(HostNames(pools), Projected(pools), depth, fabric, workloads);
    AllHostsKept(HostNames(pools));
    assert T.NpusOf(x) == [] && T.SlicesOf(x) == [];
    assert T.FabricPart(x).nodes == [] && T.WorkloadPart(x).nodes == [];
  }

  // ---------------------------------------------------------------- printed ids

  /** In the range it is meant for, the printer prints the decimal number. */
  lemma PrintedDecimal(node: string, index: nat)
    requires index <= 99
    ensures NpuId(node, index) == node + "-npu-" + Text.Itoa(index)
  {
    PrintedDigits(index);
  }

  lemma PrintedDigits(index: nat)
    requires index <= 99
    ensures AsciiDigits(index) == Text.Itoa(index)
  {
    if index >= 10 {
      var tens, ones := index / 10, index % 10;
      assert Text.Itoa(index) == Text.Itoa(tens) + [Text.DigitChar(ones)];
      assert Text.Itoa(tens) == [Text.DigitChar(tens)];
      assert AsciiByte(tens) == Text.DigitChar(tens) && AsciiByte(ones) == Text.DigitChar(ones);
    }
  }

  /** Outside that range it prints one digit for a negative index, and otherwise two characters of
      which the first wraps around as a byte does. */
  lemma PrintedBeyond(node: string, index: int)
    ensures index < 0 ==> NpuId(node, index) == node + "-npu-0"
    ensures index > 99 ==>
      var id, at := NpuId(node, index), |node| + 5;
      && |id| == at + 2 && id[..at] == node + "-npu-"
      && id[at] as int == (48 + index / 10) % 256 && id[at + 1] as int == 48 + index % 10
  {
    if index < 0 {
      assert node + "-npu-" + "0" == node + "-npu-0";
    }
  }

  /** The NPU of a printed id is on the node and has the index that were printed. */
  lemma PrintedNpu(pools: seq<seq<PeerGroup>>, node: string, index: nat)
    requires node != "" && index <= 99 && InAny(pools, node + "-npu-" + Text.Itoa(index))
    ensures exists n :: n in Projected(pools) && n.id == node + "-npu-" + Text.Itoa(index)
    ensures forall n :: n in Projected(pools) && n.id == node + "-npu-" + Text.Itoa(index) ==>
        n.nodeName == node && n.index == index
  {
    var id := node + "-npu-" + Text.Itoa(index);
    PrintedDecimal(node, index);
    NodeOfPrinted(node, index);
    IndexOfPrinted(node, index);
    AllPools(pools, id, "");
    KeptIds(Devices(pools));
    ProjectedExact(pools);
    forall n | n in Projected(pools) && n.id == id ensures n.nodeName == node && n.index == index {
      var k: nat :| FromFirst(n, Devices(pools), k);
    }
    var k := FirstDevice(Devices(pools), id);
    assert FromFirst(NpuOf(Devices(pools)[k]), Devices(pools), k);
  }

  lemma {:induction false} FirstDevice(devices: seq<Device>, id: string) returns (k: nat)
    requires Mentions(devices, id)
    ensures k < |devices| && devices[k].id == id && First(devices, k)
  {
    var u, d := devices[..|devices| - 1], devices[|devices| - 1];
    assert devices == u + [d];
    if Mentions(u, id) {
      k := FirstDevice(u, id);
      assert forall j :: 0 <= j <= k ==> devices[j] == u[j];
    } else {
      k := |u|;
      assert forall j :: 0 <= j < k ==> devices[j] == u[j] && u[j] in u;
    }
  }

  /** An NPU of that node whose id is first listed by that peer group. */
  ghost predicate PeerOf(pools: seq<seq<PeerGroup>>, node: string, group: string, n: T.Npu) {
    n.nodeName == node && ListedFirstBy(pools, n.id, group) && Describes(n, group)
  }

  lemma PeersAre(pools: seq<seq<PeerGroup>>, node: string, group: string, n: T.Npu)
    ensures n in MembersFor(pools, node, group) <==> PeerOf(pools, node, group, n)
  {
    var devices := Devices(pools);
    MemberIsListed(pools, node, group, n);
    AllPools(pools, n.id, group);
    if ListedIn(n, devices, node, group) {
      var k: nat :| FromFirst(n, devices, k) && n.nodeName == node && devices[k].groupId == group;
      FromFirstIs(n, devices, k);
      assert devices[k] == Device(group, n.id);
    }
    if PeerOf(pools, node, group, n) {
      var k: nat :| k < |devices| && First(devices, k) && devices[k] == Device(group, n.id);
      FromFirstIs(n, devices, k);
    }
  }

  /** The order is by the number after the separator. */
  predicate ByNumber(order: seq<T.Npu>, node: string, numbers: seq<nat>) {
    && |numbers| == |order|
    && (forall i :: 0 <= i < |order| ==> order[i].id == node + "-npu-" + Text.Itoa(numbers[i]))
    && forall i, j :: 0 <= i < j < |order| ==> numbers[i] <= numbers[j]
  }

  /** The ring of a peer group, with fabric on: it leaves the NPUs of that node that the group is
      the first to list, by the number printed in their ids. */
  ghost predicate RingByNumber(pools: seq<seq<PeerGroup>>, g: T.Graph, node: string, group: string) {
    exists order, numbers ::
      && (forall n :: n in order <==> PeerOf(pools, node, group, n))
      && ByNumber(order, node, numbers)
      && P.RingShape(Filter(P.Leaving(P.IdsOf(order)), Filter(P.IsHccs, g.edges)), order)
  }

  predicate Numbered(node: string, n: T.Npu) {
    exists index: nat :: index <= 99 && n.id == node + "-npu-" + Text.Itoa(index)
  }

  /** The number in the id. */
  ghost function NumberIn(node: string, n: T.Npu): (index: nat)
    requires Numbered(node, n)
    ensures index <= 99 && n.id == node + "-npu-" + Text.Itoa(index)
  {
    var index: nat :| index <= 99 && n.id == node + "-npu-" + Text.Itoa(index);
    index
  }

  /** As long as its ids were printed, a peer group is wired in the order of the numbers printed. */
  lemma PeersRingByNumber(pools: seq<seq<PeerGroup>>, depth: string, workloads: bool, node: string, group: string)
    requires P.Spelled(depth) != "node" && node != ""
    requires forall n :: PeerOf(pools, node, group, n) ==> Numbered(node, n)
    ensures RingByNumber(pools, GraphOf(pools, depth, true, workloads), node, group)
  {
    var members, g := MembersFor(pools, node, group), GraphOf(pools, depth, true, workloads);
    PeerGroupsAreRings(pools, depth, workloads, node, group);
    var order :| P.IndexOrder(order, members)
      && P.RingShape(Filter(P.Leaving(P.IdsOf(members)), Filter(P.IsHccs, g.edges)), order);
    OrderIsPeers(pools, node, group, order);
    NumbersAscend(pools, node, group, order);
  }

  lemma OrderIsPeers(pools: seq<seq<PeerGroup>>, node: string, group: string, order: seq<T.Npu>)
    requires multiset(order) == multiset(MembersFor(pools, node, group))
    ensures P.IdsOf(order) == P.IdsOf(MembersFor(pools, node, group))
    ensures forall n :: n in order <==> PeerOf(pools, node, group, n)
  {
    SameElements(order, MembersFor(pools, node, group));
    forall n ensures n in order <==> PeerOf(pools, node, group, n) {
      PeersAre(pools, node, group, n);
    }
  }

  lemma NumbersAscend(pools: seq<seq<PeerGroup>>, node: string, group: string, order: seq<T.Npu>)
    requires node != "" && forall n :: n in order ==> PeerOf(pools, node, group, n) && Numbered(node, n)
    requires forall i, j :: 0 <= i < j < |order| ==> order[i].index <= order[j].index
    ensures exists numbers :: ByNumber(order, node, numbers)
  {
    var numbers: seq<nat> :=
      seq(|order|, i requires 0 <= i < |order| => assert order[i] in order; NumberIn(node, order[i]));
    forall i | 0 <= i < |order| ensures order[i].index == numbers[i] {
      assert order[i] in order;
      IndexIsNumber(pools, node, group, order[i]);
    }
    assert ByNumber(order, node, numbers);
  }

  lemma IndexIsNumber(pools: seq<seq<PeerGroup>>, node: string, group: string, n: T.Npu)
    requires node != "" && PeerOf(pools, node, group, n) && Numbered(node, n)
    ensures n.index == NumberIn(node, n)
  {
    var index := NumberIn(node, n);
    PrintedDecimal(node, index);
    IndexOfPrinted(node, index);
    var tail :| Reads(n.id, n.nodeName, tail) && Spells(tail, n.index);
    ReadsExact(n.id, n.nodeName, tail);
    SpellsExact(n.id, tail, n.index);
  }
}
