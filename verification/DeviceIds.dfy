/** The topology read off pool status (backend/pkg/datasource/crd/topology.go): device ids are
    printed by backend/pkg/datasource/k8s/npu.go and parsed back here, pools are flattened
    into NPUs without duplicates, and the graph builder keeps every one of them. */
module DeviceIds {
  import opened Wrappers
  import opened Sorting
  import Text
  import T = TopologySpec
  import TopologyBuilder
  import P = TopologyProofs

  // ---------------------------------------------------------------- printing an id

  const SEPARATOR := "-npu-"

  /** One byte, as `'0' + byte(n)` computes it. */
  function AsciiByte(n: nat): char {
    ((48 + n % 256) % 256) as char
  }

  /** Meant for 0 to 99, defined for every integer. */
  function AsciiDigits(n: int): string {
    if n < 0 then "0"
    else if n < 10 then [AsciiByte(n)]
    else [AsciiByte(n / 10), AsciiByte(n % 10)]
  }

  function NpuId(node: string, index: int): string {
    node + SEPARATOR + AsciiDigits(index)
  }

  // ---------------------------------------------------------------- parsing an id

  predicate StandsAt(s: string, sep: string, k: int) {
    0 <= k && k + |sep| <= |s| && s[k..k + |sep|] == sep
  }

  /** The last position at or before `i` where `sep` stands, or -1. */
  function LastFrom(s: string, sep: string, i: int): int
    decreases i + 1
  {
    if i < 0 then -1 else if StandsAt(s, sep, i) then i else LastFrom(s, sep, i - 1)
  }

  /** `strings.LastIndex`. */
  function LastIndex(s: string, sep: string): int {
    LastFrom(s, sep, |s| - |sep|)
  }

  lemma {:induction false} LastFromExact(s: string, sep: string, i: int)
    ensures LastFrom(s, sep, i) == -1 || (LastFrom(s, sep, i) <= i && StandsAt(s, sep, LastFrom(s, sep, i)))
    ensures forall k :: LastFrom(s, sep, i) < k <= i ==> !StandsAt(s, sep, k)
    decreases i + 1
  {
    if 0 <= i && !StandsAt(s, sep, i) {
      LastFromExact(s, sep, i - 1);
    }
  }

  /** Where a separator stands with none to its right is the last index. */
  lemma LastIndexIs(s: string, sep: string, at: nat)
    requires StandsAt(s, sep, at) && forall k :: at < k ==> !StandsAt(s, sep, k)
    ensures LastIndex(s, sep) == at
  {
    LastFromExact(s, sep, |s| - |sep|);
  }

  function NodeOf(id: string): Option<string> {
    LastFromExact(id, SEPARATOR, |id| - |SEPARATOR|);
    var at := LastIndex(id, SEPARATOR);
    if at <= 0 then None else Some(id[..at])
  }

  /** What follows the last separator. */
  function Suffix(id: string): Option<string> {
    LastFromExact(id, SEPARATOR, |id| - |SEPARATOR|);
    var at := LastIndex(id, SEPARATOR);
    if at < 0 then None else Some(id[at + |SEPARATOR|..])
  }

  /** A 64-bit signed integer holds the value modulo 2^64. */
  function Wrap(n: int): int {
    (n + 0x8000_0000_0000_0000) % 0x1_0000_0000_0000_0000 - 0x8000_0000_0000_0000
  }

  /** The number after the last separator; 0 when there is none or it is not all digits. */
  function Index(id: string): int {
    var suffix := Suffix(id);
    if suffix.Some? && Text.AllDigits(suffix.value) then Wrap(Text.Value(suffix.value)) else 0
  }

  lemma WrapDigit(a: nat, d: nat)
    ensures Wrap(Wrap(a) * 10 + d) == Wrap(10 * a + d)
  {
    var q := (a + 0x8000_0000_0000_0000) / 0x1_0000_0000_0000_0000;
    assert Wrap(a) == a - 0x1_0000_0000_0000_0000 * q;
    assert Wrap(a) * 10 + d == (10 * a + d) - 0x1_0000_0000_0000_0000 * (10 * q);
    WrapMultiple(10 * a + d, 10 * q);
  }

  lemma WrapMultiple(n: int, k: int)
    ensures Wrap(n - 0x1_0000_0000_0000_0000 * k) == Wrap(n)
  {
  }

  lemma ValueMore(s: string, c: char)
    requires Text.AllDigits(s) && Text.IsDigit(c)
    ensures Text.AllDigits(s + [c]) && Text.Value(s + [c]) == 10 * Text.Value(s) + (c as int - '0' as int)
  {
    assert (s + [c])[..|s|] == s;
  }

  method IndexOfDeviceId(id: string) returns (n: int)
    ensures n == Index(id)
  {
    var at := LastIndex(id, SEPARATOR);
    if at < 0 {
      return 0;
    }
    LastFromExact(id, SEPARATOR, |id| - |SEPARATOR|);
    var suffix := id[at + |SEPARATOR|..];
    n := 0;
    var i := 0;
    while i < |suffix|
      invariant 0 <= i <= |suffix| && Text.AllDigits(suffix[..i])
      invariant n == Wrap(Text.Value(suffix[..i]))
    {
      var c := suffix[i];
      if c < '0' || c > '9' {
        assert !Text.IsDigit(suffix[i]);
        return 0;
      }
      assert suffix[..i + 1] == suffix[..i] + [c];
      ValueMore(suffix[..i], c);
      WrapDigit(Text.Value(suffix[..i]), c as int - '0' as int);
      n := Wrap(n * 10 + (c as int - '0' as int));
      i := i + 1;
    }
    assert suffix[..|suffix|] == suffix;
  }

  /** The index is the number that the digits spell exactly when a 64-bit integer holds it. */
  lemma IndexReadsDigits(id: string)
    requires Suffix(id).Some? && Text.AllDigits(Suffix(id).value)
    ensures Index(id) == Text.Value(Suffix(id).value) <==> Text.Value(Suffix(id).value) < 0x8000_0000_0000_0000
  {
  }

  // ---------------------------------------------------------------- parsing what was printed

  /** At most two characters follow the separator, so no later one fits, whatever they are. */
  lemma PrintedSeparator(node: string, tail: string)
    requires |tail| <= 2
    ensures var id := node + SEPARATOR + tail;
      LastIndex(id, SEPARATOR) == |node| && Suffix(id) == Some(tail)
  {
    var id := node + SEPARATOR + tail;
    assert id[|node|..|node| + 5] == SEPARATOR && StandsAt(id, SEPARATOR, |node|);
    forall k | |node| < k ensures !StandsAt(id, SEPARATOR, k) {
      if k + 5 <= |id| {
        assert id[k] == SEPARATOR[k - |node|];
        assert id[k..k + 5][0] == id[k];
      }
    }
    LastIndexIs(id, SEPARATOR, |node|);
    assert id[|node| + 5..] == tail;
  }

  /** The node name comes back from every printed id, unless it is empty: an id that starts
      with the separator names no node. */
  lemma NodeOfPrinted(node: string, index: int)
    ensures NodeOf(NpuId(node, index)) == if node == "" then None else Some(node)
  {
    PrintedSeparator(node, AsciiDigits(index));
    assert NpuId(node, index)[..|node|] == node;
  }

  /** The index comes back exactly for the two-digit range the printer is meant for. */
  lemma IndexOfPrinted(node: string, index: int)
    ensures Index(NpuId(node, index)) == index <==> 0 <= index <= 99
  {
    PrintedSeparator(node, AsciiDigits(index));
    if index < 0 {
      ValueOfOne("0");
    } else if index < 10 {
      ByteIsDigit(index);
      ValueOfOne([AsciiByte(index)]);
    } else {
      TwoDigitsRead(index / 10, index % 10);
    }
  }

  /** A byte holds the digit only while nothing wrapped around. */
  lemma ByteIsDigit(n: nat)
    ensures Text.IsDigit(AsciiByte(n)) <==> n % 256 < 10
    ensures n % 256 < 10 ==> AsciiByte(n) as int - '0' as int == n % 256
  {
  }

  lemma TwoDigitsRead(tens: nat, ones: nat)
    requires ones < 10 && 0 < tens
    ensures var s := [AsciiByte(tens), AsciiByte(ones)];
      (if Text.AllDigits(s) then Wrap(Text.Value(s)) else 0) == 10 * tens + ones <==> tens < 10
  {
    ByteIsDigit(tens);
    ByteIsDigit(ones);
    ValueOfTwo([AsciiByte(tens), AsciiByte(ones)]);
  }

  lemma ValueOfOne(s: string)
    requires |s| == 1 && Text.AllDigits(s)
    ensures Text.Value(s) == s[0] as int - '0' as int
  {
    assert s[..0] == [];
  }

  lemma ValueOfTwo(s: string)
    requires |s| == 2
    ensures Text.AllDigits(s) <==> Text.IsDigit(s[0]) && Text.IsDigit(s[1])
    ensures Text.AllDigits(s) ==> Text.Value(s) == 10 * (s[0] as int - '0' as int) + (s[1] as int - '0' as int)
  {
    if Text.AllDigits(s) {
      ValueOfOne(s[..1]);
    }
  }

  // ---------------------------------------------------------------- pools to NPUs

  datatype PeerGroup = PeerGroup(groupId: string, deviceIds: seq<string>)

  /** One device id as listed: which peer group names it. */
  datatype Device = Device(groupId: string, id: string)

  function GroupDevices(g: PeerGroup): seq<Device> {
    seq(|g.deviceIds|, i requires 0 <= i < |g.deviceIds| => Device(g.groupId, g.deviceIds[i]))
  }

  function PoolDevices(groups: seq<PeerGroup>): seq<Device> {
    if groups == [] then [] else PoolDevices(groups[..|groups| - 1]) + GroupDevices(groups[|groups| - 1])
  }

  /** Every device listed by any pool, in listing order. */
  function Devices(pools: seq<seq<PeerGroup>>): seq<Device> {
    if pools == [] then [] else Devices(pools[..|pools| - 1]) + PoolDevices(pools[|pools| - 1])
  }

  predicate Readable(d: Device) {
    d.id != "" && NodeOf(d.id).Some?
  }

  function NpuOf(d: Device): T.Npu
    requires Readable(d)
  {
    T.Npu(d.id, NodeOf(d.id).value, Index(d.id), NodeOf(d.id).value + "-" + d.groupId)
  }

  /** The ids taken so far. */
  function Seen(npus: seq<T.Npu>): set<string> {
    if npus == [] then {} else Seen(npus[..|npus| - 1]) + {npus[|npus| - 1].id}
  }

  /** The first listing of each readable id. */
  function Kept(devices: seq<Device>): seq<T.Npu> {
    if devices == [] then []
    else
      var before, d := Kept(devices[..|devices| - 1]), devices[|devices| - 1];
      if Readable(d) && d.id !in Seen(before) then before + [NpuOf(d)] else before
  }

  predicate ById(a: T.Npu, b: T.Npu) {
    Text.AtMost(a.id, b.id)
  }

  function Projected(pools: seq<seq<PeerGroup>>): seq<T.Npu> {
    StableSort(ById, Kept(Devices(pools)))
  }

  /** How many of the NPUs are on the node. */
  function CountOn(node: string, npus: seq<T.Npu>): nat {
    if npus == [] then 0
    else CountOn(node, npus[..|npus| - 1]) + (if npus[|npus| - 1].nodeName == node then 1 else 0)
  }

  /** `counts` has the nodes that have any NPU, each with the number of them. */
  ghost predicate Counts(counts: map<string, nat>, npus: seq<T.Npu>) {
    forall node :: CountOn(node, npus) == if node in counts then counts[node] else 0
  }

  /** No node is counted with nothing. */
  ghost predicate NoZero(counts: map<string, nat>) {
    forall node :: node in counts ==> counts[node] > 0
  }

  lemma CountMore(node: string, npus: seq<T.Npu>, n: T.Npu)
    ensures CountOn(node, npus + [n]) == CountOn(node, npus) + (if n.nodeName == node then 1 else 0)
  {
    assert (npus + [n])[..|npus|] == npus;
  }

  lemma CountsMore(counts: map<string, nat>, npus: seq<T.Npu>, n: T.Npu)
    requires Counts(counts, npus)
    ensures Counts(counts[n.nodeName := (if n.nodeName in counts then counts[n.nodeName] else 0) + 1], npus + [n])
  {
    forall node { CountMore(node, npus, n); }
  }

  lemma SeenMore(npus: seq<T.Npu>, n: T.Npu)
    ensures Seen(npus + [n]) == Seen(npus) + {n.id}
  {
    assert (npus + [n])[..|npus|] == npus;
  }

  lemma {:induction false} SeenHas(npus: seq<T.Npu>, i: nat)
    requires i < |npus|
    ensures npus[i].id in Seen(npus)
  {
    if i < |npus| - 1 {
      SeenHas(npus[..|npus| - 1], i);
    }
  }

  lemma KeptMore(devices: seq<Device>, d: Device)
    ensures Kept(devices + [d]) ==
      if Readable(d) && d.id !in Seen(Kept(devices)) then Kept(devices) + [NpuOf(d)] else Kept(devices)
  {
    assert (devices + [d])[..|devices|] == devices;
  }

  method ProjectPoolsToNpus(pools: seq<seq<PeerGroup>>) returns (nodeCount: map<string, nat>, npus: seq<T.Npu>)
    ensures npus == Projected(pools)
    ensures Counts(nodeCount, Kept(Devices(pools))) && NoZero(nodeCount)
  {
    nodeCount, npus := map[], [];
    var seen: set<string> := {};
    for i := 0 to |pools|
      invariant npus == Kept(Devices(pools[..i])) && seen == Seen(npus) && Counts(nodeCount, npus) && NoZero(nodeCount)
    {
      var groups := pools[i];
      ghost var done := Devices(pools[..i]);
      assert done + PoolDevices(groups[..0]) == done;
      for j := 0 to |groups|
        invariant npus == Kept(done + PoolDevices(groups[..j])) && seen == Seen(npus)
        invariant Counts(nodeCount, npus) && NoZero(nodeCount)
      {
        nodeCount, seen, npus := ProjectGroup(groups[j], nodeCount, seen, npus, done + PoolDevices(groups[..j]));
        TopologyBuilder.Snoc(groups, j);
        ConcatAssociative(done, PoolDevices(groups[..j]), GroupDevices(groups[j]));
      }
      assert groups[..|groups|] == groups;
      TopologyBuilder.Snoc(pools, i);
    }
    assert pools[..|pools|] == pools;
    npus := StableSort(ById, npus);
  }

  /** The innermost loop, over the device ids of one peer group. */
  method ProjectGroup(g: PeerGroup, counts: map<string, nat>, known: set<string>, before: seq<T.Npu>,
                      ghost done: seq<Device>)
    returns (nodeCount: map<string, nat>, seen: set<string>, npus: seq<T.Npu>)
    requires before == Kept(done) && known == Seen(before) && Counts(counts, before) && NoZero(counts)
    ensures npus == Kept(done + GroupDevices(g)) && seen == Seen(npus)
    ensures Counts(nodeCount, npus) && NoZero(nodeCount)
  {
    nodeCount, seen, npus := counts, known, before;
    assert done + GroupDevices(g)[..0] == done;
    for k := 0 to |g.deviceIds|
      invariant npus == Kept(done + GroupDevices(g)[..k]) && seen == Seen(npus)
      invariant Counts(nodeCount, npus) && NoZero(nodeCount)
    {
      TopologyBuilder.TakeMore(done, GroupDevices(g), k);
      nodeCount, seen, npus := ProjectDevice(g.groupId, g.deviceIds[k], nodeCount, seen, npus,
          done + GroupDevices(g)[..k]);
    }
    assert GroupDevices(g)[..|g.deviceIds|] == GroupDevices(g);
  }

  /** Its body: an id counts when it is readable and new. */
  method ProjectDevice(groupId: string, id: string, counts: map<string, nat>, known: set<string>, before: seq<T.Npu>,
                       ghost done: seq<Device>)
    returns (nodeCount: map<string, nat>, seen: set<string>, npus: seq<T.Npu>)
    requires before == Kept(done) && known == Seen(before) && Counts(counts, before) && NoZero(counts)
    ensures npus == Kept(done + [Device(groupId, id)]) && seen == Seen(npus)
    ensures Counts(nodeCount, npus) && NoZero(nodeCount)
  {
    nodeCount, seen, npus := counts, known, before;
    KeptMore(done, Device(groupId, id));
    if id == "" {
      return;
    }
    var node := NodeOf(id);
    if node.None? || id in seen {
      return;
    }
    var index := IndexOfDeviceId(id);
    var n := T.Npu(id, node.value, index, node.value + "-" + groupId);
    CountsMore(counts, before, n);
    SeenMore(before, n);
    seen := seen + {id};
    nodeCount := nodeCount[node.value := (if node.value in nodeCount then nodeCount[node.value] else 0) + 1];
    npus := npus + [n];
  }

  // ---------------------------------------------------------------- what is kept

  /** The first device listed under its id. */
  predicate First(devices: seq<Device>, k: nat)
    requires k < |devices|
  {
    forall j :: 0 <= j < k ==> devices[j].id != devices[k].id
  }

  ghost predicate FromFirst(n: T.Npu, devices: seq<Device>, k: nat) {
    k < |devices| && Readable(devices[k]) && First(devices, k) && n == NpuOf(devices[k])
  }

  /** `id` is listed somewhere, and can be read. */
  ghost predicate Listed(id: string, devices: seq<Device>) {
    exists k :: 0 <= k < |devices| && devices[k].id == id && Readable(devices[k])
  }

  lemma ListedMore(u: seq<Device>, d: Device, id: string)
    ensures Listed(id, u + [d]) <==> Listed(id, u) || (Readable(d) && d.id == id)
  {
    var all := u + [d];
    if Listed(id, u) {
      var k :| 0 <= k < |u| && u[k].id == id && Readable(u[k]);
      assert all[k] == u[k];
    }
    assert all[|u|] == d;
    if Listed(id, all) {
      var k :| 0 <= k < |all| && all[k].id == id && Readable(all[k]);
      assert k == |u| || all[k] == u[k];
    }
  }

  /** No id is lost, and none appears twice. */
  lemma {:induction false} KeptIds(devices: seq<Device>)
    ensures forall id :: id in Seen(Kept(devices)) <==> Listed(id, devices)
    ensures forall i, j :: 0 <= i < j < |Kept(devices)| ==> Kept(devices)[i].id != Kept(devices)[j].id
  {
    if devices != [] {
      var u, d := devices[..|devices| - 1], devices[|devices| - 1];
      KeptIds(u);
      assert devices == u + [d];
      if Readable(d) && d.id !in Seen(Kept(u)) {
        SeenMore(Kept(u), NpuOf(d));
        forall i | 0 <= i < |Kept(u)| ensures Kept(u)[i].id in Seen(Kept(u)) {
          SeenHas(Kept(u), i);
        }
      }
      forall id { ListedMore(u, d, id); }
    }
  }

  /** Exactly one NPU for each readable id, described by the listing that comes first. */
  lemma {:induction false} KeptExact(devices: seq<Device>)
    ensures forall n :: n in Kept(devices) <==> exists k: nat :: FromFirst(n, devices, k)
  {
    if devices != [] {
      var u, d := devices[..|devices| - 1], devices[|devices| - 1];
      KeptExact(u);
      KeptIds(u);
      assert devices == u + [d];
      forall n ensures n in Kept(devices) <==> exists k: nat :: FromFirst(n, devices, k) {
        KeptLast(u, d, n);
      }
    }
  }

  lemma KeptLast(u: seq<Device>, d: Device, n: T.Npu)
    requires n in Kept(u) <==> exists k: nat :: FromFirst(n, u, k)
    requires forall id :: id in Seen(Kept(u)) <==> Listed(id, u)
    ensures n in Kept(u + [d]) <==> exists k: nat :: FromFirst(n, u + [d], k)
  {
    var all := u + [d];
    KeptMore(u, d);
    LastIsFirst(u, d);
    assert FromFirst(n, all, |u|) <==> Readable(d) && First(all, |u|) && n == NpuOf(d);
    forall k: nat | k < |u| ensures FromFirst(n, all, k) <==> FromFirst(n, u, k) {
      assert all[k] == u[k];
      assert First(all, k) <==> First(u, k) by {
        assert forall j :: 0 <= j < k ==> all[j] == u[j];
      }
    }
    if k: nat :| FromFirst(n, all, k) {
      assert k < |u| || k == |u|;
    }
  }

  lemma LastIsFirst(u: seq<Device>, d: Device)
    requires forall id :: id in Seen(Kept(u)) <==> Listed(id, u)
    ensures Readable(d) ==> (First(u + [d], |u|) <==> d.id !in Seen(Kept(u)))
  {
    var all := u + [d];
    if Listed(d.id, u) {
      var k :| 0 <= k < |u| && u[k].id == d.id && Readable(u[k]);
      assert all[k].id == all[|u|].id;
    } else if Readable(d) {
      forall j | 0 <= j < |u| ensures all[j].id != d.id {
        assert all[j] == u[j];
      }
    }
  }

  lemma SameGroupText(node: string, a: string, b: string)
    ensures node + "-" + a == node + "-" + b <==> a == b
  {
    assert (node + "-" + a)[|node| + 1..] == a;
    assert (node + "-" + b)[|node| + 1..] == b;
  }

  /** Two devices meet in one HCCS group exactly when their node and their peer group agree;
      peer groups of different nodes never merge. */
  lemma GroupsMeet(a: Device, b: Device)
    requires Readable(a) && Readable(b)
    ensures T.KeyOf(NpuOf(a)) == T.KeyOf(NpuOf(b)) <==> NodeOf(a.id) == NodeOf(b.id) && a.groupId == b.groupId
  {
    SameGroupText(NodeOf(a.id).value, a.groupId, b.groupId);
  }

  // ---------------------------------------------------------------- the counts add up

  /** The node counts, added over `names`. */
  function Total(names: seq<string>, npus: seq<T.Npu>): nat {
    if names == [] then 0 else Total(names[..|names| - 1], npus) + CountOn(names[|names| - 1], npus)
  }

  lemma {:induction false} TotalMore(names: seq<string>, npus: seq<T.Npu>, n: T.Npu)
    requires AllDistinct(names)
    ensures Total(names, npus + [n]) == Total(names, npus) + (if n.nodeName in names then 1 else 0)
  {
    if names != [] {
      var u, last := names[..|names| - 1], names[|names| - 1];
      TotalMore(u, npus, n);
      CountMore(last, npus, n);
      assert names == u + [last];
      assert last !in u;
    }
  }

  lemma {:induction false} TotalOfNone(names: seq<string>)
    ensures Total(names, []) == 0
  {
    if names != [] {
      TotalOfNone(names[..|names| - 1]);
    }
  }

  /** Every NPU is counted for one node. */
  lemma {:induction false} CountsAddUp(names: seq<string>, npus: seq<T.Npu>)
    requires AllDistinct(names)
    requires forall k :: 0 <= k < |npus| ==> npus[k].nodeName in names
    ensures Total(names, npus) == |npus|
  {
    if npus == [] {
      TotalOfNone(names);
    } else {
      var u, n := npus[..|npus| - 1], npus[|npus| - 1];
      CountsAddUp(names, u);
      TotalMore(names, u, n);
      assert npus == u + [n];
    }
  }

  // ---------------------------------------------------------------- the node names

  /** Each node once, in the order the NPUs mention them. */
  function Mentioned(npus: seq<T.Npu>): seq<string> {
    if npus == [] then []
    else
      var before, node := Mentioned(npus[..|npus| - 1]), npus[|npus| - 1].nodeName;
      if node in before then before else before + [node]
  }

  lemma {:induction false} MentionedExact(npus: seq<T.Npu>)
    ensures AllDistinct(Mentioned(npus))
    ensures forall node :: node in Mentioned(npus) <==> CountOn(node, npus) > 0
    ensures forall k :: 0 <= k < |npus| ==> npus[k].nodeName in Mentioned(npus)
  {
    if npus != [] {
      var u := npus[..|npus| - 1];
      MentionedExact(u);
      forall k | 0 <= k < |npus| ensures npus[k].nodeName in Mentioned(npus) {
        if k < |u| { assert u[k] == npus[k]; }
      }
    }
  }

  /** The nodes that have NPUs, in lexical order. */
  function HostNames(pools: seq<seq<PeerGroup>>): seq<string> {
    StableSort(Text.AtMost, Mentioned(Kept(Devices(pools))))
  }

  lemma NameOrder()
    ensures TotalPreorder(Text.AtMost)
  {
    forall x: string, y: string ensures Text.AtMost(x, y) || Text.AtMost(y, x) {
      Text.LessTotal(x, y);
    }
    forall x: string, y: string, z: string | Text.AtMost(x, y) && Text.AtMost(y, z) ensures Text.AtMost(x, z) {
      Text.AtMostTransitive(x, y, z);
    }
  }

  /** The keys come out of the map in any order; sorting settles it. */
  method SortedKeys(m: map<string, nat>) returns (names: seq<string>)
    ensures multiset(names) == multiset(m.Keys) && Sorted(Text.AtMost, names)
  {
    names := [];
    var rest := m.Keys;
    while rest != {}
      invariant multiset(names) + multiset(rest) == multiset(m.Keys)
      decreases rest
    {
      var k :| k in rest;
      names, rest := names + [k], rest - {k};
    }
    NameOrder();
    StableSortPerm(Text.AtMost, names);
    StableSortSorted(Text.AtMost, names);
    names := StableSort(Text.AtMost, names);
  }

  lemma {:induction false} DistinctBag(names: seq<string>, s: set<string>)
    requires AllDistinct(names) && forall x :: x in names <==> x in s
    ensures multiset(names) == multiset(s)
  {
    if names != [] {
      var u, last := names[..|names| - 1], names[|names| - 1];
      assert names == u + [last];
      DistinctBag(u, s - {last});
      assert s == s - {last} + {last};
    } else {
      assert s == {};
    }
  }

  /** Two sorted listings of the same names are the same listing. */
  lemma SortedNamesUnique(names: seq<string>, mentioned: seq<string>)
    requires multiset(names) == multiset(mentioned) && Sorted(Text.AtMost, names)
    ensures names == StableSort(Text.AtMost, mentioned)
  {
    NameOrder();
    StableSortPerm(Text.AtMost, mentioned);
    StableSortSorted(Text.AtMost, mentioned);
    forall x: string, y: string ensures Text.AtMost(x, y) && Text.AtMost(y, x) ==> x == y {
      Text.LessTotal(x, y);
    }
    SortedUnique(Text.AtMost, names, StableSort(Text.AtMost, mentioned));
  }

  // ---------------------------------------------------------------- the graph

  const CLUSTER_ID := "kubernetes"

  function Hosts(names: seq<string>): seq<T.Host> {
    seq(|names|, i requires 0 <= i < |names| => T.Host(names[i], CLUSTER_ID))
  }

  function Present(npus: seq<T.Npu>): seq<Option<T.Npu>> {
    seq(|npus|, i requires 0 <= i < |npus| => Some(npus[i]))
  }

  function InputsOf(names: seq<string>, npus: seq<T.Npu>, depth: string, fabric: bool, workloads: bool): T.Inputs {
    T.Inputs(Some(CLUSTER_ID), Hosts(names), Present(npus), [], depth, fabric, [], [], workloads, [])
  }

  function GraphOf(pools: seq<seq<PeerGroup>>, depth: string, fabric: bool, workloads: bool): T.Graph {
    T.Build(InputsOf(HostNames(pools), Projected(pools), depth, fabric, workloads))
  }

  lemma KeysAreMentioned(counts: map<string, nat>, npus: seq<T.Npu>)
    requires Counts(counts, npus) && NoZero(counts)
    ensures multiset(Mentioned(npus)) == multiset(counts.Keys)
  {
    MentionedExact(npus);
    forall node ensures node in Mentioned(npus) <==> node in counts.Keys {
      assert CountOn(node, npus) == if node in counts then counts[node] else 0;
    }
    DistinctBag(Mentioned(npus), counts.Keys);
  }

  datatype Failure = NotFound

  method GetTopology(clusterId: string, pools: seq<seq<PeerGroup>>, depth: string, fabric: bool, workloads: bool)
    returns (r: Result<TopologyBuilder.Topology, Failure>)
    ensures r.Err? <==> clusterId != "" && clusterId != "kubernetes"
    ensures r.Ok? ==> fresh(r.value) && r.value.G() == GraphOf(pools, depth, fabric, workloads)
  {
    if clusterId != "" && clusterId != CLUSTER_ID {
      return Err(NotFound);
    }
    var nodeCount, npus := ProjectPoolsToNpus(pools);
    var names := SortedKeys(nodeCount);
    KeysAreMentioned(nodeCount, Kept(Devices(pools)));
    SortedNamesUnique(names, Mentioned(Kept(Devices(pools))));
    var out := TopologyBuilder.BuildTopology(InputsOf(names, npus, depth, fabric, workloads));
    return Ok(out);
  }

  lemma {:induction false} AllHostsKept(names: seq<string>)
    ensures T.KeptHosts(CLUSTER_ID, Hosts(names)) == names
  {
    if names != [] {
      var u := names[..|names| - 1];
      AllHostsKept(u);
      assert Hosts(names)[..|names| - 1] == Hosts(u);
    }
  }

  lemma {:induction false} AllNpusKept(hostIds: set<string>, npus: seq<T.Npu>)
    requires forall k :: 0 <= k < |npus| ==> npus[k].nodeName in hostIds
    ensures T.KeptNpus(hostIds, Present(npus)) == npus
  {
    if npus != [] {
      var u := npus[..|npus| - 1];
      AllNpusKept(hostIds, u);
      assert Present(npus)[..|npus| - 1] == Present(u);
    }
  }

  /** Sorting keeps the NPUs, their distinct ids and their nodes. */
  lemma ProjectedExact(pools: seq<seq<PeerGroup>>)
    ensures var npus, devices := Projected(pools), Devices(pools);
      && (forall n :: n in npus <==> exists k: nat :: FromFirst(n, devices, k))
      && (forall i, j :: 0 <= i < j < |npus| ==> Text.Less(npus[i].id, npus[j].id))
  {
    var kept, npus := Kept(Devices(pools)), Projected(pools);
    KeptExact(Devices(pools));
    KeptIds(Devices(pools));
    StableSortPerm(ById, kept);
    SameElements(npus, kept);
    IdOrder();
    StableSortSorted(ById, kept);
    DistinctStays(kept, npus);
    forall i, j | 0 <= i < j < |npus| ensures Text.Less(npus[i].id, npus[j].id) {
      assert ById(npus[i], npus[j]);
      Text.LessTotal(npus[i].id, npus[j].id);
    }
  }

  lemma IdOrder()
    ensures TotalPreorder(ById)
  {
    forall x: T.Npu, y: T.Npu ensures ById(x, y) || ById(y, x) {
      Text.LessTotal(x.id, y.id);
    }
    forall x: T.Npu, y: T.Npu, z: T.Npu | ById(x, y) && ById(y, z) ensures ById(x, z) {
      Text.AtMostTransitive(x.id, y.id, z.id);
    }
  }

  lemma DistinctStays(s: seq<T.Npu>, t: seq<T.Npu>)
    requires forall a, b :: 0 <= a < b < |s| ==> s[a].id != s[b].id
    requires multiset(s) == multiset(t)
    ensures forall a, b :: 0 <= a < b < |t| ==> t[a].id != t[b].id
  {
    SameElements(s, t);
    DistinctPermutes(s, t);
    forall a, b | 0 <= a < b < |t| ensures t[a].id != t[b].id {
      assert t[a] in s && t[b] in s && t[a] != t[b];
    }
  }

  /** Whatever the pools list, the graph below depth node shows the cluster, every node that
      has an NPU, and every NPU: the builder drops none of them.  The counts per node add up
      to the number of NPUs. */
  lemma NothingDropped(pools: seq<seq<PeerGroup>>, depth: string, fabric: bool, workloads: bool)
    requires P.Spelled(depth) != "node"
    ensures var names, npus := HostNames(pools), Projected(pools);
      && GraphOf(pools, depth, fabric, workloads).nodes ==
         [T.Node("kubernetes", T.ClusterNode)] + T.Nodes(names, T.HostNode) + T.Nodes(T.NpuIds(npus), T.NpuNode)
      && Total(names, npus) == |npus|
  {
    SortsRearrange(pools);
    NpusAreHosted(Kept(Devices(pools)), HostNames(pools), Projected(pools));
    CountsAddUp(HostNames(pools), Projected(pools));
    AllShown(HostNames(pools), Projected(pools), depth, fabric, workloads);
  }

  lemma AllShown(names: seq<string>, npus: seq<T.Npu>, depth: string, fabric: bool, workloads: bool)
    requires P.Spelled(depth) != "node"
    requires forall k :: 0 <= k < |npus| ==> npus[k].nodeName in names
    ensures T.Build(InputsOf(names, npus, depth, fabric, workloads)).nodes ==
      [T.Node("kubernetes", T.ClusterNode)] + T.Nodes(names, T.HostNode) + T.Nodes(T.NpuIds(npus), T.NpuNode)
  {
    var x := InputsOf(names, npus, depth, fabric, workloads);
    AllHostsKept(names);
    AllNpusKept(ToSet(names), npus);
    assert T.HostsOf(x) == names && T.NpusOf(x) == npus;
    assert T.FabricPart(x).nodes == [] && T.WorkloadPart(x).nodes == [] && T.SliceGraph(T.SlicesOf(x)).nodes == [];
  }

  /** Sorting rearranges the nodes and the NPUs, and does no more. */
  lemma SortsRearrange(pools: seq<seq<PeerGroup>>)
    ensures multiset(HostNames(pools)) == multiset(Mentioned(Kept(Devices(pools))))
    ensures multiset(Projected(pools)) == multiset(Kept(Devices(pools)))
  {
    StableSortPerm(Text.AtMost, Mentioned(Kept(Devices(pools))));
    StableSortPerm(ById, Kept(Devices(pools)));
  }

  /** However they are arranged, the node names are distinct and cover the NPUs. */
  lemma NpusAreHosted(kept: seq<T.Npu>, names: seq<string>, npus: seq<T.Npu>)
    requires multiset(names) == multiset(Mentioned(kept)) && multiset(npus) == multiset(kept)
    ensures AllDistinct(names)
    ensures forall k :: 0 <= k < |npus| ==> npus[k].nodeName in names
  {
    MentionedExact(kept);
    DistinctPermutes(Mentioned(kept), names);
    SameElements(names, Mentioned(kept));
    SameElements(npus, kept);
    forall k | 0 <= k < |npus| ensures npus[k].nodeName in names {
      assert npus[k] in npus && npus[k] in kept;
      var j :| 0 <= j < |kept| && kept[j] == npus[k];
      assert kept[j].nodeName in Mentioned(kept);
    }
  }

  // ---------------------------------------------------------------- from pools to rings

  /** The NPUs described by the first listing of a device of that node in that peer group. */
  ghost predicate ListedIn(n: T.Npu, devices: seq<Device>, node: string, group: string) {
    exists k: nat :: FromFirst(n, devices, k) && n.nodeName == node && devices[k].groupId == group
  }

  function KeyFor(node: string, group: string): T.GroupKey {
    T.GroupKey(node, node + "-" + group)
  }

  function MembersFor(pools: seq<seq<PeerGroup>>, node: string, group: string): seq<T.Npu> {
    var npus := Projected(pools);
    T.Members(ToSet(T.NpuIds(npus)), Present(npus), KeyFor(node, group))
  }

  /** With fabric on, each peer group of each node is wired as one ring: over exactly the NPUs
      whose device id that group lists first, in index order. */
  lemma PeerGroupsAreRings(pools: seq<seq<PeerGroup>>, depth: string, workloads: bool, node: string, group: string)
    requires P.Spelled(depth) != "node"
    ensures P.RingIn(GraphOf(pools, depth, true, workloads), MembersFor(pools, node, group))
    ensures forall n :: n in MembersFor(pools, node, group) <==> ListedIn(n, Devices(pools), node, group)
  {
    var names, npus := HostNames(pools), Projected(pools);
    var x := InputsOf(names, npus, depth, true, workloads);
    SortsRearrange(pools);
    NpusAreHosted(Kept(Devices(pools)), names, npus);
    AllHostsKept(names);
    AllNpusKept(ToSet(names), npus);
    assert T.NpusOf(x) == npus;
    ProjectedDistinct(pools);
    P.HccsRings(x, KeyFor(node, group));
    forall n ensures n in MembersFor(pools, node, group) <==> ListedIn(n, Devices(pools), node, group) {
      MemberIsListed(pools, node, group, n);
    }
  }

  lemma ProjectedDistinct(pools: seq<seq<PeerGroup>>)
    ensures P.DistinctNpus(Present(Projected(pools)))
  {
    KeptIds(Devices(pools));
    StableSortPerm(ById, Kept(Devices(pools)));
    DistinctStays(Kept(Devices(pools)), Projected(pools));
  }

  lemma MemberIsListed(pools: seq<seq<PeerGroup>>, node: string, group: string, n: T.Npu)
    ensures n in MembersFor(pools, node, group) <==> ListedIn(n, Devices(pools), node, group)
  {
    var npus, devices := Projected(pools), Devices(pools);
    var ids := ToSet(T.NpuIds(npus));
    P.MembersExact(ids, Present(npus), KeyFor(node, group));
    ProjectedExact(pools);
    PresentExact(npus, n);
    forall k: nat | FromFirst(n, devices, k)
      ensures T.KeyOf(n) == KeyFor(node, group) <==> n.nodeName == node && devices[k].groupId == group {
      SameGroupText(n.nodeName, devices[k].groupId, group);
    }
    if n in npus {
      assert n.hccsGroup != "";
    }
  }

  lemma PresentExact(npus: seq<T.Npu>, n: T.Npu)
    ensures Some(n) in Present(npus) <==> n in npus
    ensures n in npus ==> n.id in ToSet(T.NpuIds(npus))
  {
    if n in npus {
      var i :| 0 <= i < |npus| && npus[i] == n;
      assert Present(npus)[i] == Some(n) && T.NpuIds(npus)[i] == n.id;
    }
  }
}
