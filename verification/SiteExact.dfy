/** The card layout in numbers: where each dot stands and how large each ring is, said on the NPUs
    themselves (frontend/src/components/TopologyGraph/siteLayout.ts). */
module SiteExact {
  import opened Sorting
  import opened SiteLayout

  // ---------------------------------------------------------------- groups

  function InGroup(key: string): Npu -> bool {
    (n: Npu) => n.hccsGroup == key
  }

  lemma {:induction false} MembersFilter(npus: seq<Npu>, key: string)
    ensures Members(npus, key) == Filter(InGroup(key), npus)
  {
    if npus != [] {
      MembersFilter(npus[..|npus| - 1], key);
    }
  }

  function AtIndex(index: int): Npu -> bool {
    (n: Npu) => n.index == index
  }

  /** The group's NPUs by ascending index, ties as in the input. */
  ghost predicate BlockOf(npus: seq<Npu>, key: string, block: seq<Npu>) {
    && multiset(block) == multiset(Filter(InGroup(key), npus))
    && (forall i, j :: 0 <= i < j < |block| ==> block[i].index <= block[j].index)
    && forall index :: Filter(AtIndex(index), block) == Filter(AtIndex(index), Filter(InGroup(key), npus))
  }

  lemma OrderedIsBlock(npus: seq<Npu>, key: string)
    ensures BlockOf(npus, key, Ordered(npus, key))
  {
    MembersFilter(npus, key);
    var members := Members(npus, key);
    StableSortPerm(ByIndex, members);
    StableSortSorted(ByIndex, members);
    assert forall a, b :: ByIndex(a, b) <==> a.index <= b.index;
    forall index ensures Filter(AtIndex(index), Ordered(npus, key)) == Filter(AtIndex(index), members) {
      StableSortStable(ByIndex, members, AtIndex(index));
    }
  }

  /** Group `a` has an NPU before the first one of group `b`. */
  predicate Earlier(npus: seq<Npu>, a: string, b: string) {
    exists p :: 0 <= p < |npus| && npus[p].hccsGroup == a && forall q :: 0 <= q <= p ==> npus[q].hccsGroup != b
  }

  /** The groups by the first NPU of each; the NPUs without a group are one of them. */
  ghost predicate ByFirstMember(npus: seq<Npu>, keys: seq<string>) {
    && AllDistinct(keys)
    && (forall key :: key in keys <==> exists n :: n in npus && n.hccsGroup == key)
    && forall a, b :: 0 <= a < b < |keys| ==> Earlier(npus, keys[a], keys[b])
  }

  lemma EarlierMore(u: seq<Npu>, n: Npu, a: string, b: string)
    requires Earlier(u, a, b)
    ensures Earlier(u + [n], a, b)
  {
    var p :| 0 <= p < |u| && u[p].hccsGroup == a && forall q :: 0 <= q <= p ==> u[q].hccsGroup != b;
    assert forall q :: 0 <= q <= p ==> (u + [n])[q] == u[q];
  }

  lemma NewIsLast(u: seq<Npu>, keys: seq<string>, a: string, b: string)
    requires ByFirstMember(u, keys) && a in keys && b !in keys
    ensures Earlier(u, a, b)
  {
    var n :| n in u && n.hccsGroup == a;
    var p :| 0 <= p < |u| && u[p] == n;
    assert forall q :: 0 <= q < |u| ==> u[q] in u;
  }

  lemma {:induction false} KeysInOrder(npus: seq<Npu>)
    ensures ByFirstMember(npus, GroupOrder(npus))
  {
    if npus != [] {
      var u, n := npus[..|npus| - 1], npus[|npus| - 1];
      var before, keys := GroupOrder(u), GroupOrder(npus);
      assert npus == u + [n];
      KeysInOrder(u);
      forall a, b | 0 <= a < b < |keys| ensures Earlier(npus, keys[a], keys[b]) {
        if b == |before| { NewIsLast(u, before, keys[a], keys[b]); }
        EarlierMore(u, n, keys[a], keys[b]);
      }
    }
  }

  // ---------------------------------------------------------------- which rings there are

  /** Two NPUs are in the group. */
  predicate HasPair(npus: seq<Npu>, key: string) {
    exists i, j :: 0 <= i < j < |npus| && npus[i].hccsGroup == key && npus[j].hccsGroup == key
  }

  function PositionsOf(npus: seq<Npu>, key: string): set<int> {
    set i | 0 <= i < |npus| && npus[i].hccsGroup == key
  }

  lemma {:induction false} MembersCount(npus: seq<Npu>, key: string)
    ensures |Members(npus, key)| == |PositionsOf(npus, key)|
    ensures |Members(npus, key)| >= 1 <==> exists i :: 0 <= i < |npus| && npus[i].hccsGroup == key
    ensures |Members(npus, key)| >= 2 <==> HasPair(npus, key)
  {
    if npus != [] {
      var u, n := npus[..|npus| - 1], npus[|npus| - 1];
      MembersCount(u, key);
      assert forall i :: 0 <= i < |u| ==> npus[i] == u[i];
      if n.hccsGroup == key {
        assert PositionsOf(npus, key) == PositionsOf(u, key) + {|u|};
        if i :| 0 <= i < |u| && u[i].hccsGroup == key {
          assert npus[i].hccsGroup == key && npus[|u|].hccsGroup == key;
        }
      } else {
        assert PositionsOf(npus, key) == PositionsOf(u, key);
      }
    }
  }

  /** A group has a ring exactly when it is named and two NPUs are in it; the ring counts them. */
  lemma RingIff(npus: seq<Npu>, key: string)
    ensures var rings := Rings(npus, GroupOrder(npus));
      && (HasRingFor(rings, key) <==> key != "" && HasPair(npus, key))
      && forall r :: r in rings && r.groupId == key ==> r.npuCount == |PositionsOf(npus, key)|
  {
    RingsOfGroups(npus);
    RingOfGroup(npus, key);
    MembersCount(npus, key);
  }

  // ---------------------------------------------------------------- the whole card

  /** Four to a row, the first at the left margin. */
  function DotsOf(block: seq<Npu>, top: real): seq<Dot> {
    seq(|block|, j requires 0 <= j < |block| =>
      Dot(block[j].id, 26.0 + (j % 4) as real * (110.0 / 3.0), top + (j / 4) as real * 42.0))
  }

  /** Around the dots of two or more NPUs of a named group, with 7 to spare on each side. */
  function RingsOf(key: string, block: seq<Npu>, top: real): seq<Ring> {
    if key == "" || |block| < 2 then []
    else
      var cols := if |block| < 4 then |block| else 4;
      [Ring(key, 19.0, top - 7.0, (cols - 1) as real * (110.0 / 3.0) + 40.0,
            ((|block| - 1) / 4) as real * 42.0 + 40.0, |block|)]
  }

  /** The next block starts below the rows of this one. */
  ghost predicate Below(block: seq<Npu>, top: real, next: real) {
    exists rows: nat :: 4 * (rows - 1) < |block| <= 4 * rows && next == top + rows as real * 42.0
  }

  function AllDots(blocks: seq<seq<Npu>>, tops: seq<real>): seq<seq<Dot>>
    requires |tops| == |blocks|
  {
    seq(|blocks|, i requires 0 <= i < |blocks| => DotsOf(blocks[i], tops[i]))
  }

  function AllRings(keys: seq<string>, blocks: seq<seq<Npu>>, tops: seq<real>): seq<seq<Ring>>
    requires |keys| == |tops| == |blocks|
  {
    seq(|blocks|, i requires 0 <= i < |blocks| => RingsOf(keys[i], blocks[i], tops[i]))
  }

  /** One block for each group, the first at 58, each one below the one before. */
  ghost predicate Stacked(npus: seq<Npu>, keys: seq<string>, blocks: seq<seq<Npu>>, tops: seq<real>) {
    && |keys| == |tops| == |blocks|
    && (forall i :: 0 <= i < |keys| ==> BlockOf(npus, keys[i], blocks[i]))
    && (keys != [] ==> tops[0] == 58.0)
    && forall i :: 0 <= i < |keys| - 1 ==> Below(blocks[i], tops[i], tops[i + 1])
  }

  function Blocks(npus: seq<Npu>, keys: seq<string>): seq<seq<Npu>> {
    seq(|keys|, i requires 0 <= i < |keys| => Ordered(npus, keys[i]))
  }

  function TopOf(rows: nat): real {
    NPU_GRID_TOP + rows as real * NPU_GRID_ROW_H
  }

  function Tops(npus: seq<Npu>, keys: seq<string>): seq<real> {
    seq(|keys|, i requires 0 <= i < |keys| => TopOf(TotalRows(npus, keys[..i])))
  }

  lemma GroupDots(key: string, block: seq<Npu>, start: nat)
    ensures Dots(GroupCells(key, block, start)) == DotsOf(block, TopOf(start))
  {
    forall j | 0 <= j < |block|
      ensures Place(CellAt(key, block, start, j)) == DotsOf(block, TopOf(start))[j] {
      assert (start + j / 4) as real == start as real + (j / 4) as real;
    }
  }

  lemma GroupRing(npus: seq<Npu>, key: string, start: nat)
    ensures (if HasRing(npus, key) then [RingBox(key, |Members(npus, key)|, start)] else []) ==
      RingsOf(key, Ordered(npus, key), TopOf(start))
  {
    var n := |Members(npus, key)|;
    if HasRing(npus, key) {
      assert RowsFor(n) - 1 == (n - 1) / 4;
      assert (start + RowsFor(n) - 1) as real == start as real + ((n - 1) / 4) as real;
    }
  }

  lemma CellsMore(npus: seq<Npu>, keys: seq<string>)
    requires keys != []
    ensures var u, key := keys[..|keys| - 1], keys[|keys| - 1];
      Dots(Cells(npus, keys)) ==
        Dots(Cells(npus, u)) + DotsOf(Ordered(npus, key), TopOf(TotalRows(npus, u)))
  {
    var n := |keys| - 1;
    assert keys[..n + 1] == keys;
    CellsStep(npus, keys, n);
    GroupDots(keys[n], Ordered(npus, keys[n]), TotalRows(npus, keys[..n]));
  }

  lemma {:induction false} DotsStack(npus: seq<Npu>, keys: seq<string>)
    ensures Dots(Cells(npus, keys)) == Concat(AllDots(Blocks(npus, keys), Tops(npus, keys)))
  {
    if keys != [] {
      var u, key := keys[..|keys| - 1], keys[|keys| - 1];
      DotsStack(npus, u);
      CellsMore(npus, keys);
      PartsMore(npus, keys);
      DotsMore(Blocks(npus, u), Tops(npus, u), Ordered(npus, key), TopOf(TotalRows(npus, u)));
    }
  }

  lemma MoreRings(npus: seq<Npu>, keys: seq<string>)
    requires keys != []
    ensures var u, key := keys[..|keys| - 1], keys[|keys| - 1];
      Rings(npus, keys) == Rings(npus, u) + RingsOf(key, Ordered(npus, key), TopOf(TotalRows(npus, u)))
  {
    var u, key := keys[..|keys| - 1], keys[|keys| - 1];
    GroupRing(npus, key, TotalRows(npus, u));
    assert Rings(npus, u) + [] == Rings(npus, u);
  }

  lemma {:induction false} RingsStack(npus: seq<Npu>, keys: seq<string>)
    ensures Rings(npus, keys) == Concat(AllRings(keys, Blocks(npus, keys), Tops(npus, keys)))
  {
    if keys != [] {
      var u, key := keys[..|keys| - 1], keys[|keys| - 1];
      RingsStack(npus, u);
      MoreRings(npus, keys);
      PartsMore(npus, keys);
      assert keys == u + [key];
      RingsMore(u, Blocks(npus, u), Tops(npus, u), key, Ordered(npus, key), TopOf(TotalRows(npus, u)));
    }
  }

  lemma PartsMore(npus: seq<Npu>, keys: seq<string>)
    requires keys != []
    ensures var u, key := keys[..|keys| - 1], keys[|keys| - 1];
      && Blocks(npus, keys) == Blocks(npus, u) + [Ordered(npus, key)]
      && Tops(npus, keys) == Tops(npus, u) + [TopOf(TotalRows(npus, u))]
  {
    var u := keys[..|keys| - 1];
    assert forall i :: 0 <= i < |u| ==> keys[..i] == u[..i];
  }

  lemma DotsMore(blocks: seq<seq<Npu>>, tops: seq<real>, block: seq<Npu>, top: real)
    requires |tops| == |blocks|
    ensures Concat(AllDots(blocks + [block], tops + [top])) == Concat(AllDots(blocks, tops)) + DotsOf(block, top)
  {
    assert AllDots(blocks + [block], tops + [top]) == AllDots(blocks, tops) + [DotsOf(block, top)];
  }

  lemma RingsMore(keys: seq<string>, blocks: seq<seq<Npu>>, tops: seq<real>, key: string, block: seq<Npu>, top: real)
    requires |keys| == |tops| == |blocks|
    ensures Concat(AllRings(keys + [key], blocks + [block], tops + [top])) ==
        Concat(AllRings(keys, blocks, tops)) + RingsOf(key, block, top)
  {
    assert AllRings(keys + [key], blocks + [block], tops + [top]) ==
        AllRings(keys, blocks, tops) + [RingsOf(key, block, top)];
  }

  lemma RowsNeeded(block: seq<Npu>, top: real)
    ensures Below(block, top, top + RowsFor(|block|) as real * NPU_GRID_ROW_H)
  {
    var rows := RowsFor(|block|);
    assert 4 * (rows - 1) < |block| <= 4 * rows;
  }

  lemma TopStep(start: nat, rows: nat)
    ensures TopOf(start + rows) == TopOf(start) + rows as real * NPU_GRID_ROW_H
  {
    assert (start + rows) as real == start as real + rows as real;
  }

  lemma NextTop(npus: seq<Npu>, keys: seq<string>, i: nat)
    requires i + 1 < |keys|
    ensures Below(Ordered(npus, keys[i]), Tops(npus, keys)[i], Tops(npus, keys)[i + 1])
  {
    CellsStep(npus, keys, i);
    RowsNeeded(Ordered(npus, keys[i]), Tops(npus, keys)[i]);
    TopStep(TotalRows(npus, keys[..i]), RowsFor(|Ordered(npus, keys[i])|));
  }

  lemma BlocksStack(npus: seq<Npu>, keys: seq<string>)
    ensures Stacked(npus, keys, Blocks(npus, keys), Tops(npus, keys))
  {
    forall i | 0 <= i < |keys| ensures BlockOf(npus, keys[i], Blocks(npus, keys)[i]) {
      OrderedIsBlock(npus, keys[i]);
    }
    forall i | 0 <= i < |keys| - 1
      ensures Below(Blocks(npus, keys)[i], Tops(npus, keys)[i], Tops(npus, keys)[i + 1]) {
      NextTop(npus, keys, i);
    }
  }

  /** The card: the groups by the first NPU of each, one block below the other, every dot in its
      place and a ring of that size around each named group of two or more. */
  lemma CardIs(npus: seq<Npu>) returns (keys: seq<string>, blocks: seq<seq<Npu>>, tops: seq<real>)
    ensures ByFirstMember(npus, keys) && Stacked(npus, keys, blocks, tops)
    ensures Dots(Cells(npus, GroupOrder(npus))) == Concat(AllDots(blocks, tops))
    ensures Rings(npus, GroupOrder(npus)) == Concat(AllRings(keys, blocks, tops))
  {
    keys := GroupOrder(npus);
    blocks, tops := Blocks(npus, keys), Tops(npus, keys);
    KeysInOrder(npus);
    DotsStack(npus, keys);
    RingsStack(npus, keys);
    BlocksStack(npus, keys);
  }
}
