/** The in-card NPU grid and HCCS ring boxes
    (frontend/src/components/TopologyGraph/siteLayout.ts).  Coordinates are exact reals. */
module SiteLayout {
  import opened Sorting

  const CARD_W := 188.0
  const NPU_CIRCLE := 26.0
  const NPU_GRID_COLS := 4
  const NPU_GRID_PAD_X := 26.0
  const NPU_GRID_TOP := 58.0
  const NPU_GRID_ROW_H := 42.0
  const HCCS_RING_PAD := 7.0

  /** (CARD_W - 2 * NPU_GRID_PAD_X - NPU_CIRCLE) / (NPU_GRID_COLS - 1) */
  const COL_STEP := (CARD_W - 2.0 * NPU_GRID_PAD_X - NPU_CIRCLE) / 3.0

  datatype Npu = Npu(id: string, hccsGroup: string, index: int)

  datatype Dot = Dot(id: string, x: real, y: real)

  datatype Ring = Ring(groupId: string, x: real, y: real, w: real, h: real, npuCount: nat)

  /** A dot's place in the grid, with the group it belongs to. */
  datatype Cell = Cell(group: string, id: string, row: nat, col: nat)

  function Place(c: Cell): Dot {
    Dot(c.id, NPU_GRID_PAD_X + c.col as real * COL_STEP, NPU_GRID_TOP + c.row as real * NPU_GRID_ROW_H)
  }

  // ---------------------------------------------------------------- grouping

  function Members(npus: seq<Npu>, key: string): seq<Npu> {
    if npus == [] then []
    else
      var n := npus[|npus| - 1];
      if n.hccsGroup == key then Members(npus[..|npus| - 1], key) + [n] else Members(npus[..|npus| - 1], key)
  }

  /** Groups in order of first appearance. */
  function GroupOrder(npus: seq<Npu>): seq<string> {
    if npus == [] then []
    else
      var before, g := GroupOrder(npus[..|npus| - 1]), npus[|npus| - 1].hccsGroup;
      if g in before then before else before + [g]
  }

  predicate ByIndex(a: Npu, b: Npu) {
    a.index <= b.index
  }

  /** Math.ceil(n / NPU_GRID_COLS) */
  function RowsFor(n: nat): nat {
    (n + 3) / 4
  }

  function CellAt(key: string, members: seq<Npu>, startRow: nat, j: nat): Cell
    requires j < |members|
  {
    Cell(key, members[j].id, startRow + j / 4, j % 4)
  }

  function GroupCells(key: string, members: seq<Npu>, startRow: nat): seq<Cell> {
    seq(|members|, j requires 0 <= j < |members| => CellAt(key, members, startRow, j))
  }

  function Ordered(npus: seq<Npu>, key: string): seq<Npu> {
    StableSort(ByIndex, Members(npus, key))
  }

  function TotalRows(npus: seq<Npu>, keys: seq<string>): nat {
    if keys == [] then 0
    else TotalRows(npus, keys[..|keys| - 1]) + RowsFor(|Members(npus, keys[|keys| - 1])|)
  }

  function Cells(npus: seq<Npu>, keys: seq<string>): seq<Cell> {
    if keys == [] then []
    else
      var before, key := keys[..|keys| - 1], keys[|keys| - 1];
      Cells(npus, before) + GroupCells(key, Ordered(npus, key), TotalRows(npus, before))
  }

  predicate HasRing(npus: seq<Npu>, key: string) {
    key != "" && |Members(npus, key)| >= 2
  }

  function Min(a: nat, b: nat): nat {
    if a < b then a else b
  }

  /** The box drawn around a group of `n` that starts at `startRow`. */
  function RingBox(key: string, n: nat, startRow: nat): Ring
    requires n >= 2
  {
    var minX := NPU_GRID_PAD_X;
    var maxX := NPU_GRID_PAD_X + (Min(n, NPU_GRID_COLS) - 1) as real * COL_STEP + NPU_CIRCLE;
    var minY := NPU_GRID_TOP + startRow as real * NPU_GRID_ROW_H;
    var maxY := NPU_GRID_TOP + (startRow + RowsFor(n) - 1) as real * NPU_GRID_ROW_H + NPU_CIRCLE;
    Ring(key, minX - HCCS_RING_PAD, minY - HCCS_RING_PAD,
         maxX - minX + 2.0 * HCCS_RING_PAD, maxY - minY + 2.0 * HCCS_RING_PAD, n)
  }

  function Rings(npus: seq<Npu>, keys: seq<string>): seq<Ring> {
    if keys == [] then []
    else
      var before, key := keys[..|keys| - 1], keys[|keys| - 1];
      if HasRing(npus, key) then Rings(npus, before) + [RingBox(key, |Members(npus, key)|, TotalRows(npus, before))]
      else Rings(npus, before)
  }

  function Dots(cells: seq<Cell>): seq<Dot> {
    seq(|cells|, k requires 0 <= k < |cells| => Place(cells[k]))
  }

  // ---------------------------------------------------------------- the method

  /** Partition, sort within each group, lay the groups out one below the other. */
  method LayoutWorkerNpus(npus: seq<Npu>) returns (dotRel: seq<Dot>, rings: seq<Ring>)
    ensures dotRel == Dots(Cells(npus, GroupOrder(npus)))
    ensures rings == Rings(npus, GroupOrder(npus))
  {
    var order, groups := Partition(npus);
    dotRel, rings := [], [];
    var row: nat := 0;
    for k := 0 to |order|
      invariant dotRel == Dots(Cells(npus, order[..k]))
      invariant rings == Rings(npus, order[..k])
      invariant row == TotalRows(npus, order[..k])
    {
      assert order[..k + 1][..k] == order[..k];
      var key := order[k];
      var members := StableSort(ByIndex, groups[key]);
      var startRow := row;
      CellsStep(npus, order, k);
      var dots := PlaceGroup(key, members, startRow);
      dotRel := dotRel + dots;
      row := startRow + RowsFor(|members|);
      if key != "" && |members| >= 2 {
        rings := rings + [RingBox(key, |members|, startRow)];
      }
    }
    assert order[..|order|] == order;
  }

  method PlaceGroup(key: string, members: seq<Npu>, startRow: nat) returns (dots: seq<Dot>)
    ensures dots == Dots(GroupCells(key, members, startRow))
  {
    dots := [];
    for j := 0 to |members|
      invariant dots == Dots(GroupCells(key, members, startRow))[..j]
    {
      var col, r := j % NPU_GRID_COLS, startRow + j / NPU_GRID_COLS;
      dots := dots + [Dot(members[j].id, NPU_GRID_PAD_X + col as real * COL_STEP,
          NPU_GRID_TOP + r as real * NPU_GRID_ROW_H)];
    }
  }

  method Partition(npus: seq<Npu>) returns (order: seq<string>, groups: map<string, seq<Npu>>)
    ensures order == GroupOrder(npus)
    ensures forall key :: key in order ==> key in groups && groups[key] == Members(npus, key)
  {
    order, groups := [], map[];
    for k := 0 to |npus|
      invariant order == GroupOrder(npus[..k])
      invariant forall key :: key in order <==> key in groups
      invariant forall key :: key in groups ==> groups[key] == Members(npus[..k], key)
      invariant forall key :: key !in groups ==> Members(npus[..k], key) == []
    {
      assert npus[..k + 1][..k] == npus[..k];
      var n := npus[k];
      if n.hccsGroup !in groups {
        groups := groups[n.hccsGroup := []];
        order := order + [n.hccsGroup];
      }
      groups := groups[n.hccsGroup := groups[n.hccsGroup] + [n]];
    }
    assert npus[..|npus|] == npus;
  }

  lemma CellsStep(npus: seq<Npu>, order: seq<string>, k: nat)
    requires k < |order|
    ensures var key, start := order[k], TotalRows(npus, order[..k]);
      && Dots(Cells(npus, order[..k + 1])) ==
          Dots(Cells(npus, order[..k])) + Dots(GroupCells(key, Ordered(npus, key), start))
      && TotalRows(npus, order[..k + 1]) == start + RowsFor(|Ordered(npus, key)|)
  {
    assert order[..k + 1][..k] == order[..k];
  }

  // ---------------------------------------------------------------- everyone is placed once

  lemma {:induction false} GroupOrderExact(npus: seq<Npu>)
    ensures AllDistinct(GroupOrder(npus))
    ensures forall key :: key in GroupOrder(npus) <==> Members(npus, key) != []
    ensures forall n :: n in npus ==> n.hccsGroup in GroupOrder(npus)
  {
    if npus != [] {
      GroupOrderExact(npus[..|npus| - 1]);
      assert npus == npus[..|npus| - 1] + [npus[|npus| - 1]];
    }
  }

  /** The NPUs of the given groups, with multiplicity. */
  function Grouped(npus: seq<Npu>, keys: seq<string>): multiset<Npu> {
    if keys == [] then multiset{}
    else Grouped(npus, keys[..|keys| - 1]) + multiset(Members(npus, keys[|keys| - 1]))
  }

  lemma BagsRegroup(a: multiset<Npu>, b: seq<Npu>, x: Npu)
    ensures (a + multiset{x}) + multiset(b) == (a + multiset(b)) + multiset{x}
    ensures a + multiset(b + [x]) == (a + multiset(b)) + multiset{x}
  {
  }

  lemma {:induction false} GroupedMore(npus: seq<Npu>, n: Npu, keys: seq<string>)
    requires AllDistinct(keys)
    ensures n.hccsGroup in keys ==> Grouped(npus + [n], keys) == Grouped(npus, keys) + multiset{n}
    ensures n.hccsGroup !in keys ==> Grouped(npus + [n], keys) == Grouped(npus, keys)
  {
    if keys != [] {
      var before, key := keys[..|keys| - 1], keys[|keys| - 1];
      assert keys == before + [key];
      GroupedMore(npus, n, before);
      BagsRegroup(Grouped(npus, before), Members(npus, key), n);
      if n.hccsGroup == key {
        assert key !in before;
      }
    }
  }

  lemma CoverStep(u: seq<Npu>, n: Npu)
    requires Grouped(u, GroupOrder(u)) == multiset(u)
    ensures Grouped(u + [n], GroupOrder(u + [n])) == multiset(u) + multiset{n}
  {
    var before := GroupOrder(u);
    UnlistedIsEmpty(u, n.hccsGroup);
    GroupedMore(u, n, before);
    if n.hccsGroup !in before {
    }
  }

  lemma UnlistedIsEmpty(npus: seq<Npu>, key: string)
    ensures AllDistinct(GroupOrder(npus))
    ensures key !in GroupOrder(npus) ==> Members(npus, key) == []
  {
    GroupOrderExact(npus);
  }

  lemma {:induction false} GroupsCoverAll(npus: seq<Npu>)
    ensures Grouped(npus, GroupOrder(npus)) == multiset(npus)
  {
    if npus != [] {
      DropLast(npus);
      GroupsCoverAll(npus[..|npus| - 1]);
      CoverStep(npus[..|npus| - 1], npus[|npus| - 1]);
    }
  }

  /** The NPUs in the order in which they are drawn: group after group, by index. */
  function Drawn(npus: seq<Npu>, keys: seq<string>): seq<Npu> {
    if keys == [] then [] else Drawn(npus, keys[..|keys| - 1]) + Ordered(npus, keys[|keys| - 1])
  }

  lemma {:induction false} DrawnIsGrouped(npus: seq<Npu>, keys: seq<string>)
    ensures multiset(Drawn(npus, keys)) == Grouped(npus, keys)
  {
    if keys != [] {
      DrawnIsGrouped(npus, keys[..|keys| - 1]);
      StableSortPerm(ByIndex, Members(npus, keys[|keys| - 1]));
    }
  }

  lemma {:induction false} MembersAre(npus: seq<Npu>, key: string)
    ensures forall n :: n in Members(npus, key) ==> n.hccsGroup == key
  {
    if npus != [] {
      MembersAre(npus[..|npus| - 1], key);
    }
  }

  /** Each cell is that of one NPU, with its id and its group. */
  predicate CellsFor(cells: seq<Cell>, order: seq<Npu>) {
    |cells| == |order| &&
    forall k :: 0 <= k < |cells| ==> cells[k].id == order[k].id && cells[k].group == order[k].hccsGroup
  }

  lemma GroupCellsFor(npus: seq<Npu>, key: string, start: nat)
    ensures CellsFor(GroupCells(key, Ordered(npus, key), start), Ordered(npus, key))
  {
    var members := Ordered(npus, key);
    MembersAre(npus, key);
    StableSortPerm(ByIndex, Members(npus, key));
    SameElements(members, Members(npus, key));
    forall k | 0 <= k < |members| ensures members[k].hccsGroup == key {
      assert members[k] in Members(npus, key);
    }
  }

  lemma {:induction false} CellsAreDrawn(npus: seq<Npu>, keys: seq<string>)
    ensures CellsFor(Cells(npus, keys), Drawn(npus, keys))
  {
    if keys != [] {
      var before, key := keys[..|keys| - 1], keys[|keys| - 1];
      CellsAreDrawn(npus, before);
      GroupCellsFor(npus, key, TotalRows(npus, before));
    }
  }

  /** One dot for each of the NPUs. */
  predicate DotsFor(dots: seq<Dot>, order: seq<Npu>) {
    |dots| == |order| && forall k :: 0 <= k < |dots| ==> dots[k].id == order[k].id
  }

  /** Every NPU gets exactly one dot: the NPUs drawn are the NPUs given. */
  lemma EachNpuPlacedOnce(npus: seq<Npu>)
    ensures var order := Drawn(npus, GroupOrder(npus));
      multiset(order) == multiset(npus) && DotsFor(Dots(Cells(npus, GroupOrder(npus))), order)
  {
    CellsAreDrawn(npus, GroupOrder(npus));
    DrawnIsGrouped(npus, GroupOrder(npus));
    GroupsCoverAll(npus);
  }

  // ---------------------------------------------------------------- geometry

  /** Closed boxes [x, x + w] by [y, y + h] that have no point in common. */
  predicate Apart(x1: real, y1: real, w1: real, h1: real, x2: real, y2: real, w2: real, h2: real) {
    x1 + w1 < x2 || x2 + w2 < x1 || y1 + h1 < y2 || y2 + h2 < y1
  }

  predicate DotsApart(a: Dot, b: Dot) {
    Apart(a.x, a.y, NPU_CIRCLE, NPU_CIRCLE, b.x, b.y, NPU_CIRCLE, NPU_CIRCLE)
  }

  predicate DotOutside(r: Ring, d: Dot) {
    Apart(r.x, r.y, r.w, r.h, d.x, d.y, NPU_CIRCLE, NPU_CIRCLE)
  }

  /** The whole dot lies inside the ring, with the padding to spare. */
  predicate DotInside(r: Ring, d: Dot) {
    && r.x + HCCS_RING_PAD <= d.x && d.x + NPU_CIRCLE + HCCS_RING_PAD <= r.x + r.w
    && r.y + HCCS_RING_PAD <= d.y && d.y + NPU_CIRCLE + HCCS_RING_PAD <= r.y + r.h
  }

  predicate RingsApart(a: Ring, b: Ring) {
    Apart(a.x, a.y, a.w, a.h, b.x, b.y, b.w, b.h)
  }

  /** A cell of group `i` lies in the rows of that group and in the four columns. */
  predicate InBand(npus: seq<Npu>, keys: seq<string>, i: nat, c: Cell)
    requires i < |keys|
  {
    var n := |Members(npus, keys[i])|;
    && c.group == keys[i]
    && TotalRows(npus, keys[..i]) <= c.row < TotalRows(npus, keys[..i]) + RowsFor(n)
    && c.col < Min(n, 4)
  }

  lemma GroupInBand(npus: seq<Npu>, keys: seq<string>, i: nat, j: nat)
    requires i < |keys| && j < |Members(npus, keys[i])|
    ensures InBand(npus, keys, i, CellAt(keys[i], Ordered(npus, keys[i]), TotalRows(npus, keys[..i]), j))
  {
  }

  lemma {:induction false} RowsMonotone(npus: seq<Npu>, keys: seq<string>, i: nat, j: nat)
    requires i < j <= |keys|
    ensures TotalRows(npus, keys[..i]) + RowsFor(|Members(npus, keys[i])|) <= TotalRows(npus, keys[..j])
  {
    assert keys[..j][..j - 1] == keys[..j - 1];
    if i < j - 1 {
      RowsMonotone(npus, keys, i, j - 1);
    }
  }

  lemma {:induction false} CellsInBands(npus: seq<Npu>, keys: seq<string>, m: nat)
    requires m <= |keys|
    ensures forall c :: c in Cells(npus, keys[..m]) ==> exists i: nat :: i < m && InBand(npus, keys, i, c)
  {
    if m > 0 {
      CellsInBands(npus, keys, m - 1);
      assert keys[..m][..m - 1] == keys[..m - 1];
      var key, start := keys[m - 1], TotalRows(npus, keys[..m - 1]);
      var g := GroupCells(key, Ordered(npus, key), start);
      forall c | c in g ensures exists i: nat :: i < m && InBand(npus, keys, i, c) {
        var j :| 0 <= j < |g| && g[j] == c;
        GroupInBand(npus, keys, m - 1, j);
      }
    }
  }

  predicate NoSharedCell(cells: seq<Cell>) {
    forall p, q :: 0 <= p < q < |cells| ==> cells[p].row != cells[q].row || cells[p].col != cells[q].col
  }

  /** No two dots share a grid cell. */
  lemma {:induction false} CellsDistinct(npus: seq<Npu>, keys: seq<string>, m: nat)
    requires m <= |keys|
    ensures NoSharedCell(Cells(npus, keys[..m]))
  {
    if m > 0 {
      CellsDistinct(npus, keys, m - 1);
      CellsInBands(npus, keys, m - 1);
      assert keys[..m][..m - 1] == keys[..m - 1];
      var before, key, start := Cells(npus, keys[..m - 1]), keys[m - 1], TotalRows(npus, keys[..m - 1]);
      forall c | c in before ensures c.row < start {
        var i: nat :| i < m - 1 && InBand(npus, keys, i, c);
        RowsMonotone(npus, keys, i, m - 1);
      }
    }
  }

  predicate AllDotsApart(dots: seq<Dot>) {
    forall p, q :: 0 <= p < q < |dots| ==> DotsApart(dots[p], dots[q])
  }

  /** Dot boxes never overlap. */
  lemma DotsNeverOverlap(npus: seq<Npu>)
    ensures AllDotsApart(Dots(Cells(npus, GroupOrder(npus))))
  {
    var keys := GroupOrder(npus);
    assert keys[..|keys|] == keys;
    CellsDistinct(npus, keys, |keys|);
    var cells := Cells(npus, keys);
    forall p, q | 0 <= p < q < |cells| ensures DotsApart(Place(cells[p]), Place(cells[q])) {
    }
  }

  /** The ring of group `i`. */
  function RingAt(npus: seq<Npu>, keys: seq<string>, i: nat): Ring
    requires i < |keys| && HasRing(npus, keys[i])
  {
    RingBox(keys[i], |Members(npus, keys[i])|, TotalRows(npus, keys[..i]))
  }

  lemma RingAroundBand(npus: seq<Npu>, keys: seq<string>, i: nat, c: Cell)
    requires i < |keys| && HasRing(npus, keys[i]) && InBand(npus, keys, i, c)
    ensures DotInside(RingAt(npus, keys, i), Place(c))
  {
    var n, start := |Members(npus, keys[i])|, TotalRows(npus, keys[..i]);
    assert COL_STEP == 110.0 / 3.0;
    assert c.row as real <= (start + RowsFor(n) - 1) as real;
  }

  /** The box is no larger than that: the first dot, the last of the first row and the last of
      all are exactly the padding away from its sides. */
  lemma RingIsTight(key: string, members: seq<Npu>, startRow: nat)
    requires |members| >= 2
    ensures var r, n := RingBox(key, |members|, startRow), |members|;
      var first, right, last := Place(CellAt(key, members, startRow, 0)),
        Place(CellAt(key, members, startRow, Min(n, 4) - 1)), Place(CellAt(key, members, startRow, n - 1));
      && first.x == r.x + HCCS_RING_PAD && first.y == r.y + HCCS_RING_PAD
      && right.x + NPU_CIRCLE + HCCS_RING_PAD == r.x + r.w
      && last.y + NPU_CIRCLE + HCCS_RING_PAD == r.y + r.h
  {
    var n := |members|;
    var right, last := CellAt(key, members, startRow, Min(n, 4) - 1), CellAt(key, members, startRow, n - 1);
    assert right.col == Min(n, 4) - 1 && last.row == startRow + RowsFor(n) - 1;
  }

  lemma RingClearsOtherBand(npus: seq<Npu>, keys: seq<string>, i: nat, k: nat, c: Cell)
    requires i < |keys| && k < |keys| && i != k && HasRing(npus, keys[i]) && InBand(npus, keys, k, c)
    ensures DotOutside(RingAt(npus, keys, i), Place(c))
  {
    var n, start := |Members(npus, keys[i])|, TotalRows(npus, keys[..i]);
    if i < k {
      RowsMonotone(npus, keys, i, k);
      assert c.row as real >= (start + RowsFor(n) - 1) as real + 1.0;
    } else {
      RowsMonotone(npus, keys, k, i);
      assert start as real >= c.row as real + 1.0;
    }
  }

  lemma RingsClear(npus: seq<Npu>, keys: seq<string>, i: nat, k: nat)
    requires i < k < |keys| && HasRing(npus, keys[i]) && HasRing(npus, keys[k])
    ensures RingsApart(RingAt(npus, keys, i), RingAt(npus, keys, k))
  {
    var n, start := |Members(npus, keys[i])|, TotalRows(npus, keys[..i]);
    RowsMonotone(npus, keys, i, k);
    assert TotalRows(npus, keys[..k]) as real >= (start + RowsFor(n) - 1) as real + 1.0;
  }

  ghost predicate RingOfSome(npus: seq<Npu>, keys: seq<string>, m: nat, r: Ring)
    requires m <= |keys|
  {
    exists i: nat :: i < m && HasRing(npus, keys[i]) && r == RingAt(npus, keys, i)
  }

  predicate DistinctGroups(rings: seq<Ring>) {
    forall p, q :: 0 <= p < q < |rings| ==> rings[p].groupId != rings[q].groupId
  }

  /** The rings are those of the groups that have one, in group order. */
  lemma {:induction false} RingsExact(npus: seq<Npu>, keys: seq<string>, m: nat)
    requires m <= |keys| && AllDistinct(keys)
    ensures forall r :: r in Rings(npus, keys[..m]) <==> RingOfSome(npus, keys, m, r)
    ensures DistinctGroups(Rings(npus, keys[..m]))
  {
    if m > 0 {
      RingsExact(npus, keys, m - 1);
      assert keys[..m][..m - 1] == keys[..m - 1];
      var before, rings := Rings(npus, keys[..m - 1]), Rings(npus, keys[..m]);
      forall r ensures RingOfSome(npus, keys, m, r) <==>
          RingOfSome(npus, keys, m - 1, r) || (HasRing(npus, keys[m - 1]) && r == RingAt(npus, keys, m - 1)) {
      }
      if HasRing(npus, keys[m - 1]) {
        assert rings == before + [RingAt(npus, keys, m - 1)];
        forall r | r in before ensures r.groupId != keys[m - 1] {
          assert RingOfSome(npus, keys, m - 1, r);
          var i: nat :| i < m - 1 && HasRing(npus, keys[i]) && r == RingAt(npus, keys, i);
        }
        forall p, q | 0 <= p < q < |rings| ensures rings[p].groupId != rings[q].groupId {
          assert rings[p] == before[p] && before[p] in before;
        }
      }
    }
  }

  /** Around the cells of its own group, clear of all others. */
  predicate Encloses(r: Ring, cells: seq<Cell>) {
    forall c :: c in cells ==> if c.group == r.groupId then DotInside(r, Place(c)) else DotOutside(r, Place(c))
  }

  /** Around the dots of the NPUs of its group, clear of the dots of all others. */
  predicate Holds(r: Ring, dots: seq<Dot>, order: seq<Npu>)
    requires |dots| == |order|
  {
    forall k :: 0 <= k < |dots| ==>
      if order[k].hccsGroup == r.groupId then DotInside(r, dots[k]) else DotOutside(r, dots[k])
  }

  predicate AllApart(rings: seq<Ring>) {
    forall p, q :: 0 <= p < q < |rings| ==> RingsApart(rings[p], rings[q])
  }

  /** Exactly one ring for each named group of two or more; it says how many NPUs the group has,
      holds the dot of every NPU of the group with the padding around, and touches no dot of
      another NPU; and no two rings touch. */
  lemma RingsEncloseTheirGroups(npus: seq<Npu>)
    ensures var rings := Rings(npus, GroupOrder(npus));
      && (forall key :: HasRingFor(rings, key) <==> key != "" && |Members(npus, key)| >= 2)
      && DistinctGroups(rings) && AllApart(rings)
      && (forall r :: r in rings ==> r.npuCount == |Members(npus, r.groupId)|)
    ensures var order, dots := Drawn(npus, GroupOrder(npus)), Dots(Cells(npus, GroupOrder(npus)));
      && multiset(order) == multiset(npus) && DotsFor(dots, order)
      && (forall r :: r in Rings(npus, GroupOrder(npus)) ==> Holds(r, dots, order))
  {
    EachNpuPlacedOnce(npus);
    RingsOfGroups(npus);
    forall key ensures HasRingFor(Rings(npus, GroupOrder(npus)), key) <==> key != "" && |Members(npus, key)| >= 2 {
      RingOfGroup(npus, key);
    }
    CellsAreDrawn(npus, GroupOrder(npus));
    forall r | r in Rings(npus, GroupOrder(npus))
      ensures Holds(r, Dots(Cells(npus, GroupOrder(npus))), Drawn(npus, GroupOrder(npus))) {
      RingHolds(npus, r);
    }
  }

  lemma RingHolds(npus: seq<Npu>, r: Ring)
    requires r in Rings(npus, GroupOrder(npus))
    requires CellsFor(Cells(npus, GroupOrder(npus)), Drawn(npus, GroupOrder(npus)))
    ensures Holds(r, Dots(Cells(npus, GroupOrder(npus))), Drawn(npus, GroupOrder(npus)))
  {
    var keys := GroupOrder(npus);
    GroupOrderExact(npus);
    assert keys[..|keys|] == keys;
    RingsExact(npus, keys, |keys|);
    RingEncloses(npus, keys, r);
  }

  predicate HasRingFor(rings: seq<Ring>, key: string) {
    exists r :: r in rings && r.groupId == key
  }

  /** With distinct ids an NPU's dot is found by its id: a ring that holds the dots of its own
      group holds that dot exactly if it is the ring of the NPU's group. */
  lemma EachNpuInItsRing(npus: seq<Npu>, order: seq<Npu>, dots: seq<Dot>, r: Ring, n: Npu, d: Dot)
    requires multiset(order) == multiset(npus) && DotsFor(dots, order) && Holds(r, dots, order)
    requires n in npus && forall m :: m in npus && m.id == n.id ==> m == n
    requires d in dots && d.id == n.id
    ensures if n.hccsGroup == r.groupId then DotInside(r, d) else DotOutside(r, d)
  {
    SameElements(order, npus);
    var k :| 0 <= k < |dots| && dots[k] == d;
    assert order[k] in order && order[k] in npus && order[k].id == n.id;
  }

  lemma RingOfGroup(npus: seq<Npu>, key: string)
    ensures HasRingFor(Rings(npus, GroupOrder(npus)), key) <==> key != "" && |Members(npus, key)| >= 2
  {
    var keys := GroupOrder(npus);
    var rings := Rings(npus, keys);
    GroupOrderExact(npus);
    assert keys[..|keys|] == keys;
    RingsExact(npus, keys, |keys|);
    if HasRing(npus, key) {
      var i: nat :| i < |keys| && keys[i] == key;
      assert RingOfSome(npus, keys, |keys|, RingAt(npus, keys, i));
      assert RingAt(npus, keys, i) in rings && RingAt(npus, keys, i).groupId == key;
    }
    if r :| r in rings && r.groupId == key {
      assert RingOfSome(npus, keys, |keys|, r);
    }
  }

  lemma RingsOfGroups(npus: seq<Npu>)
    ensures var rings := Rings(npus, GroupOrder(npus));
      && DistinctGroups(rings) && AllApart(rings)
      && (forall r :: r in rings ==> r.npuCount == |Members(npus, r.groupId)|)
  {
    var keys := GroupOrder(npus);
    var rings := Rings(npus, keys);
    GroupOrderExact(npus);
    assert keys[..|keys|] == keys;
    RingsExact(npus, keys, |keys|);
    forall r | r in rings ensures r.npuCount == |Members(npus, r.groupId)| {
      assert RingOfSome(npus, keys, |keys|, r);
    }
    forall p, q | 0 <= p < q < |rings| ensures RingsApart(rings[p], rings[q]) {
      assert rings[p] in rings && rings[q] in rings;
      TwoRingsApart(npus, keys, rings[p], rings[q]);
    }
  }

  lemma TwoRingsApart(npus: seq<Npu>, keys: seq<string>, r: Ring, s: Ring)
    requires RingOfSome(npus, keys, |keys|, r) && RingOfSome(npus, keys, |keys|, s) && r.groupId != s.groupId
    ensures RingsApart(r, s)
  {
    var i: nat :| i < |keys| && HasRing(npus, keys[i]) && r == RingAt(npus, keys, i);
    var k: nat :| k < |keys| && HasRing(npus, keys[k]) && s == RingAt(npus, keys, k);
    if i < k { RingsClear(npus, keys, i, k); } else { RingsClear(npus, keys, k, i); }
  }

  lemma RingEncloses(npus: seq<Npu>, keys: seq<string>, r: Ring)
    requires AllDistinct(keys) && RingOfSome(npus, keys, |keys|, r)
    ensures Encloses(r, Cells(npus, keys))
  {
    assert keys[..|keys|] == keys;
    CellsInBands(npus, keys, |keys|);
    var i: nat :| i < |keys| && HasRing(npus, keys[i]) && r == RingAt(npus, keys, i);
    forall c | c in Cells(npus, keys)
      ensures if c.group == r.groupId then DotInside(r, Place(c)) else DotOutside(r, Place(c)) {
      var k: nat :| k < |keys| && InBand(npus, keys, k, c);
      if i == k { RingAroundBand(npus, keys, i, c); } else { RingClearsOtherBand(npus, keys, i, k, c); }
    }
  }

  /** Read row by row, a group's dots follow the NPU index. */
  lemma GroupReadsByIndex(npus: seq<Npu>, key: string, startRow: nat, i: nat, j: nat)
    requires i < j < |Ordered(npus, key)|
    ensures Ordered(npus, key)[i].index <= Ordered(npus, key)[j].index
    ensures var a, b := CellAt(key, Ordered(npus, key), startRow, i), CellAt(key, Ordered(npus, key), startRow, j);
      a.row < b.row || (a.row == b.row && a.col < b.col)
  {
    StableSortSorted(ByIndex, Members(npus, key));
    assert ByIndex(Ordered(npus, key)[i], Ordered(npus, key)[j]);
  }
}
