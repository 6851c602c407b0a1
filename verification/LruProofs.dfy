/** What a cache call means in terms of the calls before it, and what the counters count. */
module LruProofs {
  import opened Wrappers
  import opened LruSpec

  // ---------------------------------------------------------------- the recency list

  predicate DistinctKeys<K(==), V>(entries: seq<Entry<K, V>>) {
    forall i, j :: 0 <= i < j < |entries| ==> entries[i].key != entries[j].key
  }

  predicate Absent<K(==), V>(entries: seq<Entry<K, V>>, k: K) {
    forall i :: 0 <= i < |entries| ==> entries[i].key != k
  }

  lemma {:induction false} KeysCount<K, V>(entries: seq<Entry<K, V>>)
    requires DistinctKeys(entries)
    ensures |Keys(entries)| == |entries|
  {
    if entries != [] {
      var u, e := entries[..|entries| - 1], entries[|entries| - 1];
      KeysCount(u);
      assert Keys(entries) == Keys(u) + {e.key};
      assert e.key !in Keys(u);
    }
  }

  lemma KeysCons<K, V>(e: Entry<K, V>, entries: seq<Entry<K, V>>)
    ensures Keys([e] + entries) == {e.key} + Keys(entries)
  {
    var all := [e] + entries;
    forall k | k in {e.key} + Keys(entries) ensures k in Keys(all) {
      if k == e.key {
        assert all[0].key == k;
      } else {
        var i :| 0 <= i < |entries| && entries[i].key == k;
        assert all[i + 1].key == k;
      }
    }
  }

  lemma KeysWithout<K, V>(entries: seq<Entry<K, V>>, i: nat)
    requires i < |entries| && DistinctKeys(entries)
    ensures Keys(Without(entries, i)) == Keys(entries) - {entries[i].key}
    ensures DistinctKeys(Without(entries, i))
    ensures |Without(entries, i)| == |entries| - 1
  {
    var w := Without(entries, i);
    forall j | 0 <= j < |entries| && j != i ensures entries[j].key in Keys(w) {
      assert w[if j < i then j else j - 1] == entries[j];
    }
  }

  // ---------------------------------------------------------------- bookkeeping

  /** Keys are distinct and within the bound; with a TTL exactly the cached keys are stamped. */
  ghost predicate Book<K, V>(o: Options, s: State<K, V>) {
    && DistinctKeys(s.entries)
    && |s.entries| <= o.maxEntries
    && s.addedAt.Keys == (if o.ttl > 0 then Keys(s.entries) else {})
    && s.counts.total == s.counts.capacity + s.counts.ttl + s.counts.explicit
  }

  lemma {:induction false} IncByExact(c: Counts, n: nat)
    ensures IncBy(c, Explicit, n) == c.(total := c.total + n, explicit := c.explicit + n)
  {
    if n > 0 {
      IncByExact(c, n - 1);
    }
  }

  lemma DropKeepsBook<K, V>(o: Options, s: State<K, V>, k: K, reason: Reason)
    requires o.Legal() && Book(o, s)
    ensures Book(o, Drop(s, k, reason))
    ensures |Drop(s, k, reason).entries| + Drop(s, k, reason).counts.total == |s.entries| + s.counts.total
    ensures Keys(Drop(s, k, reason).entries) == Keys(s.entries) - {k}
  {
    var i := Find(s.entries, k);
    if i < |s.entries| {
      KeysWithout(s.entries, i);
    }
  }

  lemma FrontKeepsKeys<K, V>(e: Entry<K, V>, entries: seq<Entry<K, V>>, i: nat)
    requires i < |entries| && entries[i].key == e.key && DistinctKeys(entries)
    ensures DistinctKeys([e] + Without(entries, i)) && Keys([e] + Without(entries, i)) == Keys(entries)
  {
    KeysWithout(entries, i);
    KeysCons(e, Without(entries, i));
    var w := Without(entries, i);
    forall j | 0 <= j < |w| ensures w[j].key != e.key {
      assert w[j].key in Keys(w);
    }
  }

  lemma InsertKeepsBook<K, V>(o: Options, s: State<K, V>, k: K, v: V, now: int)
    requires o.Legal() && Book(o, s)
    ensures Book(o, Insert(o, s, k, v, now))
    ensures var t := Insert(o, s, k, v, now);
      |t.entries| + t.counts.total == |s.entries| + s.counts.total + (if k in Keys(s.entries) then 0 else 1)
  {
    var i, e := Find(s.entries, k), Entry(k, v);
    if i < |s.entries| {
      FrontKeepsKeys(e, s.entries, i);
      assert s.entries[i].key in Keys(s.entries);
    } else {
      KeysCons(e, s.entries);
      if |s.entries| >= o.maxEntries {
        var all := [e] + s.entries;
        assert DistinctKeys(all);
        KeysWithout(all, |s.entries|);
        assert Without(all, |s.entries|) == all[..|s.entries|];
      }
    }
  }

  /** One call keeps the books, and an Add of a missing key is the only way to grow. */
  lemma StepKeepsBook<K, V>(o: Options, s: State<K, V>, event: Event<K, V>)
    requires o.Legal() && Book(o, s)
    ensures var t := Step(o, s, event).0;
      && Book(o, t)
      && |t.entries| + t.counts.total ==
          |s.entries| + s.counts.total + (if event.Add? && event.key !in Keys(s.entries) then 1 else 0)
  {
    match event
    case Get(k, now) =>
      if Expired(o, s, k, now) {
        DropKeepsBook(o, s, k, Ttl);
      } else if Find(s.entries, k) < |s.entries| {
        FrontKeepsKeys(s.entries[Find(s.entries, k)], s.entries, Find(s.entries, k));
      }
    case Add(k, v, now) => InsertKeepsBook(o, s, k, v, now);
    case Remove(k) => DropKeepsBook(o, s, k, Explicit);
    case Purge => IncByExact(s.counts, |s.entries|);
  }

  /** Over every history: the cache stays within its bound, with a TTL exactly the cached keys
      carry a time stamp, the total is the sum of the three causes, and every insertion of a
      missing key is either still there or was evicted once. */
  lemma {:induction false} BooksBalance<K, V>(o: Options, events: seq<Event<K, V>>)
    requires o.Legal()
    ensures Book(o, Run(o, events))
    ensures Inserts(o, events) == |Run(o, events).entries| + Run(o, events).counts.total
  {
    if events != [] {
      BooksBalance(o, events[..|events| - 1]);
      StepKeepsBook(o, Run(o, events[..|events| - 1]), events[|events| - 1]);
    }
  }

  /** A call moves only the counter of its own cause, by the entries it evicts: a Get that of the
      age, an Add that of the capacity, Remove and Purge that of the caller. */
  lemma EvictionsHaveTheirCause<K, V>(o: Options, s: State<K, V>, event: Event<K, V>)
    requires o.Legal() && Book(o, s)
    ensures var t := Step(o, s, event).0;
      var evicted := |s.entries| + (if event.Add? && event.key !in Keys(s.entries) then 1 else 0) - |t.entries|;
      && t.counts.total == s.counts.total + evicted
      && t.counts.ttl == s.counts.ttl + (if event.Get? then evicted else 0)
      && t.counts.capacity == s.counts.capacity + (if event.Add? then evicted else 0)
      && t.counts.explicit == s.counts.explicit + (if event.Remove? || event.Purge? then evicted else 0)
  {
    StepKeepsBook(o, s, event);
    match event
    case Purge => IncByExact(s.counts, |s.entries|);
    case Get(k, now) =>
    case Add(k, v, now) => KeyFound(s.entries, k);
    case Remove(k) =>
  }

  /** What a call says of evictions is true: an Add tells whether an entry had to go, which is when
      a missing key meets a full cache; a Remove tells whether the key was there; and nothing is
      left by a Purge. */
  lemma AnswersTell<K, V>(o: Options, s: State<K, V>, event: Event<K, V>)
    requires o.Legal() && Book(o, s)
    ensures var (t, outcome) := Step(o, s, event);
      match event
      case Add(k, _, _) =>
        && outcome == Added(t.counts.total > s.counts.total)
        && (t.counts.total > s.counts.total <==> k !in Keys(s.entries) && |s.entries| == o.maxEntries)
        && k in Keys(t.entries) && Keys(t.entries) <= Keys(s.entries) + {k}
      case Remove(k) => outcome == Removed(k in Keys(s.entries)) && Keys(t.entries) == Keys(s.entries) - {k}
      case Get(_, _) => outcome.Hit? || outcome.Miss?
      case Purge => outcome.Purged? && t.entries == []
  {
    EvictionsHaveTheirCause(o, s, event);
    match event
    case Add(k, v, now) =>
      KeyFound(s.entries, k);
      InsertedKeys(o, s, k, v, now);
    case Remove(k) =>
      KeyFound(s.entries, k);
      DropKeepsBook(o, s, k, Explicit);
    case Get(k, now) =>
    case Purge =>
  }

  lemma InsertedKeys<K, V>(o: Options, s: State<K, V>, k: K, v: V, now: int)
    requires o.Legal() && Book(o, s)
    ensures k in Keys(Insert(o, s, k, v, now).entries)
    ensures Keys(Insert(o, s, k, v, now).entries) <= Keys(s.entries) + {k}
  {
    var i, e, t := Find(s.entries, k), Entry(k, v), Insert(o, s, k, v, now).entries;
    assert t[0].key == k;
    KeysCons(e, s.entries);
    if i < |s.entries| {
      FrontKeepsKeys(e, s.entries, i);
    }
  }

  lemma KeyFound<K, V>(entries: seq<Entry<K, V>>, k: K)
    ensures k in Keys(entries) <==> Find(entries, k) < |entries|
  {
  }

  // ---------------------------------------------------------------- recency

  /** Whatever stands before an entry was used after it; with `exact`, nothing else was. */
  ghost predicate Recent<K, V>(log: seq<Record<K, V>>, entries: seq<Entry<K, V>>, exact: bool) {
    forall q :: 0 <= q < |entries| ==>
      && Keys(entries[..q]) <= UsedSince(log, entries[q].key)
      && (exact ==> Keys(entries[..q]) == UsedSince(log, entries[q].key))
  }

  /** Where the entry at `q` behind the new front came from. */
  function Origin(i: nat, q: nat): nat
    requires q > 0
  {
    if q - 1 < i then q - 1 else q
  }

  lemma FrontPrefix<K, V>(e: Entry<K, V>, entries: seq<Entry<K, V>>, i: nat, q: nat)
    requires i < |entries| && entries[i].key == e.key && DistinctKeys(entries) && 0 < q < |entries|
    ensures var f, m := [e] + Without(entries, i), Origin(i, q);
      && |f| == |entries| && f[q] == entries[m] && m != i
      && Keys(f[..q]) == {e.key} + Keys(entries[..m])
  {
    var f, m := [e] + Without(entries, i), Origin(i, q);
    if q - 1 < i {
      assert f[..q] == [e] + entries[..m];
    } else {
      assert f[..q] == [e] + Without(entries[..m], i);
      KeysWithout(entries[..m], i);
      KeysCons(e, Without(entries[..m], i));
      assert entries[..m][i] == entries[i];
      assert entries[i].key in Keys(entries[..m]);
    }
    if q - 1 < i { KeysCons(e, entries[..m]); }
  }

  /** Using a present key brings it to the front. */
  lemma FrontIsRecent<K, V>(log: seq<Record<K, V>>, r: Record<K, V>, e: Entry<K, V>, entries: seq<Entry<K, V>>,
                            i: nat, exact: bool)
    requires i < |entries| && entries[i].key == e.key && DistinctKeys(entries) && Recent(log, entries, exact)
    requires Uses(r, e.key)
    ensures Recent(log + [r], [e] + Without(entries, i), exact)
  {
    var f := [e] + Without(entries, i);
    forall q | 0 <= q < |f|
      ensures Keys(f[..q]) <= UsedSince(log + [r], f[q].key)
      ensures exact ==> Keys(f[..q]) == UsedSince(log + [r], f[q].key) {
      if q > 0 {
        FrontPrefix(e, entries, i, q);
      } else {
        assert Keys(f[..0]) == {};
      }
    }
  }

  /** So does adding a missing one. */
  lemma ConsIsRecent<K, V>(log: seq<Record<K, V>>, r: Record<K, V>, e: Entry<K, V>, entries: seq<Entry<K, V>>,
                           exact: bool)
    requires Absent(entries, e.key) && Recent(log, entries, exact)
    requires Uses(r, e.key)
    ensures Recent(log + [r], [e] + entries, exact)
  {
    var f := [e] + entries;
    forall q | 0 <= q < |f|
      ensures Keys(f[..q]) <= UsedSince(log + [r], f[q].key)
      ensures exact ==> Keys(f[..q]) == UsedSince(log + [r], f[q].key) {
      if q > 0 {
        assert f[..q] == [e] + entries[..q - 1];
        KeysCons(e, entries[..q - 1]);
      } else {
        assert Keys(f[..0]) == {};
      }
    }
  }

  lemma PrefixIsRecent<K, V>(log: seq<Record<K, V>>, entries: seq<Entry<K, V>>, n: nat, exact: bool)
    requires n <= |entries| && Recent(log, entries, exact)
    ensures Recent(log, entries[..n], exact)
  {
    forall q | 0 <= q < n ensures entries[..n][..q] == entries[..q] {
    }
  }

  lemma DropIsRecent<K, V>(log: seq<Record<K, V>>, entries: seq<Entry<K, V>>, i: nat)
    requires i < |entries| && DistinctKeys(entries) && Recent(log, entries, false)
    ensures Recent(log, Without(entries, i), false)
  {
    var w := Without(entries, i);
    forall q | 0 <= q < |w| ensures Keys(w[..q]) <= UsedSince(log, w[q].key) {
      if q < i {
        assert w[..q] == entries[..q];
      } else {
        assert w[..q] == Without(entries[..q + 1], i);
        KeysWithout(entries[..q + 1], i);
      }
    }
  }

  // ---------------------------------------------------------------- what a call means

  lemma LatestSnoc<K, V>(log: seq<Record<K, V>>, r: Record<K, V>, k: K)
    ensures Latest(log + [r], k) ==
      match r.event
      case Add(key, value, now) => if key == k then Some(Held(value, now)) else Latest(log, k)
      case Remove(key) => if key == k then None else Latest(log, k)
      case Purge => None
      case Get(_, _) => Latest(log, k)
  {
  }

  /** A cached entry holds the latest value added, stamped with its time. */
  ghost predicate HoldsLatest<K, V>(o: Options, log: seq<Record<K, V>>, s: State<K, V>) {
    forall q :: 0 <= q < |s.entries| ==> HoldsAt(o, log, s, q)
  }

  ghost predicate HoldsAt<K, V>(o: Options, log: seq<Record<K, V>>, s: State<K, V>, q: nat)
    requires q < |s.entries|
  {
    var e := s.entries[q];
    var latest := Latest(log, e.key);
    && latest.Some? && latest.value.value == e.value
    && (o.ttl > 0 ==> e.key in s.addedAt && s.addedAt[e.key] == latest.value.since)
  }

  predicate TooOld<V>(o: Options, held: Held<V>, now: int) {
    o.ttl > 0 && now - held.since > o.ttl
  }

  /** At least MaxEntries other keys were used since the key was. */
  predicate Crowded<K(==), V>(o: Options, log: seq<Record<K, V>>, k: K) {
    |UsedSince(log, k)| >= o.maxEntries
  }

  /** A missing key was never added, or was taken out, or is too old, or was crowded out. */
  ghost predicate Accounted<K, V>(o: Options, log: seq<Record<K, V>>, k: K, now: int) {
    var latest := Latest(log, k);
    latest.Some? ==> TooOld(o, latest.value, now) || Crowded(o, log, k)
  }

  ghost predicate AllAccounted<K(!new), V>(o: Options, log: seq<Record<K, V>>, s: State<K, V>, now: int) {
    forall k :: Absent(s.entries, k) ==> Accounted(o, log, k, now)
  }

  ghost predicate Meaning<K(!new), V>(o: Options, log: seq<Record<K, V>>, s: State<K, V>, now: int) {
    && Book(o, s)
    && Recent(log, s.entries, false)
    && HoldsLatest(o, log, s)
    && AllAccounted(o, log, s, now)
  }

  lemma SubsetCount<K>(a: set<K>, b: set<K>)
    requires a <= b
    ensures |a| <= |b|
  {
    assert b == a + (b - a);
  }

  /** Time and further calls never make a missing key unaccounted for. */
  lemma StaysAccounted<K, V>(o: Options, log: seq<Record<K, V>>, r: Record<K, V>, k: K, now: int, later: int)
    requires Accounted(o, log, k, now) && now <= later
    requires !Uses(r, k)
    ensures Accounted(o, log + [r], k, later)
  {
    LatestSnoc(log, r, k);
    SubsetCount(UsedSince(log, k), UsedSince(log + [r], k));
  }

  lemma HitKeepsMeaning<K(!new), V>(o: Options, log: seq<Record<K, V>>, s: State<K, V>, k: K, i: nat, r: Record<K, V>,
                          now: int, later: int)
    requires o.Legal() && Meaning(o, log, s, now) && now <= later
    requires i < |s.entries| && s.entries[i].key == k
    requires r.event.Get? && r.event.key == k && r.outcome.Hit?
    ensures Meaning(o, log + [r], s.(entries := [s.entries[i]] + Without(s.entries, i)), later)
  {
    var e, f := s.entries[i], [s.entries[i]] + Without(s.entries, i);
    FrontKeepsKeys(e, s.entries, i);
    FrontIsRecent(log, r, e, s.entries, i, false);
    HitHoldsLatest(o, log, s, i, r);
    forall x | Absent(f, x) ensures Accounted(o, log + [r], x, later) {
      assert f[0] == e;
      AbsentSame(s.entries, f, x);
      StaysAccounted(o, log, r, x, now, later);
    }
  }

  lemma HitHoldsLatest<K, V>(o: Options, log: seq<Record<K, V>>, s: State<K, V>, i: nat, r: Record<K, V>)
    requires HoldsLatest(o, log, s) && i < |s.entries| && r.event.Get?
    ensures HoldsLatest(o, log + [r], s.(entries := [s.entries[i]] + Without(s.entries, i)))
  {
    var f := [s.entries[i]] + Without(s.entries, i);
    forall q | 0 <= q < |f| ensures HoldsAt(o, log + [r], s.(entries := f), q) {
      var m := if q == 0 then i else Origin(i, q);
      assert f[q] == s.entries[m] && HoldsAt(o, log, s, m);
      LatestSnoc(log, r, f[q].key);
    }
  }

  lemma AbsentSame<K, V>(a: seq<Entry<K, V>>, b: seq<Entry<K, V>>, k: K)
    requires Keys(a) <= Keys(b)
    ensures Absent(b, k) ==> Absent(a, k)
  {
    if Absent(b, k) {
      forall i | 0 <= i < |a| ensures a[i].key != k {
        assert a[i].key in Keys(b);
      }
    }
  }

  lemma MissKeepsMeaning<K(!new), V>(o: Options, log: seq<Record<K, V>>, s: State<K, V>, r: Record<K, V>, now: int,
                           later: int)
    requires Meaning(o, log, s, now) && now <= later && r.event.Get? && r.outcome.Miss?
    ensures Meaning(o, log + [r], s, later)
  {
    forall q | 0 <= q < |s.entries| ensures HoldsAt(o, log + [r], s, q) {
      assert HoldsAt(o, log, s, q);
      LatestSnoc(log, r, s.entries[q].key);
    }
    forall x | Absent(s.entries, x) ensures Accounted(o, log + [r], x, later) {
      StaysAccounted(o, log, r, x, now, later);
    }
  }

  /** Dropping an entry that is too old, or whose Latest the call itself ends. */
  lemma DropKeepsMeaning<K(!new), V>(o: Options, log: seq<Record<K, V>>, s: State<K, V>, k: K, reason: Reason,
                           r: Record<K, V>, now: int, later: int)
    requires o.Legal() && Meaning(o, log, s, now) && now <= later && Used(r) == {}
    requires (r.event.Get? && r.outcome.Miss? && r.event.key == k && Expired(o, s, k, later)) ||
        (r.event.Remove? && r.event.key == k)
    ensures Meaning(o, log + [r], Drop(s, k, reason), later)
  {
    var t, i := Drop(s, k, reason), Find(s.entries, k);
    DropKeepsBook(o, s, k, reason);
    if i < |s.entries| {
      DropIsRecent(log, s.entries, i);
    }
    DropHoldsLatest(o, log, s, k, reason, r);
    forall x | Absent(t.entries, x) ensures Accounted(o, log + [r], x, later) {
      DropAccounts(o, log, s, k, reason, r, now, later, x);
    }
  }

  lemma DropAccounts<K(!new), V>(o: Options, log: seq<Record<K, V>>, s: State<K, V>, k: K, reason: Reason,
                                 r: Record<K, V>, now: int, later: int, x: K)
    requires HoldsLatest(o, log, s) && AllAccounted(o, log, s, now) && now <= later && Used(r) == {}
    requires (r.event.Get? && r.outcome.Miss? && r.event.key == k && Expired(o, s, k, later)) ||
        (r.event.Remove? && r.event.key == k)
    requires Absent(Drop(s, k, reason).entries, x)
    ensures Accounted(o, log + [r], x, later)
  {
    LatestSnoc(log, r, x);
    if Absent(s.entries, x) {
      assert Accounted(o, log, x, now);
      StaysAccounted(o, log, r, x, now, later);
    } else {
      DroppedIsKey(s, k, reason, x);
      assert HoldsAt(o, log, s, Find(s.entries, k));
    }
  }

  lemma DroppedIsKey<K, V>(s: State<K, V>, k: K, reason: Reason, x: K)
    requires !Absent(s.entries, x) && Absent(Drop(s, k, reason).entries, x)
    ensures x == k && Find(s.entries, k) < |s.entries|
  {
    var i, t := Find(s.entries, k), Drop(s, k, reason);
    forall m | 0 <= m < |s.entries| && m != i ensures s.entries[m].key != x {
      assert t.entries[if i == |s.entries| || m < i then m else m - 1] == s.entries[m];
    }
  }

  lemma DropHoldsLatest<K, V>(o: Options, log: seq<Record<K, V>>, s: State<K, V>, k: K, reason: Reason, r: Record<K, V>)
    requires Book(o, s) && HoldsLatest(o, log, s)
    requires r.event.Get? || (r.event.Remove? && r.event.key == k)
    ensures HoldsLatest(o, log + [r], Drop(s, k, reason))
  {
    var t, i := Drop(s, k, reason), Find(s.entries, k);
    forall q | 0 <= q < |t.entries| ensures HoldsAt(o, log + [r], t, q) {
      var m := if i == |s.entries| || q < i then q else q + 1;
      assert t.entries[q] == s.entries[m] && HoldsAt(o, log, s, m);
      LatestSnoc(log, r, t.entries[q].key);
    }
  }

  lemma AddKeepsMeaning<K(!new), V>(o: Options, log: seq<Record<K, V>>, s: State<K, V>, k: K, v: V, r: Record<K, V>,
                          now: int, later: int)
    requires o.Legal() && Meaning(o, log, s, now) && now <= later && r.event == Add(k, v, later)
    ensures Meaning(o, log + [r], Insert(o, s, k, v, later), later)
  {
    var t, i := Insert(o, s, k, v, later), Find(s.entries, k);
    InsertKeepsBook(o, s, k, v, later);
    if i < |s.entries| {
      FrontIsRecent(log, r, Entry(k, v), s.entries, i, false);
    } else {
      ConsIsRecent(log, r, Entry(k, v), s.entries, false);
      PrefixIsRecent(log + [r], [Entry(k, v)] + s.entries, |t.entries|, false);
      assert t.entries == ([Entry(k, v)] + s.entries)[..|t.entries|];
    }
    AddHoldsLatest(o, log, s, k, v, r, later);
    forall x | Absent(t.entries, x) ensures Accounted(o, log + [r], x, later) {
      assert t.entries[0].key == k;
      if Absent(s.entries, x) {
        StaysAccounted(o, log, r, x, now, later);
      } else {
        EvictedIsCrowded(o, log, s, k, v, r, later, x);
      }
    }
  }

  lemma AddHoldsLatest<K, V>(o: Options, log: seq<Record<K, V>>, s: State<K, V>, k: K, v: V, r: Record<K, V>,
                             later: int)
    requires o.Legal() && Book(o, s) && HoldsLatest(o, log, s) && r.event == Add(k, v, later)
    ensures HoldsLatest(o, log + [r], Insert(o, s, k, v, later))
  {
    var t := Insert(o, s, k, v, later);
    InsertKeepsBook(o, s, k, v, later);
    forall q | 0 <= q < |t.entries| ensures HoldsAt(o, log + [r], t, q) {
      LatestSnoc(log, r, t.entries[q].key);
      assert t.entries[q].key in Keys(t.entries);
      if q > 0 {
        assert t.entries[0].key == k;
        assert HoldsAt(o, log, s, Behind(o, s, k, v, later, q));
      }
    }
  }

  /** Where the entry at `q` behind an added key stood before. */
  function Behind<K(==), V>(o: Options, s: State<K, V>, k: K, v: V, later: int, q: nat): (m: nat)
    requires 0 < q < |Insert(o, s, k, v, later).entries|
    ensures m < |s.entries| && Insert(o, s, k, v, later).entries[q] == s.entries[m]
  {
    if Find(s.entries, k) < |s.entries| then Origin(Find(s.entries, k), q) else q - 1
  }

  /** Only the last entry of a full list can be evicted by an Add, and every entry before it,
      as well as the added key, was used since. */
  lemma EvictedIsCrowded<K, V>(o: Options, log: seq<Record<K, V>>, s: State<K, V>, k: K, v: V, r: Record<K, V>,
                               later: int, x: K)
    requires o.Legal() && Book(o, s) && Recent(log, s.entries, false) && r.event == Add(k, v, later)
    requires !Absent(s.entries, x) && Absent(Insert(o, s, k, v, later).entries, x)
    ensures Crowded(o, log + [r], x)
  {
    if Find(s.entries, k) < |s.entries| {
      FrontKeepsKeys(Entry(k, v), s.entries, Find(s.entries, k));
      AbsentSame(s.entries, Insert(o, s, k, v, later).entries, x);
    } else {
      EvictedIsLast(o, s, k, v, later, x);
      LastIsCrowded(o, log, s, k, r);
    }
  }

  lemma EvictedIsLast<K, V>(o: Options, s: State<K, V>, k: K, v: V, later: int, x: K)
    requires o.Legal() && Book(o, s) && Absent(s.entries, k)
    requires !Absent(s.entries, x) && Absent(Insert(o, s, k, v, later).entries, x)
    ensures s.entries != [] && |s.entries| == o.maxEntries && x == s.entries[|s.entries| - 1].key
  {
    var t, n := Insert(o, s, k, v, later).entries, |s.entries|;
    forall j | 0 <= j < n && j + 1 < |t| ensures s.entries[j].key != x {
      assert t[j + 1] == s.entries[j];
    }
    var m :| 0 <= m < n && s.entries[m].key == x;
  }

  lemma LastIsCrowded<K, V>(o: Options, log: seq<Record<K, V>>, s: State<K, V>, k: K, r: Record<K, V>)
    requires Book(o, s) && Recent(log, s.entries, false) && s.entries != [] && |s.entries| == o.maxEntries
    requires Absent(s.entries, k) && r.event.Add? && r.event.key == k
    ensures Crowded(o, log + [r], s.entries[|s.entries| - 1].key)
  {
    var m := |s.entries| - 1;
    var ahead := s.entries[..m];
    KeysCount(ahead);
    assert k !in Keys(ahead);
    SubsetCount(Keys(ahead) + {k}, UsedSince(log + [r], s.entries[m].key));
  }

  lemma PurgeKeepsMeaning<K(!new), V>(o: Options, log: seq<Record<K, V>>, s: State<K, V>, r: Record<K, V>, now: int)
    requires o.Legal() && Book(o, s) && r.event == Purge
    ensures Meaning(o, log + [r], Step(o, s, r.event).0, now)
  {
    StepKeepsBook(o, s, r.event);
    forall k {
      LatestSnoc(log, r, k);
    }
  }

  lemma StepKeepsMeaning<K(!new), V>(o: Options, log: seq<Record<K, V>>, s: State<K, V>, event: Event<K, V>, now: int,
                           later: int)
    requires o.Legal() && Meaning(o, log, s, now) && now <= later
    requires TimeOf(event).Some? ==> TimeOf(event).value == later
    ensures Meaning(o, log + [Record(event, Step(o, s, event).1)], Step(o, s, event).0, later)
  {
    var r := Record(event, Step(o, s, event).1);
    match event
    case Get(k, t) =>
      var i := Find(s.entries, k);
      if Expired(o, s, k, t) {
        DropKeepsMeaning(o, log, s, k, Ttl, r, now, later);
      } else if i < |s.entries| {
        HitKeepsMeaning(o, log, s, k, i, r, now, later);
      } else {
        MissKeepsMeaning(o, log, s, r, now, later);
      }
    case Add(k, v, t) => AddKeepsMeaning(o, log, s, k, v, r, now, later);
    case Remove(k) => DropKeepsMeaning(o, log, s, k, Explicit, r, now, later);
    case Purge => PurgeKeepsMeaning(o, log, s, r, later);
  }

  lemma {:induction false} RunsMean<K(!new), V>(o: Options, events: seq<Event<K, V>>, now: int)
    requires o.Legal() && ClockedUpTo(events, now)
    ensures Meaning(o, Log(o, events), Run(o, events), now)
  {
    if events != [] {
      var before, e := events[..|events| - 1], events[|events| - 1];
      var t := if TimeOf(e).Some? then TimeOf(e).value else now;
      RunsMean(o, before, t);
      StepKeepsMeaning(o, Log(o, before), Run(o, before), e, t, t);
    }
  }

  /** Over every history with a clock that never goes back: a hit returns the value of the
      latest Add that was not undone, at most TTL old; a miss means the key was never added,
      or was removed or purged since, or is older than TTL, or at least MaxEntries other keys
      were used since its last use. */
  lemma GetMeans<K(!new), V>(o: Options, events: seq<Event<K, V>>, k: K, now: int)
    requires o.Legal() && ClockedUpTo(events, now)
    ensures var outcome, latest := Step(o, Run(o, events), Get(k, now)).1, Latest(Log(o, events), k);
      if outcome.Hit? then latest.Some? && latest.value.value == outcome.value && !TooOld(o, latest.value, now)
      else latest.Some? ==> TooOld(o, latest.value, now) || Crowded(o, Log(o, events), k)
  {
    RunsMean(o, events, now);
    GetMeansNow(o, Log(o, events), Run(o, events), k, now);
  }

  lemma GetMeansNow<K(!new), V>(o: Options, log: seq<Record<K, V>>, s: State<K, V>, k: K, now: int)
    requires Meaning(o, log, s, now)
    ensures var outcome, latest := Step(o, s, Get(k, now)).1, Latest(log, k);
      if outcome.Hit? then latest.Some? && latest.value.value == outcome.value && !TooOld(o, latest.value, now)
      else latest.Some? ==> TooOld(o, latest.value, now) || Crowded(o, log, k)
  {
    var i := Find(s.entries, k);
    KeyFound(s.entries, k);
    if i == |s.entries| {
      assert Accounted(o, log, k, now);
    } else {
      assert HoldsAt(o, log, s, i);
    }
  }

  // ---------------------------------------------------------------- plain LRU, exactly

  /** No TTL, and nothing is ever taken out by hand. */
  predicate Plain<K(==), V>(o: Options, events: seq<Event<K, V>>) {
    o.ttl == 0 && forall i :: 0 <= i < |events| ==> events[i].Get? || events[i].Add?
  }

  lemma {:induction false} PlainIsExact<K, V>(o: Options, events: seq<Event<K, V>>)
    requires o.Legal() && Plain(o, events)
    ensures Recent(Log(o, events), Run(o, events).entries, true)
  {
    if events != [] {
      var before, e := events[..|events| - 1], events[|events| - 1];
      PlainIsExact(o, before);
      BooksBalance(o, before);
      PlainStep(o, Log(o, before), Run(o, before), e);
    }
  }

  lemma PlainStep<K, V>(o: Options, log: seq<Record<K, V>>, s: State<K, V>, e: Event<K, V>)
    requires o.Legal() && o.ttl == 0 && Book(o, s) && Recent(log, s.entries, true) && (e.Get? || e.Add?)
    ensures Recent(log + [Record(e, Step(o, s, e).1)], Step(o, s, e).0.entries, true)
  {
    var r, i := Record(e, Step(o, s, e).1), Find(s.entries, e.key);
    match e
    case Get(k, now) =>
      if i < |s.entries| {
        FrontIsRecent(log, r, s.entries[i], s.entries, i, true);
      } else {
      }
    case Add(k, v, now) =>
      if i < |s.entries| {
        FrontIsRecent(log, r, Entry(k, v), s.entries, i, true);
      } else {
        var t := Step(o, s, e).0;
        ConsIsRecent(log, r, Entry(k, v), s.entries, true);
        PrefixIsRecent(log + [r], [Entry(k, v)] + s.entries, |t.entries|, true);
        assert t.entries == ([Entry(k, v)] + s.entries)[..|t.entries|];
      }
  }

  /** Without TTL and removals the cache is an exact LRU: a get hits if and only if the key was
      added and fewer than MaxEntries other keys were used since its last use. */
  lemma PlainHitsExactly<K(!new), V>(o: Options, events: seq<Event<K, V>>, k: K, now: int)
    requires o.Legal() && Plain(o, events) && ClockedUpTo(events, now)
    ensures Step(o, Run(o, events), Get(k, now)).1.Hit? <==>
      Latest(Log(o, events), k).Some? && !Crowded(o, Log(o, events), k)
  {
    GetMeans(o, events, k, now);
    PlainIsExact(o, events);
    BooksBalance(o, events);
    var s := Run(o, events);
    var i := Find(s.entries, k);
    if i < |s.entries| {
      KeysCount(s.entries[..i]);
    }
  }
}
