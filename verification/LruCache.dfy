/** The cache object: methods over the wrapped cache, the stamp table and the counters.  The
    callback of the wrapped cache reads the pending reason.  Each call is one step; the clock
    is a parameter. */
module LruCache {
  import opened Wrappers
  import opened LruSpec
  import opened LruProofs

  class EvictionCounter {
    var total: nat
    var capacity: nat
    var ttl: nat
    var explicit: nat

    function Now(): Counts
      reads this
    {
      Counts(total, capacity, ttl, explicit)
    }

    constructor ()
      ensures Now() == Counts(0, 0, 0, 0)
    {
      total, capacity, ttl, explicit := 0, 0, 0, 0;
    }

    method Inc(reason: Reason)
      modifies this
      ensures Now() == old(Now()).Inc(reason)
    {
      total := total + 1;
      match reason {
        case Capacity => capacity := capacity + 1;
        case Ttl => ttl := ttl + 1;
        case Explicit => explicit := explicit + 1;
      }
    }

    function Total(): (n: nat)
      reads this
      ensures n == Now().total
    {
      total
    }

    function ByReason(reason: Reason): (n: nat)
      reads this
      ensures reason == Capacity ==> n == Now().capacity
      ensures reason == Ttl ==> n == Now().ttl
      ensures reason == Explicit ==> n == Now().explicit
    {
      match reason
      case Capacity => capacity
      case Ttl => ttl
      case Explicit => explicit
    }
  }

  class LRU<K(==), V> {
    const opts: Options
    const counter: EvictionCounter
    /** The wrapped cache, most recent entry first. */
    var c: seq<Entry<K, V>>
    var addedAt: map<K, int>
    var pendingReason: Reason

    ghost function Abs(): State<K, V>
      reads this, counter
    {
      State(c, addedAt, counter.Now())
    }

    /** Between calls the pending reason is Capacity and the books balance. */
    ghost predicate Valid()
      reads this, counter
    {
      opts.Legal() && Book(opts, Abs()) && pendingReason == Capacity
    }

    constructor (opts: Options)
      requires opts.Legal()
      ensures Valid() && fresh(counter) && this.opts == opts && Abs() == Start()
    {
      this.opts, this.c, this.addedAt, this.pendingReason := opts, [], map[], Capacity;
      this.counter := new EvictionCounter();
    }

    /** Called by the wrapped cache for each entry it evicts. */
    method OnEvicted(k: K)
      modifies this`addedAt, counter
      ensures addedAt == old(addedAt) - {k}
      ensures counter.Now() == old(counter.Now()).Inc(pendingReason)
    {
      counter.Inc(pendingReason);
      addedAt := addedAt - {k};
    }

    /** Remove of the wrapped cache. */
    method CacheRemove(k: K) returns (present: bool)
      modifies this`c, this`addedAt, counter
      ensures Abs() == Drop(old(Abs()), k, pendingReason)
      ensures present == (Find(old(c), k) < |old(c)|)
    {
      var i := Find(c, k);
      present := i < |c|;
      if present {
        c := Without(c, i);
        OnEvicted(k);
      }
    }

    method Get(k: K, now: int) returns (v: Option<V>)
      requires Valid()
      modifies this, counter
      ensures Valid()
      ensures Abs() == Step(opts, old(Abs()), Event.Get(k, now)).0
      ensures Step(opts, old(Abs()), Event.Get(k, now)).1 == if v.Some? then Hit(v.value) else Miss
    {
      StepKeepsBook(opts, Abs(), Event.Get(k, now));
      if opts.ttl > 0 {
        if k in addedAt && now - addedAt[k] > opts.ttl {
          pendingReason := Ttl;
          var _ := CacheRemove(k);
          pendingReason := Capacity;
          return None;
        }
      }
      var i := Find(c, k);
      if i == |c| {
        return None;
      }
      v := Some(c[i].value);
      c := [c[i]] + Without(c, i);
    }

    method Add(k: K, v: V, now: int) returns (evicted: bool)
      requires Valid()
      modifies this, counter
      ensures Valid()
      ensures (Abs(), Added(evicted)) == Step(opts, old(Abs()), Event.Add(k, v, now))
    {
      ghost var s := Abs();
      StepKeepsBook(opts, s, Event.Add(k, v, now));
      if opts.ttl > 0 {
        addedAt := addedAt[k := now];
      }
      assert addedAt == Stamp(opts, s, k, now) && c == s.entries && counter.Now() == s.counts;
      var i := Find(c, k);
      if i < |c| {
        c := [Entry(k, v)] + Without(c, i);
        return false;
      }
      c := [Entry(k, v)] + c;
      evicted := |c| > opts.maxEntries;
      if evicted {
        var oldest := c[|c| - 1];
        c := c[..|c| - 1];
        OnEvicted(oldest.key);
      }
      assert Abs() == Insert(opts, s, k, v, now);
    }

    method Remove(k: K) returns (present: bool)
      requires Valid()
      modifies this, counter
      ensures Valid()
      ensures (Abs(), Removed(present)) == Step(opts, old(Abs()), Event.Remove(k))
    {
      StepKeepsBook(opts, Abs(), Event<K, V>.Remove(k));
      pendingReason := Explicit;
      present := CacheRemove(k);
      pendingReason := Capacity;
    }

    function Len(): (n: nat)
      reads this
      ensures n == |c|
    {
      |c|
    }

    method Purge()
      requires Valid()
      modifies this, counter
      ensures Valid()
      ensures Abs() == Step(opts, old(Abs()), Event.Purge).0
    {
      StepKeepsBook(opts, Abs(), Event<K, V>.Purge);
      ghost var before := Abs();
      pendingReason := Explicit;
      var gone := c;
      for k := 0 to |gone|
        invariant c == gone && pendingReason == Explicit
        invariant addedAt == before.addedAt - Keys(gone[..k])
        invariant counter.Now() == IncBy(before.counts, Explicit, k)
      {
        KeysMore(gone, k);
        OnEvicted(gone[k].key);
      }
      assert gone[..|gone|] == gone;
      c := [];
      pendingReason := Capacity;
    }
  }

  lemma KeysMore<K, V>(entries: seq<Entry<K, V>>, k: nat)
    requires k < |entries|
    ensures Keys(entries[..k + 1]) == Keys(entries[..k]) + {entries[k].key}
  {
    forall x | x in Keys(entries[..k]) + {entries[k].key} ensures x in Keys(entries[..k + 1]) {
      var i :| 0 <= i <= k && entries[i].key == x;
      assert entries[..k + 1][i].key == x;
    }
    forall x | x in Keys(entries[..k + 1]) ensures x in Keys(entries[..k]) + {entries[k].key} {
      var i :| 0 <= i < k + 1 && entries[..k + 1][i].key == x;
      if i < k { assert entries[..k][i].key == x; }
    }
  }

  /** `New`: illegal options are refused. */
  method New<K(==), V>(opts: Options) returns (r: Option<LRU<K, V>>)
    ensures r.Some? <==> opts.maxEntries > 0 && opts.ttl >= 0
    ensures r.Some? ==>
        fresh(r.value) && fresh(r.value.counter) && r.value.Valid() && r.value.opts == opts && r.value.Abs() == Start()
  {
    if opts.maxEntries <= 0 || opts.ttl < 0 {
      return None;
    }
    var out := new LRU(opts);
    r := Some(out);
  }
}
