/** The TTL and LRU cache as a function of its history (backend/pkg/cache/lru.go), over the
    documented behaviour of the wrapped cache: a recency list, most recent first. */
module LruSpec {
  import opened Wrappers

  datatype Reason = Capacity | Ttl | Explicit

  /** The lifetime eviction counters. */
  datatype Counts = Counts(total: nat, capacity: nat, ttl: nat, explicit: nat) {
    function Inc(reason: Reason): Counts {
      match reason
      case Capacity => this.(total := total + 1, capacity := capacity + 1)
      case Ttl => this.(total := total + 1, ttl := ttl + 1)
      case Explicit => this.(total := total + 1, explicit := explicit + 1)
    }
  }

  datatype Entry<K, V> = Entry(key: K, value: V)

  /** `ttl == 0` means no bound on age. */
  datatype Options = Options(maxEntries: int, ttl: int) {
    predicate Legal() {
      maxEntries > 0 && ttl >= 0
    }
  }

  datatype State<K(==), V> = State(entries: seq<Entry<K, V>>, addedAt: map<K, int>, counts: Counts)

  datatype Event<K, V> = Get(key: K, now: int) | Add(key: K, value: V, now: int) | Remove(key: K) | Purge

  datatype Outcome<V> = Hit(value: V) | Miss | Added(evicted: bool) | Removed(present: bool) | Purged

  /** One call and what it returned. */
  datatype Record<K, V> = Record(event: Event<K, V>, outcome: Outcome<V>)

  // ---------------------------------------------------------------- one call

  /** The position of the key, or the length. */
  function Find<K(==), V>(entries: seq<Entry<K, V>>, k: K): (i: nat)
    ensures i <= |entries|
    ensures i < |entries| ==> entries[i].key == k
    ensures forall j :: 0 <= j < i ==> entries[j].key != k
  {
    if entries == [] || entries[0].key == k then 0 else 1 + Find(entries[1..], k)
  }

  function Without<T>(s: seq<T>, i: nat): seq<T>
    requires i < |s|
  {
    s[..i] + s[i + 1..]
  }

  predicate Expired<K(==), V>(o: Options, s: State<K, V>, k: K, now: int) {
    o.ttl > 0 && k in s.addedAt && now - s.addedAt[k] > o.ttl
  }

  /** Drops the key, if present, for the given reason. */
  function Drop<K(==), V>(s: State<K, V>, k: K, reason: Reason): State<K, V> {
    var i := Find(s.entries, k);
    if i == |s.entries| then s
    else State(Without(s.entries, i), s.addedAt - {k}, s.counts.Inc(reason))
  }

  function Stamp<K(==), V>(o: Options, s: State<K, V>, k: K, now: int): map<K, int> {
    if o.ttl > 0 then s.addedAt[k := now] else s.addedAt
  }

  function Insert<K(==), V>(o: Options, s: State<K, V>, k: K, v: V, now: int): State<K, V> {
    var i, stamped := Find(s.entries, k), Stamp(o, s, k, now);
    if i < |s.entries| then State([Entry(k, v)] + Without(s.entries, i), stamped, s.counts)
    else if |s.entries| < o.maxEntries then State([Entry(k, v)] + s.entries, stamped, s.counts)
    else
      var all := [Entry(k, v)] + s.entries;
      State(all[..|s.entries|], stamped - {all[|s.entries|].key}, s.counts.Inc(Capacity))
  }

  function IncBy(c: Counts, reason: Reason, n: nat): Counts {
    if n == 0 then c else IncBy(c, reason, n - 1).Inc(reason)
  }

  function Keys<K(==), V>(entries: seq<Entry<K, V>>): set<K> {
    set i | 0 <= i < |entries| :: entries[i].key
  }

  function Step<K(==), V>(o: Options, s: State<K, V>, event: Event<K, V>): (State<K, V>, Outcome<V>) {
    match event
    case Get(k, now) =>
      if Expired(o, s, k, now) then (Drop(s, k, Ttl), Miss)
      else
        var i := Find(s.entries, k);
        if i == |s.entries| then (s, Miss)
        else (s.(entries := [s.entries[i]] + Without(s.entries, i)), Hit(s.entries[i].value))
    case Add(k, v, now) =>
      (Insert(o, s, k, v, now), Added(Find(s.entries, k) == |s.entries| && |s.entries| >= o.maxEntries))
    case Remove(k) =>
      (Drop(s, k, Explicit), Removed(Find(s.entries, k) < |s.entries|))
    case Purge =>
      (State([], s.addedAt - Keys(s.entries), IncBy(s.counts, Explicit, |s.entries|)), Purged)
  }

  // ---------------------------------------------------------------- histories

  function Start<K(==), V>(): State<K, V> {
    State([], map[], Counts(0, 0, 0, 0))
  }

  function Run<K(==), V>(o: Options, events: seq<Event<K, V>>): State<K, V> {
    if events == [] then Start() else Step(o, Run(o, events[..|events| - 1]), events[|events| - 1]).0
  }

  /** The calls with their results. */
  function Log<K(==), V>(o: Options, events: seq<Event<K, V>>): seq<Record<K, V>> {
    if events == [] then []
    else
      var before, e := events[..|events| - 1], events[|events| - 1];
      Log(o, before) + [Record(e, Step(o, Run(o, before), e).1)]
  }

  function TimeOf<K(==), V>(e: Event<K, V>): Option<int> {
    match e
    case Get(_, now) => Some(now)
    case Add(_, _, now) => Some(now)
    case Remove(_) => None
    case Purge => None
  }

  /** No call is timed after `now`, and times never go back. */
  predicate ClockedUpTo<K(==), V>(events: seq<Event<K, V>>, now: int) {
    events == [] ||
    (var t := TimeOf(events[|events| - 1]);
     && (t.Some? ==> t.value <= now)
     && ClockedUpTo(events[..|events| - 1], if t.Some? then t.value else now))
  }

  datatype Held<V> = Held(value: V, since: int)

  /** The latest Add of the key that no later Remove or Purge undid. */
  function Latest<K(==), V>(log: seq<Record<K, V>>, k: K): Option<Held<V>> {
    if log == [] then None
    else
      match log[|log| - 1].event
      case Add(key, value, now) => if key == k then Some(Held(value, now)) else Latest(log[..|log| - 1], k)
      case Remove(key) => if key == k then None else Latest(log[..|log| - 1], k)
      case Purge => None
      case Get(_, _) => Latest(log[..|log| - 1], k)
  }

  /** A call uses the key it adds, and the key it gets if that is a hit. */
  predicate Uses<K(==), V>(r: Record<K, V>, k: K) {
    (r.event.Add? && r.event.key == k) || (r.event.Get? && r.event.key == k && r.outcome.Hit?)
  }

  function Used<K(==), V>(r: Record<K, V>): set<K> {
    if r.event.Add? || (r.event.Get? && r.outcome.Hit?) then {r.event.key} else {}
  }

  /** The other keys used since the key itself was last used. */
  function UsedSince<K(==), V>(log: seq<Record<K, V>>, k: K): set<K> {
    if log == [] || Uses(log[|log| - 1], k) then {}
    else UsedSince(log[..|log| - 1], k) + Used(log[|log| - 1])
  }

  /** How many Adds put in a key that was not there. */
  function Inserts<K(==), V>(o: Options, events: seq<Event<K, V>>): nat {
    if events == [] then 0
    else
      var before, e := events[..|events| - 1], events[|events| - 1];
      Inserts(o, before) +
      (if e.Add? && e.key !in Keys(Run(o, before).entries) then 1 else 0)
  }
}
