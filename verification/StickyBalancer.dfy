/** The sticky balancer: sessions keep their endpoint; idle ones age into a bounded pool of recyclable entries. */
module StickyBalancer {
  import opened Collections
  import opened Options

  datatype Endpoint = Endpoint(id: string, alive: bool)

  datatype Entry = Entry(endpointId: string, lastUsed: int, lruSince: int, lru: bool)

  datatype State = State(entries: map<string, Entry>, capacity: nat, ttl: int, roundRobin: nat)

  type Metadata = map<string, string>

  // ----- Requests -----

  predicate Sticky(metadata: Metadata) {
    "sticky" in metadata && (metadata["sticky"] == "true" || metadata["sticky"] == "1")
  }

  function Nonempty(metadata: Metadata, key: string): Option<string> {
    if key in metadata && metadata[key] != "" then Some(metadata[key]) else None
  }

  function ShardKey(metadata: Metadata): Option<string> {
    var shard := Nonempty(metadata, "shard_key");
    if shard.Some? then shard else Nonempty(metadata, "tenant_id")
  }

  function SessionKey(service: string, sid: string): string {
    service + "|" + sid
  }

  /** The endpoint of the first listed entry with that id, if it is alive. */
  function FindLive(endpoints: seq<Endpoint>, id: string): Option<Endpoint> {
    if endpoints == [] then None
    else if endpoints[0].id == id then (if endpoints[0].alive then Some(endpoints[0]) else None)
    else FindLive(endpoints[1..], id)
  }

  /** Service names without a bar make session keys unambiguous. */
  lemma SessionKeysDiffer(service: string, sid: string, other: string, otherSid: string)
    requires '|' !in service && '|' !in other && SessionKey(service, sid) == SessionKey(other, otherSid)
    ensures service == other && sid == otherSid
  {
    var k := SessionKey(service, sid);
    KeyParts(service, sid);
    KeyParts(other, otherSid);
    if |service| < |other| {
      LongerHasBar(service, sid, other);
    } else if |other| < |service| {
      LongerHasBar(other, otherSid, service);
    }
  }

  lemma KeyParts(service: string, sid: string)
    ensures var k := SessionKey(service, sid);
      |k| == |service| + 1 + |sid| && k[..|service|] == service && k[|service| + 1..] == sid && service <= k
  {}

  lemma LongerHasBar(service: string, sid: string, other: string)
    requires other <= SessionKey(service, sid) && |other| > |service|
    ensures '|' in other
  {
    assert other[|service|] == '|';
  }

  // ----- Ageing and eviction -----

  function Aged(e: Entry, now: int, ttl: int): Entry {
    if !e.lru && now - e.lastUsed >= ttl then e.(lru := true, lruSince := now) else e
  }

  function AgedAll(entries: map<string, Entry>, now: int, ttl: int): map<string, Entry> {
    map k | k in entries :: Aged(entries[k], now, ttl)
  }

  function LruKeys(entries: map<string, Entry>): set<string> {
    set k | k in entries && entries[k].lru
  }

  /** Oldest recyclable entries go first, as many as needed; everything else stays as it was. */
  ghost predicate Evicted(a: map<string, Entry>, b: map<string, Entry>, capacity: nat) {
    && (forall k :: k in b ==> k in a && b[k] == a[k])
    && (forall k :: k in a && k !in b ==> a[k].lru)
    && (forall k, j :: k in a && k !in b && j in b && b[j].lru ==> a[k].lruSince <= b[j].lruSince)
    && |LruKeys(b)| <= capacity
    && (a != b ==> |LruKeys(b)| == capacity)
  }

  // ----- Picking -----

  const WRAP: nat := 0x1_0000_0000_0000_0000

  function NextRobin(n: nat): nat {
    (n + 1) % WRAP
  }

  function Chosen(s: State, service: string, metadata: Metadata, endpoints: seq<Endpoint>, now: int,
                  hash: string -> nat)
    : (State, Endpoint)
    requires endpoints != []
  {
    var shard, sid := ShardKey(metadata), Nonempty(metadata, "sid");
    var robin := endpoints[s.roundRobin % |endpoints|];
    var advanced := s.(roundRobin := NextRobin(s.roundRobin));
    if shard.Some? then (s, endpoints[hash(shard.value) % |endpoints|])
    else if !Sticky(metadata) || sid.None? then (advanced, robin)
    else
      var key := SessionKey(service, sid.value);
      var renewed := Entry(robin.id, now, 0, false);
      if key in s.entries && !s.entries[key].lru then
        var live := FindLive(endpoints, s.entries[key].endpointId);
        if live.Some? then (s.(entries := s.entries[key := s.entries[key].(lastUsed := now)]), live.value)
        else (advanced.(entries := s.entries[key := renewed]), robin)
      else (advanced.(entries := s.entries[key := renewed]), robin)
  }

  ghost predicate Picked(s: State, t: State, service: string, metadata: Metadata, endpoints: seq<Endpoint>, now: int,
                         hash: string -> nat, r: Option<Endpoint>) {
    if endpoints == [] then t == s && r == None
    else exists kept :: Evicted(AgedAll(s.entries, now, s.ttl), kept, s.capacity)
                        && t == Chosen(s.(entries := kept), service, metadata, endpoints, now, hash).0
                        && r.Some? && r.value == Chosen(s.(entries := kept), service, metadata, endpoints, now, hash).1
  }

  function Without(entries: map<string, Entry>, id: string): map<string, Entry> {
    map k | k in entries && entries[k].endpointId != id :: entries[k]
  }

  // ----- Runs -----

  datatype Op =
    | Pick(service: string, metadata: Metadata, endpoints: seq<Endpoint>, now: int)
    | Invalidate(id: string)

  ghost predicate Next(s: State, t: State, op: Op, hash: string -> nat, r: Option<Endpoint>) {
    match op
    case Pick(service, metadata, endpoints, now) => Picked(s, t, service, metadata, endpoints, now, hash, r)
    case Invalidate(id) => t == s.(entries := Without(s.entries, id)) && r == None
  }

  ghost predicate Run(states: seq<State>, ops: seq<Op>, results: seq<Option<Endpoint>>, hash: string -> nat) {
    |states| == |ops| + 1 && |results| == |ops|
    && forall i :: 0 <= i < |ops| ==> Next(states[i], states[i + 1], ops[i], hash, results[i])
  }

  /** The recyclable entries never exceed the capacity. */
  predicate Bounded(s: State) {
    |LruKeys(s.entries)| <= s.capacity
  }

  lemma ChosenBounded(s: State, service: string, metadata: Metadata, endpoints: seq<Endpoint>, now: int,
                      hash: string -> nat)
    requires endpoints != [] && Bounded(s)
    ensures Bounded(Chosen(s, service, metadata, endpoints, now, hash).0)
    ensures Chosen(s, service, metadata, endpoints, now, hash).0.capacity == s.capacity
    ensures Chosen(s, service, metadata, endpoints, now, hash).0.ttl == s.ttl
  {
    var t := Chosen(s, service, metadata, endpoints, now, hash).0;
    assert LruKeys(t.entries) <= LruKeys(s.entries);
    SubsetSize(LruKeys(t.entries), LruKeys(s.entries));
  }

  lemma NextBounded(s: State, t: State, op: Op, hash: string -> nat, r: Option<Endpoint>)
    requires Bounded(s) && Next(s, t, op, hash, r)
    ensures Bounded(t) && t.capacity == s.capacity && t.ttl == s.ttl
  {
    hide Chosen;
    match op
    case Invalidate(id) =>
      assert LruKeys(t.entries) <= LruKeys(s.entries);
      SubsetSize(LruKeys(t.entries), LruKeys(s.entries));
    case Pick(service, metadata, endpoints, now) =>
      if endpoints != [] {
        var kept :| Evicted(AgedAll(s.entries, now, s.ttl), kept, s.capacity)
                    && t == Chosen(s.(entries := kept), service, metadata, endpoints, now, hash).0;
        ChosenBounded(s.(entries := kept), service, metadata, endpoints, now, hash);
      }
  }

  /** In every reachable state the recyclable entries fit the capacity. */
  lemma {:induction false} RunBounded(states: seq<State>, ops: seq<Op>, results: seq<Option<Endpoint>>,
                                       hash: string -> nat, i: nat)
    requires Run(states, ops, results, hash) && Bounded(states[0]) && i < |states|
    ensures Bounded(states[i]) && states[i].capacity == states[0].capacity && states[i].ttl == states[0].ttl
  {
    hide Bounded, Next;
    if i > 0 {
      RunBounded(states, ops, results, hash, i - 1);
      NextBounded(states[i - 1], states[i], ops[i - 1], hash, results[i - 1]);
    }
  }

  // ----- Stickiness -----

  /** The session is bound to endpoint id, last used at time used. */
  predicate BoundTo(s: State, key: string, id: string, used: int) {
    key in s.entries && !s.entries[key].lru && s.entries[key].endpointId == id && s.entries[key].lastUsed == used
  }

  /** A request of the session: sticky, with its id, and no shard key that would override it. */
  predicate OfSession(op: Op, service: string, sid: string) {
    op.Pick? && op.service == service && Sticky(op.metadata) && Nonempty(op.metadata, "sid") == Some(sid)
  }

  /** Ageing and eviction leave an entry that was used within the time to live. */
  lemma StaysBound(s: State, kept: map<string, Entry>, now: int, key: string, id: string, used: int)
    requires BoundTo(s, key, id, used) && now - used < s.ttl
    requires Evicted(AgedAll(s.entries, now, s.ttl), kept, s.capacity)
    ensures BoundTo(s.(entries := kept), key, id, used)
  {
    var a := AgedAll(s.entries, now, s.ttl);
    assert key in a && a[key] == s.entries[key];
  }

  /** A pick of the bound session returns its endpoint and renews the binding. */
  lemma OwnPick(s: State, t: State, op: Op, hash: string -> nat, r: Option<Endpoint>, service: string, sid: string,
                id: string, used: int)
    requires Next(s, t, op, hash, r) && OfSession(op, service, sid) && ShardKey(op.metadata) == None
    requires BoundTo(s, SessionKey(service, sid), id, used) && op.now - used < s.ttl
    requires FindLive(op.endpoints, id).Some?
    ensures r == FindLive(op.endpoints, id) && BoundTo(t, SessionKey(service, sid), id, op.now)
  {
    hide Evicted, AgedAll;
    assert op.endpoints != [];
    var kept :| Evicted(AgedAll(s.entries, op.now, s.ttl), kept, s.capacity)
                && t == Chosen(s.(entries := kept), op.service, op.metadata, op.endpoints, op.now, hash).0
                && r == Some(Chosen(s.(entries := kept), op.service, op.metadata, op.endpoints, op.now, hash).1);
    StaysBound(s, kept, op.now, SessionKey(service, sid), id, used);
  }

  /** A sticky pick binds its session to the endpoint it returns. */
  lemma PickBinds(s: State, t: State, op: Op, hash: string -> nat, r: Option<Endpoint>, service: string, sid: string)
    requires Next(s, t, op, hash, r) && OfSession(op, service, sid) && ShardKey(op.metadata) == None
    requires op.endpoints != []
    ensures r.Some? && r.value in op.endpoints && BoundTo(t, SessionKey(service, sid), r.value.id, op.now)
  {
    hide Evicted, AgedAll;
    var kept: map<string, Entry> :| Evicted(AgedAll(s.entries, op.now, s.ttl), kept, s.capacity)
                && t == Chosen(s.(entries := kept), op.service, op.metadata, op.endpoints, op.now, hash).0
                && r == Some(Chosen(s.(entries := kept), op.service, op.metadata, op.endpoints, op.now, hash).1);
    var key := SessionKey(service, sid);
    if key in kept && FindLive(op.endpoints, kept[key].endpointId).Some? {
      LiveHasId(op.endpoints, kept[key].endpointId);
    }
  }

  /** Anything else leaves the binding alone. */
  lemma OtherOp(s: State, t: State, op: Op, hash: string -> nat, r: Option<Endpoint>, service: string, sid: string,
                id: string, used: int)
    requires Next(s, t, op, hash, r) && !OfSession(op, service, sid)
    requires BoundTo(s, SessionKey(service, sid), id, used)
    requires op.Pick? ==> op.now - used < s.ttl && '|' !in op.service
    requires op.Invalidate? ==> op.id != id
    requires '|' !in service
    ensures BoundTo(t, SessionKey(service, sid), id, used)
  {
    hide Evicted, AgedAll, SessionKey;
    if op.Pick? && op.endpoints != [] {
      var kept :| Evicted(AgedAll(s.entries, op.now, s.ttl), kept, s.capacity)
                  && t == Chosen(s.(entries := kept), op.service, op.metadata, op.endpoints, op.now, hash).0;
      StaysBound(s, kept, op.now, SessionKey(service, sid), id, used);
      var other := Nonempty(op.metadata, "sid");
      if other.Some? && SessionKey(op.service, other.value) == SessionKey(service, sid) {
        SessionKeysDiffer(op.service, other.value, service, sid);
      }
    }
  }

  /** The time the session was last used, after the first n operations of a run. */
  function LastUsed(ops: seq<Op>, service: string, sid: string, start: int, n: nat): int
    requires n <= |ops|
  {
    if n == 0 then start
    else if OfSession(ops[n - 1], service, sid) then ops[n - 1].now
    else LastUsed(ops, service, sid, start, n - 1)
  }

  /**
   * What keeps a session on its endpoint: no pick by anybody finds it idle for the time to live, its own picks list the
   * endpoint as alive and carry no shard key, nobody invalidates the endpoint, and service names contain no bar.
   */
  predicate Undisturbed(op: Op, service: string, sid: string, id: string, used: int, ttl: int) {
    match op
    case Invalidate(other) => other != id
    case Pick(name, metadata, endpoints, now) =>
      now - used < ttl && '|' !in name
      && (OfSession(op, service, sid) ==> ShardKey(metadata) == None && FindLive(endpoints, id).Some?)
  }

  /** However other sessions interleave, every pick of the session returns the same endpoint. */
  lemma {:induction false} SessionSticks(states: seq<State>, ops: seq<Op>, results: seq<Option<Endpoint>>,
                                          hash: string -> nat,
                                          service: string, sid: string, id: string, start: int, n: nat)
    requires Run(states, ops, results, hash) && Bounded(states[0]) && '|' !in service && n <= |ops|
    requires BoundTo(states[0], SessionKey(service, sid), id, start)
    requires forall i :: 0 <= i < |ops| ==>
      Undisturbed(ops[i], service, sid, id, LastUsed(ops, service, sid, start, i), states[0].ttl)
    ensures BoundTo(states[n], SessionKey(service, sid), id, LastUsed(ops, service, sid, start, n))
    ensures forall i :: 0 <= i < n && OfSession(ops[i], service, sid) ==> results[i].Some? && results[i].value.id == id
  {
    hide Bounded, Next, BoundTo, OfSession, Undisturbed, SessionKey;
    if n > 0 {
      SessionSticks(states, ops, results, hash, service, sid, id, start, n - 1);
      RunBounded(states, ops, results, hash, n - 1);
      var op, used := ops[n - 1], LastUsed(ops, service, sid, start, n - 1);
      StickStep(states[n - 1], states[n], op, hash, results[n - 1], service, sid, id, used);
    }
  }

  lemma StickStep(s: State, t: State, op: Op, hash: string -> nat, r: Option<Endpoint>, service: string, sid: string,
                  id: string, used: int)
    requires Next(s, t, op, hash, r) && '|' !in service
    requires BoundTo(s, SessionKey(service, sid), id, used) && Undisturbed(op, service, sid, id, used, s.ttl)
    ensures BoundTo(t, SessionKey(service, sid), id, if OfSession(op, service, sid) then op.now else used)
    ensures OfSession(op, service, sid) ==> r.Some? && r.value.id == id
  {
    hide Next, BoundTo, SessionKey;
    if OfSession(op, service, sid) {
      OwnPick(s, t, op, hash, r, service, sid, id, used);
      LiveHasId(op.endpoints, id);
    } else {
      OtherOp(s, t, op, hash, r, service, sid, id, used);
    }
  }

  /** From its first pick on, a session that is left undisturbed always gets the endpoint that pick returned. */
  lemma PicksAgree(states: seq<State>, ops: seq<Op>, results: seq<Option<Endpoint>>, hash: string -> nat,
                   service: string, sid: string, e: Endpoint)
    requires Run(states, ops, results, hash) && Bounded(states[0]) && '|' !in service
    requires ops != [] && OfSession(ops[0], service, sid) && ShardKey(ops[0].metadata) == None
    requires ops[0].endpoints != [] && results[0] == Some(e)
    requires forall i :: 0 <= i < |ops| - 1 ==>
      Undisturbed(ops[1..][i], service, sid, e.id, LastUsed(ops[1..], service, sid, ops[0].now, i), states[0].ttl)
    ensures forall i :: 0 < i < |ops| && OfSession(ops[i], service, sid) ==>
      results[i].Some? && results[i].value.id == e.id
  {
    hide Next, Bounded, BoundTo, Undisturbed;
    PickBinds(states[0], states[1], ops[0], hash, results[0], service, sid);
    NextBounded(states[0], states[1], ops[0], hash, results[0]);
    forall i | 0 <= i < |ops| - 1
      ensures Next(states[1..][i], states[1..][i + 1], ops[1..][i], hash, results[1..][i])
    {
      assert Next(states[i + 1], states[i + 2], ops[i + 1], hash, results[i + 1]);
    }
    SessionSticks(states[1..], ops[1..], results[1..], hash, service, sid, e.id, ops[0].now, |ops| - 1);
    forall i | 0 < i < |ops| && OfSession(ops[i], service, sid)
      ensures results[i].Some? && results[i].value.id == e.id
    {
      assert ops[1..][i - 1] == ops[i] && results[1..][i - 1] == results[i];
    }
  }

  lemma {:induction false} LiveHasId(endpoints: seq<Endpoint>, id: string)
    requires FindLive(endpoints, id).Some?
    ensures FindLive(endpoints, id).value.id == id && FindLive(endpoints, id).value in endpoints
  {
    if endpoints[0].id != id {
      LiveHasId(endpoints[1..], id);
    }
  }

  // ----- The balancer object -----

  class Balancer {
    var entries: map<string, Entry>
    const capacity: nat
    var ttl: int
    var roundRobin: nat

    ghost function Abstract(): State
      reads this
    {
      State(entries, capacity, ttl, roundRobin)
    }

    constructor (lruCapacity: nat, timeToLive: int)
      ensures Abstract() == State(map[], lruCapacity, timeToLive, 0) && Bounded(Abstract())
    {
      entries, capacity, ttl, roundRobin := map[], lruCapacity, timeToLive, 0;
      new;
      assert LruKeys(entries) == {};
    }

    method SetTtl(timeToLive: int)
      modifies this
      ensures Abstract() == old(Abstract()).(ttl := timeToLive, entries := map[])
    {
      ttl := timeToLive;
      entries := map[];
    }

    method Invalidate(id: string)
      modifies this`entries
      ensures Abstract() == old(Abstract()).(entries := Without(old(entries), id))
    {
      var rest := entries.Keys;
      ghost var all := entries;
      while rest != {}
        invariant rest <= all.Keys
        invariant entries == map k | k in all && (k in rest || all[k].endpointId != id) :: all[k]
        decreases |rest|
      {
        var k :| k in rest;
        rest := rest - {k};
        if entries[k].endpointId == id {
          entries := entries - {k};
        }
      }
    }

    /** Marks entries idle for the time to live as recyclable. */
    method Age(now: int)
      modifies this`entries
      ensures entries == AgedAll(old(entries), now, ttl)
    {
      var rest := entries.Keys;
      ghost var all := entries;
      while rest != {}
        invariant rest <= all.Keys
        invariant entries == map k | k in all :: if k in rest then all[k] else Aged(all[k], now, ttl)
        decreases |rest|
      {
        var k :| k in rest;
        rest := rest - {k};
        if !entries[k].lru && now - entries[k].lastUsed >= ttl {
          entries := entries[k := entries[k].(lru := true, lruSince := now)];
        }
      }
    }

    /** Counts the recyclable entries and finds one that has been so for longest. */
    method Oldest() returns (count: nat, oldest: Option<string>)
      ensures count == |LruKeys(entries)|
      ensures count > 0 ==> oldest.Some?
      ensures oldest.Some? ==> oldest.value in LruKeys(entries)
      ensures oldest.Some? ==>
                forall k :: k in LruKeys(entries) ==> entries[oldest.value].lruSince <= entries[k].lruSince
    {
      count, oldest := 0, None;
      var rest := entries.Keys;
      ghost var seen: set<string> := {};
      while rest != {}
        invariant rest <= entries.Keys && seen == set k | k in LruKeys(entries) && k !in rest
        invariant count == |seen| && (seen != {} ==> oldest.Some?)
        invariant oldest.Some? ==> oldest.value in seen
        invariant oldest.Some? ==> forall k :: k in seen ==> entries[oldest.value].lruSince <= entries[k].lruSince
        decreases |rest|
      {
        var k :| k in rest;
        rest := rest - {k};
        if entries[k].lru {
          assert k !in seen;
          seen := seen + {k};
          count := count + 1;
          if oldest.None? || entries[k].lruSince < entries[oldest.value].lruSince {
            oldest := Some(k);
          }
        }
      }
      assert seen == LruKeys(entries);
    }

    /** Erases oldest recyclable entries until they fit the capacity. */
    method Evict()
      modifies this`entries
      ensures Evicted(old(entries), entries, capacity)
    {
      ghost var all := entries;
      while true
        invariant forall k :: k in entries ==> k in all && entries[k] == all[k]
        invariant forall k :: k in all && k !in entries ==> all[k].lru
        invariant forall k, j :: k in all && k !in entries && j in entries && entries[j].lru
                                 ==> all[k].lruSince <= entries[j].lruSince
        invariant all != entries ==> |LruKeys(entries)| >= capacity
        decreases |entries|
      {
        var count, oldest := Oldest();
        if count <= capacity {
          break;
        }
        ghost var before := entries;
        entries := entries - {oldest.value};
        OneLess(before, oldest.value);
      }
    }

    /** Picks an endpoint for a request. */
    method Pick(service: string, metadata: Metadata, endpoints: seq<Endpoint>, now: int, hash: string -> nat)
      returns (r: Option<Endpoint>)
      modifies this`entries, this`roundRobin
      ensures Picked(old(Abstract()), Abstract(), service, metadata, endpoints, now, hash, r)
    {
      hide Evicted, AgedAll, FindLive, SessionKey, Nonempty;
      if endpoints == [] {
        return None;
      }
      Age(now);
      Evict();
      ghost var kept := entries;
      var shard := ShardKey(metadata);
      var sid := Nonempty(metadata, "sid");
      if shard.Some? {
        r := Some(endpoints[hash(shard.value) % |endpoints|]);
      } else if !Sticky(metadata) || sid.None? {
        var e := DoPick(endpoints);
        r := Some(e);
      } else {
        var key := SessionKey(service, sid.value);
        var live := None;
        if key in entries && !entries[key].lru {
          live := FindLive(endpoints, entries[key].endpointId);
        }
        if live.Some? {
          entries := entries[key := entries[key].(lastUsed := now)];
          r := live;
        } else {
          var e := DoPick(endpoints);
          entries := entries[key := Entry(e.id, now, 0, false)];
          r := Some(e);
        }
      }
      assert (Abstract(), r.value)
          == Chosen(old(Abstract()).(entries := kept), service, metadata, endpoints, now, hash);
    }

    method DoPick(endpoints: seq<Endpoint>) returns (e: Endpoint)
      requires endpoints != []
      modifies this`roundRobin
      ensures e == endpoints[old(roundRobin) % |endpoints|] && roundRobin == NextRobin(old(roundRobin))
    {
      e := endpoints[roundRobin % |endpoints|];
      roundRobin := (roundRobin + 1) % WRAP;
    }
  }

  lemma OneLess(entries: map<string, Entry>, k: string)
    requires k in LruKeys(entries)
    ensures |LruKeys(entries - {k})| == |LruKeys(entries)| - 1
    ensures |entries - {k}| < |entries|
  {
    assert LruKeys(entries - {k}) == LruKeys(entries) - {k};
    assert (entries - {k}).Keys == entries.Keys - {k};
  }
}
