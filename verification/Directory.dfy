/** The replicated endpoint directory: last writer wins per endpoint, removals leave tombstones. */
module Directory {

  datatype Endpoint = Endpoint(id: string, version: nat, updated: nat, service: string, alive: bool)

  datatype Update = Announce(endpoint: Endpoint) | Remove(id: string, version: nat)

  /** What replicas must agree on: the endpoints and the versions of the tombstones. */
  datatype State = State(endpoints: map<string, Endpoint>, tombs: map<string, nat>)

  function Key(u: Update): string {
    match u
    case Announce(e) => e.id
    case Remove(id, _) => id
  }

  predicate Newer(e: Endpoint, f: Endpoint) {
    e.version > f.version || (e.version == f.version && e.updated > f.updated)
  }

  /** Does a tombstone for id reach up to version v? */
  predicate Buried(tombs: map<string, nat>, id: string, v: nat) {
    id in tombs && v <= tombs[id]
  }

  function Apply(s: State, u: Update): State {
    if Key(u) == "" then s
    else
      match u
      case Announce(e) =>
        if Buried(s.tombs, e.id, e.version) then s
        else if e.id !in s.endpoints || Newer(e, s.endpoints[e.id]) then s.(endpoints := s.endpoints[e.id := e])
        else s
      case Remove(id, v) =>
        State(if id in s.endpoints && s.endpoints[id].version <= v then s.endpoints - {id} else s.endpoints,
              if Buried(s.tombs, id, v) then s.tombs else s.tombs[id := v])
  }

  function Absorb(s: State, us: seq<Update>): State {
    if us == [] then s else Apply(Absorb(s, us[..|us| - 1]), us[|us| - 1])
  }

  /** No endpoint lies under its own tombstone, and ids are filed under themselves. */
  predicate Valid(s: State) {
    && (forall id :: id in s.endpoints ==> id != "" && s.endpoints[id].id == id
                                           && !Buried(s.tombs, id, s.endpoints[id].version))
    && "" !in s.tombs
  }

  // ----- What a state says about the updates behind it -----

  /** The tombstone of id is the greatest removal. */
  ghost predicate TombReflects(s: State, us: set<Update>, id: string) {
    && (id in s.tombs ==> Remove(id, s.tombs[id]) in us)
    && (forall v :: Remove(id, v) in us ==> Buried(s.tombs, id, v))
  }

  /** The endpoint of id is the newest announcement strictly above the tombstone. */
  ghost predicate EndpointReflects(s: State, us: set<Update>, id: string) {
    && (id in s.endpoints ==> s.endpoints[id].id == id && Announce(s.endpoints[id]) in us
                              && !Buried(s.tombs, id, s.endpoints[id].version))
    && (forall e :: Announce(e) in us && e.id == id && !Buried(s.tombs, id, e.version)
                    ==> id in s.endpoints && !Newer(e, s.endpoints[id]))
  }

  ghost predicate Reflects(s: State, us: set<Update>) {
    && "" !in s.endpoints && "" !in s.tombs
    && forall id :: id != "" ==> TombReflects(s, us, id) && EndpointReflects(s, us, id)
  }

  lemma ReflectsEmpty()
    ensures Reflects(State(map[], map[]), {})
  {}

  lemma ReflectsStep(s: State, us: set<Update>, u: Update)
    requires Reflects(s, us)
    ensures Reflects(Apply(s, u), us + {u})
  {
    hide Newer;
    var t, vs := Apply(s, u), us + {u};
    forall id | id != ""
      ensures TombReflects(t, vs, id) && EndpointReflects(t, vs, id)
    {
      assert TombReflects(s, us, id) && EndpointReflects(s, us, id);
      if id != Key(u) {
        OtherKey(s, us, u, id);
      } else if u.Announce? {
        AnnounceStep(s, us, u.endpoint);
      } else {
        RemoveStep(s, us, id, u.version);
      }
    }
  }

  lemma OtherKey(s: State, us: set<Update>, u: Update, id: string)
    requires TombReflects(s, us, id) && EndpointReflects(s, us, id) && id != Key(u)
    ensures TombReflects(Apply(s, u), us + {u}, id) && EndpointReflects(Apply(s, u), us + {u}, id)
  {
    hide Newer;
  }

  lemma NewerOrder(e: Endpoint, f: Endpoint, g: Endpoint)
    ensures !Newer(e, e)
    ensures Newer(f, g) && !Newer(e, g) ==> !Newer(e, f)
    ensures !Newer(e, f) && !Newer(f, g) ==> !Newer(e, g)
  {}

  lemma AnnounceStep(s: State, us: set<Update>, e: Endpoint)
    requires TombReflects(s, us, e.id) && EndpointReflects(s, us, e.id) && e.id != ""
    ensures TombReflects(Apply(s, Announce(e)), us + {Announce(e)}, e.id)
    ensures EndpointReflects(Apply(s, Announce(e)), us + {Announce(e)}, e.id)
  {
    hide Newer;
    var t := Apply(s, Announce(e));
    forall f | Announce(f) in us + {Announce(e)} && f.id == e.id && !Buried(t.tombs, e.id, f.version)
      ensures e.id in t.endpoints && !Newer(f, t.endpoints[e.id])
    {
      NewerOrder(e, e, e);
      if e.id in s.endpoints {
        NewerOrder(f, e, s.endpoints[e.id]);
      }
    }
  }

  lemma RemoveStep(s: State, us: set<Update>, id: string, v: nat)
    requires TombReflects(s, us, id) && EndpointReflects(s, us, id) && id != ""
    ensures TombReflects(Apply(s, Remove(id, v)), us + {Remove(id, v)}, id)
    ensures EndpointReflects(Apply(s, Remove(id, v)), us + {Remove(id, v)}, id)
  {
    var t := Apply(s, Remove(id, v));
    forall e | Announce(e) in us && e.id == id && !Buried(t.tombs, id, e.version)
      ensures id in t.endpoints && !Newer(e, t.endpoints[id])
    {
      assert !Buried(s.tombs, id, e.version);
      assert !Newer(e, s.endpoints[id]);
    }
  }

  function Known(us: seq<Update>): set<Update> {
    set u | u in us
  }

  /** Absorbing updates in any order, with repetitions, makes the state reflect their set. */
  lemma {:induction false} AbsorbReflects(s: State, seen: set<Update>, us: seq<Update>)
    requires Reflects(s, seen)
    ensures Reflects(Absorb(s, us), seen + Known(us))
  {
    hide Reflects, Apply;
    if us == [] {
      assert seen + Known(us) == seen;
    } else {
      var rest, u := us[..|us| - 1], us[|us| - 1];
      AbsorbReflects(s, seen, rest);
      ReflectsStep(Absorb(s, rest), seen + Known(rest), u);
      assert us == rest + [u];
      assert seen + Known(us) == seen + Known(rest) + {u};
    }
  }

  /** Id, version and time stamp determine an endpoint. */
  ghost predicate Coherent(us: set<Update>) {
    forall e, f :: Announce(e) in us && Announce(f) in us && e.id == f.id && !Newer(e, f) && !Newer(f, e) ==> e == f
  }

  /** The set of updates determines the state. */
  lemma ReflectsUnique(s: State, t: State, us: set<Update>)
    requires Reflects(s, us) && Reflects(t, us) && Coherent(us)
    ensures s == t
  {
    hide Newer;
    forall id: string
      ensures id in s.tombs <==> id in t.tombs
      ensures id in s.tombs ==> s.tombs[id] == t.tombs[id]
    {
      if id != "" {
        assert TombReflects(s, us, id) && TombReflects(t, us, id);
      }
    }
    assert s.tombs == t.tombs;
    forall id: string
      ensures id in s.endpoints <==> id in t.endpoints
      ensures id in s.endpoints ==> s.endpoints[id] == t.endpoints[id]
    {
      if id != "" {
        assert EndpointReflects(s, us, id) && EndpointReflects(t, us, id);
      }
    }
    assert s.endpoints == t.endpoints;
  }

  /** Replicas that absorbed the same updates agree, whatever the order and however often each one came. */
  lemma ReplicasAgree(us: seq<Update>, vs: seq<Update>)
    requires Known(us) == Known(vs) && Coherent(Known(us))
    ensures Absorb(State(map[], map[]), us) == Absorb(State(map[], map[]), vs)
  {
    hide Reflects, Absorb, Coherent;
    ReflectsEmpty();
    AbsorbReflects(State(map[], map[]), {}, us);
    AbsorbReflects(State(map[], map[]), {}, vs);
    assert {} + Known(us) == Known(us) == {} + Known(vs);
    ReflectsUnique(Absorb(State(map[], map[]), us), Absorb(State(map[], map[]), vs), Known(us));
  }

  lemma AbsorbNothing(s: State)
    ensures Absorb(s, []) == s
  {}

  lemma AbsorbStep(s: State, us: seq<Update>, i: nat)
    requires i < |us|
    ensures Absorb(s, us[..i + 1]) == Apply(Absorb(s, us[..i]), us[i])
  {
    assert us[..i + 1][..i] == us[..i];
  }

  // ----- Snapshots -----

  datatype Snapshot = Snapshot(endpoints: seq<Endpoint>, removed: seq<Update>)

  /** The snapshot lists exactly what the state holds, in any order. */
  ghost predicate Lists(snap: Snapshot, s: State) {
    && (forall e :: e in snap.endpoints <==> e.id in s.endpoints && s.endpoints[e.id] == e)
    && (forall u :: u in snap.removed <==> u.Remove? && u.id in s.tombs && s.tombs[u.id] == u.version)
  }

  function Announced(es: seq<Endpoint>): seq<Update> {
    seq(|es|, i requires 0 <= i < |es| => Announce(es[i]))
  }

  /** Endpoints first, then removals. */
  function Updates(snap: Snapshot): seq<Update> {
    Announced(snap.endpoints) + snap.removed
  }

  function Merge(s: State, snap: Snapshot): State {
    Absorb(s, Updates(snap))
  }

  lemma UpdatesKnown(snap: Snapshot, s: State)
    requires Lists(snap, s)
    ensures forall u :: u in Known(Updates(snap)) <==>
      match u
      case Announce(e) => e.id in s.endpoints && s.endpoints[e.id] == e
      case Remove(id, v) => id in s.tombs && s.tombs[id] == v
  {
    forall u
      ensures u in Known(Updates(snap)) <==> u in Announced(snap.endpoints) || u in snap.removed
    {}
    forall e: Endpoint
      ensures Announce(e) in Announced(snap.endpoints) <==> e in snap.endpoints
    {
      if e in snap.endpoints {
        var i :| 0 <= i < |snap.endpoints| && snap.endpoints[i] == e;
        assert Announced(snap.endpoints)[i] == Announce(e);
      }
    }
  }

  /** Merging a replica's snapshot is as good as absorbing everything that replica ever absorbed. */
  lemma MergeReflects(s: State, us: set<Update>, t: State, vs: set<Update>, snap: Snapshot)
    requires Reflects(s, us) && Reflects(t, vs) && Lists(snap, t)
    ensures Reflects(Merge(s, snap), us + vs)
  {
    hide Lists, Absorb, Newer, Known;
    var r, ws := Merge(s, snap), us + Known(Updates(snap));
    AbsorbReflects(s, us, Updates(snap));
    UpdatesKnown(snap, t);
    forall id | id != ""
      ensures TombReflects(r, us + vs, id) && EndpointReflects(r, us + vs, id)
    {
      assert TombReflects(r, ws, id) && EndpointReflects(r, ws, id);
      assert TombReflects(t, vs, id) && EndpointReflects(t, vs, id);
      TombsCover(r, us, t, vs, ws, id);
      EndpointsCover(r, us, t, vs, ws, id);
    }
  }

  /** ws knows all of us and, of vs, what t has kept. */
  ghost predicate Digests(us: set<Update>, t: State, vs: set<Update>, ws: set<Update>) {
    && us <= ws
    && (forall e :: Announce(e) in ws ==> Announce(e) in us || (e.id in t.endpoints && t.endpoints[e.id] == e))
    && (forall id, v :: Remove(id, v) in ws ==> Remove(id, v) in us || (id in t.tombs && t.tombs[id] == v))
    && (forall id :: id in t.endpoints && t.endpoints[id].id == id ==> Announce(t.endpoints[id]) in ws)
    && (forall id :: id in t.tombs ==> Remove(id, t.tombs[id]) in ws)
  }

  lemma TombsCover(r: State, us: set<Update>, t: State, vs: set<Update>, ws: set<Update>, id: string)
    requires Digests(us, t, vs, ws) && TombReflects(r, ws, id) && TombReflects(t, vs, id)
    ensures TombReflects(r, us + vs, id)
  {
    forall v | Remove(id, v) in us + vs
      ensures Buried(r.tombs, id, v)
    {
      if Remove(id, v) in vs {
        assert Buried(t.tombs, id, v) && Remove(id, t.tombs[id]) in ws;
      }
    }
  }

  lemma EndpointsCover(r: State, us: set<Update>, t: State, vs: set<Update>, ws: set<Update>, id: string)
    requires Digests(us, t, vs, ws) && TombReflects(r, ws, id) && EndpointReflects(r, ws, id)
    requires EndpointReflects(t, vs, id)
    ensures EndpointReflects(r, us + vs, id)
  {
    hide Newer;
    forall e | Announce(e) in us + vs && e.id == id && !Buried(r.tombs, id, e.version)
      ensures id in r.endpoints && !Newer(e, r.endpoints[id])
    {
      if Announce(e) !in us {
        assert id in t.tombs ==> Remove(id, t.tombs[id]) in ws;
        var f := t.endpoints[id];
        assert Announce(f) in ws;
        NewerOrder(e, f, f);
        AboveTomb(r, e, f);
        NewerOrder(e, f, r.endpoints[id]);
      }
    }
  }

  lemma AboveTomb(r: State, e: Endpoint, f: Endpoint)
    requires e.id == f.id && !Newer(e, f) && !Buried(r.tombs, e.id, e.version)
    ensures !Buried(r.tombs, e.id, f.version)
  {}

  // ----- Merging is a join -----

  /** Two replicas that exchange snapshots end up equal. */
  lemma MergeCommutes(s: State, us: set<Update>, sp: Snapshot, t: State, vs: set<Update>, tp: Snapshot)
    requires Reflects(s, us) && Reflects(t, vs) && Lists(sp, s) && Lists(tp, t) && Coherent(us + vs)
    ensures Merge(s, tp) == Merge(t, sp)
  {
    hide Reflects, Lists, Merge, Coherent;
    MergeReflects(s, us, t, vs, tp);
    MergeReflects(t, vs, s, us, sp);
    assert us + vs == vs + us;
    ReflectsUnique(Merge(s, tp), Merge(t, sp), us + vs);
  }

  lemma MergeAssociates(s: State, us: set<Update>, t: State, vs: set<Update>, tp: Snapshot, u: State, ws: set<Update>,
                        up: Snapshot, tup: Snapshot)
    requires Reflects(s, us) && Reflects(t, vs) && Reflects(u, ws) && Coherent(us + vs + ws)
    requires Lists(tp, t) && Lists(up, u) && Lists(tup, Merge(t, up))
    ensures Merge(Merge(s, tp), up) == Merge(s, tup)
  {
    hide Reflects, Lists, Merge, Coherent;
    MergeReflects(s, us, t, vs, tp);
    MergeReflects(Merge(s, tp), us + vs, u, ws, up);
    MergeReflects(t, vs, u, ws, up);
    MergeReflects(s, us, Merge(t, up), vs + ws, tup);
    assert us + (vs + ws) == us + vs + ws;
    ReflectsUnique(Merge(Merge(s, tp), up), Merge(s, tup), us + vs + ws);
  }

  lemma MergeIdempotent(s: State, us: set<Update>, t: State, vs: set<Update>, tp: Snapshot)
    requires Reflects(s, us) && Reflects(t, vs) && Lists(tp, t) && Coherent(us + vs)
    ensures Merge(Merge(s, tp), tp) == Merge(s, tp)
  {
    hide Reflects, Lists, Merge, Coherent;
    MergeReflects(s, us, t, vs, tp);
    MergeReflects(Merge(s, tp), us + vs, t, vs, tp);
    assert us + vs + vs == us + vs;
    ReflectsUnique(Merge(Merge(s, tp), tp), Merge(s, tp), us + vs);
  }

  // ----- Local changes -----

  /** The version and time stamp a local upsert gives its endpoint. */
  function Stamped(s: State, e: Endpoint, now: nat): Endpoint {
    e.(version := if e.id in s.endpoints then s.endpoints[e.id].version + 1
                  else if e.version == 0 then 1 else e.version,
       updated := if e.updated == 0 then now else e.updated)
  }

  function Upsert(s: State, e: Endpoint, now: nat): State {
    if e.id == "" then s else State(s.endpoints[e.id := Stamped(s, e, now)], s.tombs - {e.id})
  }

  function RemoveLocal(s: State, id: string): State {
    if id in s.endpoints then State(s.endpoints - {id}, s.tombs[id := s.endpoints[id].version]) else s
  }

  /** Removing locally is the removal update of the current version. */
  lemma RemoveLocalIsUpdate(s: State, id: string)
    requires Valid(s) && id in s.endpoints
    ensures RemoveLocal(s, id) == Apply(s, Remove(id, s.endpoints[id].version))
  {}

  /** A local upsert is an announcement exactly if it had no tombstone to erase. */
  lemma UpsertIsUpdate(s: State, e: Endpoint, now: nat)
    requires Valid(s) && e.id != ""
    ensures Upsert(s, e, now) == Apply(s, Announce(Stamped(s, e, now))) <==> e.id !in s.tombs
  {
    if e.id !in s.tombs {
      assert s.tombs - {e.id} == s.tombs;
    } else {
      assert e.id !in Upsert(s, e, now).tombs && e.id in Apply(s, Announce(Stamped(s, e, now))).tombs;
    }
  }

  /** Any endpoint a replica accepts for an id it has a tombstone for is above that tombstone. */
  lemma {:induction false} NoResurrection(s: State, id: string, us: seq<Update>)
    requires Valid(s) && id in s.tombs
    ensures var t := Absorb(s, us);
      Valid(t) && id in t.tombs && t.tombs[id] >= s.tombs[id]
      && (id in t.endpoints ==> t.endpoints[id].version > s.tombs[id])
  {
    if us != [] {
      NoResurrection(s, id, us[..|us| - 1]);
    }
  }

  /** The version an endpoint gets that is added again after its removal. */
  function ReaddedVersion(e: Endpoint): nat {
    if e.version == 0 then 1 else e.version
  }

  function Readded(s: State, e: Endpoint, now: nat): State {
    Upsert(RemoveLocal(s, e.id), e, now)
  }

  /**
   * Removing an endpoint and adding it again forgets the tombstone. A replica that still has one accepts the new
   * announcement, and its removal leaves the owner's endpoint alone, if and only if the version given is above that
   * tombstone; in particular an endpoint registered without a version restarts at 1 and is lost.
   */
  lemma ReaddedSurvives(s: State, r: State, e: Endpoint, now: nat)
    requires Valid(s) && e.id in s.endpoints
    requires Valid(r) && e.id in r.tombs && e.id !in r.endpoints
    ensures var own := Readded(s, e, now);
            e.id in own.endpoints && e.id !in own.tombs && own.endpoints[e.id].id == e.id
    ensures var announced := Announce(Readded(s, e, now).endpoints[e.id]);
            e.id in Apply(r, announced).endpoints <==> ReaddedVersion(e) > r.tombs[e.id]
    ensures e.id in Apply(Readded(s, e, now), Remove(e.id, r.tombs[e.id])).endpoints
            <==> ReaddedVersion(e) > r.tombs[e.id]
  {}

  predicate SameAt(s: State, t: State, id: string) {
    && (id in s.endpoints <==> id in t.endpoints) && (id in s.endpoints ==> s.endpoints[id] == t.endpoints[id])
    && (id in s.tombs <==> id in t.tombs) && (id in s.tombs ==> s.tombs[id] == t.tombs[id])
  }

  lemma ApplyAt(s: State, t: State, u: Update, id: string)
    requires SameAt(s, t, id)
    ensures Key(u) != id ==> SameAt(Apply(s, u), t, id)
    ensures SameAt(Apply(s, u), Apply(t, u), id)
    ensures SameAt(Apply(Apply(s, u), u), Apply(s, u), id)
  {
    hide Newer;
    NewerOrderAll(u);
    if u.Remove? {
    } else if id != Key(u) {
    }
  }

  lemma NewerOrderAll(u: Update)
    ensures u.Announce? ==> !Newer(u.endpoint, u.endpoint)
  {}

  /** Absorbing updates that say one thing about id does to id what that one thing does. */
  lemma {:induction false} AbsorbOne(s: State, us: seq<Update>, id: string, u: Update)
    requires Key(u) == id && forall v :: v in us && Key(v) == id ==> v == u
    ensures SameAt(Absorb(s, us), if u in us then Apply(s, u) else s, id)
  {
    hide Apply, SameAt, Key;
    AbsorbNothing(s);
    if us == [] {
      assert SameAt(s, s, id) by { Itself(s, id); }
    } else {
      var rest, v := us[..|us| - 1], us[|us| - 1];
      assert us == rest + [v];
      AbsorbOne(s, rest, id, u);
      var t := if u in rest then Apply(s, u) else s;
      Itself(s, id);
      ApplyAt(s, s, u, id);
      ApplyAt(Absorb(s, rest), t, v, id);
      SameTrans(Absorb(s, us), Apply(t, v), Apply(s, u), id);
    }
  }

  lemma Itself(s: State, id: string)
    ensures SameAt(s, s, id)
  {}

  lemma SameTrans(s: State, t: State, r: State, id: string)
    ensures SameAt(s, t, id) && SameAt(t, r, id) ==> SameAt(s, r, id)
  {}

  /**
   * The same for whole snapshots, exchanged in both directions: the endpoint added again ends up at both replicas if
   * that condition holds, and at neither if it does not.
   */
  lemma ReaddedExchange(s: State, r: State, e: Endpoint, now: nat, mine: Snapshot, theirs: Snapshot)
    requires Valid(s) && e.id in s.endpoints
    requires Valid(r) && e.id in r.tombs && e.id !in r.endpoints
    requires Lists(mine, Readded(s, e, now)) && Lists(theirs, r)
    ensures e.id in Merge(Readded(s, e, now), theirs).endpoints <==> ReaddedVersion(e) > r.tombs[e.id]
    ensures e.id in Merge(r, mine).endpoints <==> ReaddedVersion(e) > r.tombs[e.id]
  {
    hide Lists, Upsert, Absorb;
    var own, id := Readded(s, e, now), e.id;
    ReaddedSurvives(s, r, e, now);
    UpdatesKnown(mine, own);
    UpdatesKnown(theirs, r);
    assert Announce(own.endpoints[id]) in Known(Updates(mine));
    assert Remove(id, r.tombs[id]) in Known(Updates(theirs));
    forall v | v in Updates(mine) && Key(v) == id ensures v == Announce(own.endpoints[id]) {
      assert v in Known(Updates(mine));
    }
    forall v | v in Updates(theirs) && Key(v) == id ensures v == Remove(id, r.tombs[id]) {
      assert v in Known(Updates(theirs));
    }
    AbsorbOne(own, Updates(theirs), id, Remove(id, r.tombs[id]));
    AbsorbOne(r, Updates(mine), id, Announce(own.endpoints[id]));
  }

  // ----- Validity is kept -----

  lemma ApplyValid(s: State, u: Update)
    requires Valid(s)
    ensures Valid(Apply(s, u))
  {
    hide Newer;
  }

  lemma {:induction false} AbsorbValid(s: State, us: seq<Update>)
    requires Valid(s)
    ensures Valid(Absorb(s, us))
  {
    hide Valid, Apply;
    if us != [] {
      AbsorbValid(s, us[..|us| - 1]);
      ApplyValid(Absorb(s, us[..|us| - 1]), us[|us| - 1]);
    }
  }

  lemma FewerTombsValid(s: State, tombs: map<string, nat>)
    requires Valid(s) && forall id :: id in tombs ==> id in s.tombs && tombs[id] == s.tombs[id]
    ensures Valid(s.(tombs := tombs))
  {}

  // ----- The directory object -----

  datatype Tombstone = Tombstone(version: nat, updated: nat, removedAt: nat)

  datatype Removal = Removal(id: string, version: nat, updated: nat)

  const TOMBSTONE_TTL: nat := 60000

  function Versions(tombs: map<string, Tombstone>): map<string, nat> {
    map id | id in tombs :: tombs[id].version
  }

  class EndpointDirectory {
    var endpoints: map<string, Endpoint>
    var tombstones: map<string, Tombstone>
    var version: nat

    ghost function Abstract(): State
      reads this
    {
      State(endpoints, Versions(tombstones))
    }

    constructor ()
      ensures Abstract() == State(map[], map[]) && version == 0 && Valid(Abstract())
    {
      endpoints, tombstones, version := map[], map[], 0;
    }

    method MergeEndpoint(e: Endpoint) returns (changed: bool)
      modifies this
      ensures Abstract() == Apply(old(Abstract()), Announce(e))
      ensures Valid(old(Abstract())) ==> Valid(Abstract())
      ensures changed <==> Abstract() != old(Abstract())
      ensures version == old(version) + if changed then 1 else 0
    {
      if e.id == "" {
        return false;
      }
      if e.id in tombstones && e.version <= tombstones[e.id].version {
        return false;
      }
      if e.id !in endpoints {
        endpoints := endpoints[e.id := e];
        version := version + 1;
        return true;
      }
      var existing := endpoints[e.id];
      if e.version > existing.version || (e.version == existing.version && e.updated > existing.updated) {
        endpoints := endpoints[e.id := e];
        assert endpoints[e.id] != existing;
        version := version + 1;
        return true;
      }
      changed := false;
    }

    method ApplyRemoval(id: string, v: nat, updated: nat, now: nat) returns (changed: bool)
      modifies this
      ensures Abstract() == Apply(old(Abstract()), Remove(id, v))
      ensures Valid(old(Abstract())) ==> Valid(Abstract())
      ensures changed <==> endpoints != old(endpoints)
      ensures version == old(version) + if changed then 1 else 0
    {
      if id == "" {
        return false;
      }
      changed := false;
      if id in endpoints && endpoints[id].version <= v {
        endpoints := endpoints - {id};
        version := version + 1;
        changed := true;
      }
      if id !in tombstones || tombstones[id].version < v {
        tombstones := tombstones[id := Tombstone(v, updated, now)];
        assert Versions(tombstones) == Versions(old(tombstones))[id := v];
      }
    }

    method MergeSnapshot(es: seq<Endpoint>, removed: seq<Removal>, now: nat) returns (changed: bool)
      modifies this
      ensures Abstract() == Merge(old(Abstract()), Snapshot(es, Removals(removed)))
      ensures Valid(old(Abstract())) ==> Valid(Abstract())
      ensures changed <==> version > old(version)
    {
      hide Apply, Absorb, Valid;
      changed := false;
      ghost var was := Abstract();
      if Valid(was) {
        AbsorbValid(was, Updates(Snapshot(es, Removals(removed))));
      }
      AbsorbNothing(was);
      ghost var all := Updates(Snapshot(es, Removals(removed)));
      assert all[..0] == [];
      for i := 0 to |es|
        invariant Abstract() == Absorb(was, all[..i])
        invariant version >= old(version) && (changed <==> version > old(version))
      {
        var c := MergeEndpoint(es[i]);
        AbsorbStep(was, all, i);
        changed := changed || c;
      }
      for i := 0 to |removed|
        invariant Abstract() == Absorb(was, all[..|es| + i])
        invariant version >= old(version) && (changed <==> version > old(version))
      {
        var r := removed[i];
        var c := ApplyRemoval(r.id, r.version, r.updated, now);
        AbsorbStep(was, all, |es| + i);
        changed := changed || c;
      }
      assert all[..|es| + |removed|] == all;
    }

    method ListEndpoints() returns (es: seq<Endpoint>)
      requires Valid(Abstract())
      ensures forall e :: e in es <==> e.id in endpoints && endpoints[e.id] == e
    {
      es := [];
      var ids := endpoints.Keys;
      while ids != {}
        invariant ids <= endpoints.Keys
        invariant forall e :: e in es <==> e.id in endpoints.Keys - ids && endpoints[e.id] == e
        decreases |ids|
      {
        var id :| id in ids;
        es := es + [endpoints[id]];
        ids := ids - {id};
      }
    }

    /** Drops expired tombstones and lists the rest of the state in some order. */
    method TakeSnapshot(now: nat) returns (es: seq<Endpoint>, removed: seq<Removal>)
      requires Valid(Abstract())
      modifies this`tombstones
      ensures tombstones == Unexpired(old(tombstones), now)
      ensures Lists(Snapshot(es, Removals(removed)), Abstract())
      ensures Valid(Abstract())
    {
      hide Expired, Valid;
      ghost var was := Abstract();
      es := ListEndpoints();
      removed := [];
      var ids := tombstones.Keys;
      ghost var all := tombstones;
      while ids != {}
        invariant ids <= all.Keys
        invariant tombstones == map id | id in all && (id in ids || !Expired(all[id], now)) :: all[id]
        invariant forall r :: r in removed <==>
          r.id in all.Keys - ids && !Expired(all[r.id], now) && r == Removal(r.id, all[r.id].version, all[r.id].updated)
        decreases |ids|
      {
        var id :| id in ids;
        ids := ids - {id};
        if Expired(tombstones[id], now) {
          tombstones := tombstones - {id};
        } else {
          removed := removed + [Removal(id, tombstones[id].version, tombstones[id].updated)];
        }
      }
      RemovalsList(removed, tombstones);
      FewerTombsValid(was, Versions(tombstones));
    }

    method UpsertLocal(e: Endpoint, now: nat)
      modifies this
      ensures Abstract() == Upsert(old(Abstract()), e, now)
      ensures Valid(old(Abstract())) ==> Valid(Abstract())
      ensures version == old(version) + if e.id != "" then 1 else 0
    {
      if e.id == "" {
        return;
      }
      tombstones := tombstones - {e.id};
      assert Versions(tombstones) == Versions(old(tombstones)) - {e.id};
      var f := e;
      if e.id !in endpoints {
        if f.version == 0 {
          f := f.(version := 1);
        }
      } else {
        f := f.(version := endpoints[e.id].version + 1);
      }
      if f.updated == 0 {
        f := f.(updated := now);
      }
      endpoints := endpoints[e.id := f];
      version := version + 1;
    }

    method RemoveOwn(id: string, now: nat) returns (removed: bool)
      modifies this
      ensures Valid(old(Abstract())) ==> Valid(Abstract())
      ensures Abstract() == RemoveLocal(old(Abstract()), id) && (removed <==> id in old(endpoints))
      ensures version == old(version) + if removed then 1 else 0
    {
      if id !in endpoints {
        return false;
      }
      var e := endpoints[id];
      endpoints := endpoints - {id};
      tombstones := tombstones[id := Tombstone(e.version, e.updated, now)];
      assert Versions(tombstones) == Versions(old(tombstones))[id := e.version];
      version := version + 1;
      removed := true;
    }
  }

  lemma RemovalsList(removed: seq<Removal>, tombs: map<string, Tombstone>)
    requires forall r :: r in removed <==> r.id in tombs && r == Removal(r.id, tombs[r.id].version, tombs[r.id].updated)
    ensures forall u :: u in Removals(removed) <==> u.Remove? && u.id in tombs && tombs[u.id].version == u.version
  {
    forall u: Update | u.Remove? && u.id in tombs && tombs[u.id].version == u.version
      ensures u in Removals(removed)
    {
      var r := Removal(u.id, tombs[u.id].version, tombs[u.id].updated);
      assert r in removed;
      var i :| 0 <= i < |removed| && removed[i] == r;
      assert Removals(removed)[i] == u;
    }
    forall i | 0 <= i < |removed|
      ensures Removals(removed)[i].id in tombs && tombs[removed[i].id].version == removed[i].version
    {
      assert removed[i] in removed;
    }
  }

  /** Unsigned 64-bit difference, as the clock values are. */
  predicate Expired(t: Tombstone, now: nat) {
    (now - t.removedAt) % 0x1_0000_0000_0000_0000 >= TOMBSTONE_TTL
  }

  function Unexpired(tombs: map<string, Tombstone>, now: nat): map<string, Tombstone> {
    map id | id in tombs && !Expired(tombs[id], now) :: tombs[id]
  }

  function Removals(removed: seq<Removal>): seq<Update> {
    seq(|removed|, i requires 0 <= i < |removed| => Remove(removed[i].id, removed[i].version))
  }
}
