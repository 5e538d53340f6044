/** The ordered command channel: gaps are waited for up to three round trips, then skipped for good. */
module CommandChannel {
  import opened Collections

  type Bytes = seq<bv8>

  datatype Command = Command(sequence: nat, payload: Bytes)

  /** The receiving side; held maps sequences ahead of a gap to their payloads. */
  datatype State = State(initialized: bool, next: nat, held: map<nat, Bytes>, gapSince: int)

  const MAX_WAIT_RTT := 3

  // ----- Specification -----

  /** Delivers what is held from the expected sequence on, without a gap. */
  function Drained(s: State): (State, seq<Command>)
    decreases |s.held|
  {
    if s.next !in s.held then (s, [])
    else
      var c := Command(s.next, s.held[s.next]);
      var (t, out) := Drained(s.(next := s.next + 1, held := s.held - {s.next}));
      (t, [c] + out)
  }

  function WaitMicros(rtt: nat): nat {
    MAX_WAIT_RTT * if rtt > 0 then rtt else 10000
  }

  predicate WaitOver(s: State, rtt: nat, now: int) {
    now - s.gapSince >= WaitMicros(rtt)
  }

  /** Skips the first gap if something is held and the wait is over. */
  ghost function Expired(s: State, rtt: nat, now: int): (State, seq<Command>) {
    if s.held == map[] || !WaitOver(s, rtt, now) then (s, [])
    else
      var (t, out) := Drained(s.(next := Least(s.held.Keys)));
      (if t.held == map[] then t else t.(gapSince := now), out)
  }

  function Started(s: State, sequence: nat): State {
    if s.initialized then s else s.(initialized := true, next := sequence)
  }

  ghost function Handled(s: State, c: Command, rtt: nat, now: int): (State, seq<Command>) {
    if c.sequence == 0 then (s, [])
    else
      var t := Started(s, c.sequence);
      if c.sequence < t.next then (t, [])
      else if c.sequence == t.next then
        var (u, out) := Drained(t.(next := t.next + 1));
        (u, [c] + out)
      else
        var u := if t.held == map[] then t.(gapSince := now) else t;
        var v := if c.sequence in u.held then u else u.(held := u.held[c.sequence := c.payload]);
        Expired(v, rtt, now)
  }

  // ----- Invariant -----

  /** Held commands lie strictly above the expected sequence. */
  predicate Valid(s: State) {
    && (forall k :: k in s.held ==> k > s.next)
    && (!s.initialized ==> s.held == map[])
  }

  predicate Ascending(log: seq<Command>) {
    forall i, j :: 0 <= i < j < |log| ==> log[i].sequence < log[j].sequence
  }

  /** Held keys at or above the expected sequence, before a drain. */
  predicate Ahead(s: State) {
    forall k :: k in s.held ==> k >= s.next
  }

  lemma DrainStep(s: State)
    ensures s.next !in s.held ==> Drained(s) == (s, [])
    ensures s.next in s.held ==>
      var rest := Drained(s.(next := s.next + 1, held := s.held - {s.next}));
      Drained(s) == (rest.0, [Command(s.next, s.held[s.next])] + rest.1)
  {}

  /** A drain delivers consecutive sequences, each with the payload held for it, and leaves a proper gap. */
  lemma {:induction false} DrainedShape(s: State)
    requires Ahead(s)
    ensures var (t, out) := Drained(s);
      (forall k :: k in t.held ==> k > t.next) && t.next == s.next + |out|
      && (forall i :: 0 <= i < |out| ==> out[i].sequence == s.next + i && out[i].sequence in s.held
                                         && out[i].payload == s.held[out[i].sequence])
      && t.held == (map k | k in s.held && k >= t.next :: s.held[k])
      && t.initialized == s.initialized && t.gapSince == s.gapSince
    decreases |s.held|
  {
    hide Drained;
    DrainStep(s);
    if s.next !in s.held {
      assert s.held == map k | k in s.held && k >= s.next :: s.held[k];
    } else {
      var u := s.(next := s.next + 1, held := s.held - {s.next});
      DrainedShape(u);
      var (t, rest) := Drained(u);
      var out := [Command(s.next, s.held[s.next])] + rest;
      assert forall i :: 0 < i < |out| ==> out[i] == rest[i - 1];
    }
  }

  lemma NoKeys(m: map<nat, Bytes>)
    ensures m.Keys == {} <==> m == map[]
    ensures |m| == 0 <==> m == map[]
  {
    if m.Keys == {} {
      assert m == map[];
    }
  }

  // ----- Runs -----

  datatype Event = Receive(command: Command, rtt: nat, now: int) | Flush(rtt: nat, now: int)

  ghost function Step(s: State, e: Event): (State, seq<Command>) {
    match e
    case Receive(c, rtt, now) => Handled(s, c, rtt, now)
    case Flush(rtt, now) => Expired(s, rtt, now)
  }

  /** A command is accepted unless it comes too late, is a duplicate or has the reserved sequence zero. */
  predicate Accepts(s: State, c: Command) {
    c.sequence != 0 && (s.initialized ==> c.sequence >= s.next) && c.sequence !in s.held
  }

  ghost function Accepted(s: State, e: Event, accepted: map<nat, Bytes>): map<nat, Bytes> {
    if e.Receive? && Accepts(s, e.command) then accepted[e.command.sequence := e.command.payload] else accepted
  }

  ghost predicate Delivered(log: seq<Command>, k: nat) {
    exists i :: 0 <= i < |log| && log[i].sequence == k
  }

  /**
   * log is everything delivered, in order; accepted is everything accepted. Deliveries ascend, and each accepted
   * command is either held, above the expected sequence, or delivered, below it, with the payload it came with.
   */
  ghost predicate Inv(s: State, log: seq<Command>, accepted: map<nat, Bytes>) {
    && Valid(s) && Ascending(log)
    && (!s.initialized ==> log == [])
    && (forall i :: 0 <= i < |log| ==> log[i].sequence < s.next && log[i].sequence in accepted
                                       && accepted[log[i].sequence] == log[i].payload)
    && (forall k :: k in s.held ==> k in accepted && accepted[k] == s.held[k])
    && (forall k :: k in accepted ==> k in s.held || Delivered(log, k))
  }

  /** The invariant between the acceptance of a command and the drain that may follow. */
  ghost predicate Pending(s: State, log: seq<Command>, accepted: map<nat, Bytes>) {
    && Ahead(s) && s.initialized && Ascending(log)
    && (forall i :: 0 <= i < |log| ==> log[i].sequence < s.next && log[i].sequence in accepted
                                       && accepted[log[i].sequence] == log[i].payload)
    && (forall k :: k in s.held ==> k in accepted && accepted[k] == s.held[k])
    && (forall k :: k in accepted ==> k in s.held || Delivered(log, k))
  }

  lemma DrainKeeps(s: State, log: seq<Command>, accepted: map<nat, Bytes>)
    requires Pending(s, log, accepted)
    ensures var (t, out) := Drained(s); Inv(t, log + out, accepted)
  {
    DrainedShape(s);
    hide Drained;
    var (t, out) := Drained(s);
    Appended(log, out);
    DrainDelivers(s, log, accepted);
    hide Delivered;
  }

  lemma DrainDelivers(s: State, log: seq<Command>, accepted: map<nat, Bytes>)
    requires Pending(s, log, accepted)
    ensures var (t, out) := Drained(s); forall k :: k in accepted ==> k in t.held || Delivered(log + out, k)
  {
    DrainedShape(s);
    hide Drained;
    var (t, out) := Drained(s);
    Appended(log, out);
    forall k | k in accepted
      ensures k in t.held || Delivered(log + out, k)
    {
      if k in s.held && k < t.next {
        assert out[k - s.next].sequence == k;
        assert Delivered(out, k);
      }
    }
  }

  lemma Appended(log: seq<Command>, out: seq<Command>)
    ensures forall k :: Delivered(log, k) || Delivered(out, k) ==> Delivered(log + out, k)
    ensures forall i :: 0 <= i < |log + out| ==> (log + out)[i] == if i < |log| then log[i] else out[i - |log|]
  {
    var all := log + out;
    forall k | Delivered(log, k) || Delivered(out, k)
      ensures Delivered(all, k)
    {
      if Delivered(log, k) {
        var i :| 0 <= i < |log| && log[i].sequence == k;
        assert all[i].sequence == k;
      } else {
        var i :| 0 <= i < |out| && out[i].sequence == k;
        assert all[|log| + i].sequence == k;
      }
    }
  }

  lemma ExpireKeeps(s: State, log: seq<Command>, accepted: map<nat, Bytes>, rtt: nat, now: int)
    requires Inv(s, log, accepted)
    ensures var (t, out) := Expired(s, rtt, now); Inv(t, log + out, accepted)
  {
    assert log + [] == log;
    if s.held != map[] && WaitOver(s, rtt, now) {
      NoKeys(s.held);
      var u := s.(next := Least(s.held.Keys));
      DrainKeeps(u, log, accepted);
    }
  }

  lemma DirectPending(s: State, log: seq<Command>, accepted: map<nat, Bytes>, c: Command)
    requires Inv(s, log, accepted) && s.initialized && c.sequence == s.next
    ensures Pending(s.(next := s.next + 1), log + [c], accepted[c.sequence := c.payload])
  {
    Appended(log, [c]);
    assert Delivered([c], c.sequence) by { assert [c][0].sequence == c.sequence; }
  }

  lemma DirectKeeps(s: State, log: seq<Command>, accepted: map<nat, Bytes>, c: Command)
    requires Inv(s, log, accepted) && s.initialized && c.sequence == s.next
    ensures var (t, out) := Drained(s.(next := s.next + 1));
            Inv(t, log + ([c] + out), accepted[c.sequence := c.payload])
  {
    hide Inv, Pending, Drained;
    DirectPending(s, log, accepted, c);
    var u := s.(next := s.next + 1);
    DrainKeeps(u, log + [c], accepted[c.sequence := c.payload]);
    assert log + [c] + Drained(u).1 == log + ([c] + Drained(u).1);
  }

  lemma StartKeeps(s: State, log: seq<Command>, accepted: map<nat, Bytes>, n: nat)
    requires Inv(s, log, accepted)
    ensures var t := Started(s, n);
            Inv(t, log, accepted) && t.initialized && t.held == s.held && (s.initialized ==> t == s)
            && (!s.initialized ==> t.next == n)
  {}

  lemma HoldKeeps(s: State, log: seq<Command>, accepted: map<nat, Bytes>, c: Command, since: int)
    requires Inv(s, log, accepted) && s.initialized && c.sequence > s.next && c.sequence !in s.held
    ensures Inv(s.(gapSince := since, held := s.held[c.sequence := c.payload]), log,
                accepted[c.sequence := c.payload])
  {}

  lemma GapKeeps(s: State, log: seq<Command>, accepted: map<nat, Bytes>, since: int)
    requires Inv(s, log, accepted)
    ensures Inv(s.(gapSince := since), log, accepted)
  {}

  lemma HeldAbove(s: State, log: seq<Command>, accepted: map<nat, Bytes>)
    requires Inv(s, log, accepted)
    ensures s.next !in s.held && (!s.initialized ==> s.held == map[])
  {}

  /** Every event keeps the invariant. */
  lemma StepKeeps(s: State, log: seq<Command>, accepted: map<nat, Bytes>, e: Event)
    requires Inv(s, log, accepted)
    ensures var (t, out) := Step(s, e); Inv(t, log + out, Accepted(s, e, accepted))
  {
    hide Drained, Expired, Inv, Started;
    assert log + [] == log;
    match e
    case Flush(rtt, now) =>
      ExpireKeeps(s, log, accepted, rtt, now);
    case Receive(c, rtt, now) =>
      if c.sequence != 0 {
        var t := Started(s, c.sequence);
        StartKeeps(s, log, accepted, c.sequence);
        HeldAbove(s, log, accepted);
        HeldAbove(t, log, accepted);
        if c.sequence == t.next {
          DirectKeeps(t, log, accepted, c);
        } else if c.sequence > t.next {
          AheadKeeps(t, log, accepted, c, rtt, now);
        }
      }
  }

  /** A command ahead of the expected sequence is held, unless one like it already is, and the wait is checked. */
  lemma AheadKeeps(t: State, log: seq<Command>, accepted: map<nat, Bytes>, c: Command, rtt: nat, now: int)
    requires Inv(t, log, accepted) && t.initialized && c.sequence > t.next
    ensures var u := if t.held == map[] then t.(gapSince := now) else t;
            var v := if c.sequence in u.held then u else u.(held := u.held[c.sequence := c.payload]);
            Inv(Expired(v, rtt, now).0, log + Expired(v, rtt, now).1,
                if c.sequence in t.held then accepted else accepted[c.sequence := c.payload])
  {
    hide Expired, Inv;
    var u := if t.held == map[] then t.(gapSince := now) else t;
    GapKeeps(t, log, accepted, now);
    if c.sequence in u.held {
      ExpireKeeps(u, log, accepted, rtt, now);
    } else {
      HoldKeeps(t, log, accepted, c, u.gapSince);
      ExpireKeeps(u.(held := u.held[c.sequence := c.payload]), log, accepted[c.sequence := c.payload], rtt, now);
    }
  }

  ghost function Run(s: State, es: seq<Event>): (State, seq<Command>)
  {
    if es == [] then (s, [])
    else
      var (t, log) := Run(s, es[..|es| - 1]);
      var (u, out) := Step(t, es[|es| - 1]);
      (u, log + out)
  }

  ghost function AcceptedBy(s: State, es: seq<Event>): map<nat, Bytes> {
    if es == [] then map[]
    else Accepted(Run(s, es[..|es| - 1]).0, es[|es| - 1], AcceptedBy(s, es[..|es| - 1]))
  }

  function Initial(): State {
    State(false, 0, map[], 0)
  }

  /** Over any run since the handshake: deliveries strictly ascend, and accepted commands are delivered once or held. */
  lemma {:induction false} RunKeeps(es: seq<Event>)
    ensures var (s, log) := Run(Initial(), es); Inv(s, log, AcceptedBy(Initial(), es))
  {
    hide Inv, Step, Accepted;
    if es == [] {
      InitialInv();
    } else {
      RunKeeps(es[..|es| - 1]);
      var (s, log) := Run(Initial(), es[..|es| - 1]);
      StepKeeps(s, log, AcceptedBy(Initial(), es[..|es| - 1]), es[|es| - 1]);
    }
  }

  lemma InitialInv()
    ensures Inv(Initial(), [], map[])
  {}

  /** What has been accepted is never accepted again, so its payload cannot change. */
  lemma AcceptedOnce(s: State, log: seq<Command>, accepted: map<nat, Bytes>, c: Command)
    requires Inv(s, log, accepted) && Accepts(s, c)
    ensures c.sequence !in accepted
  {
    forall i | 0 <= i < |log|
      ensures log[i].sequence != c.sequence
    {}
  }

  // ----- Flushing -----

  lemma FlushShrinks(s: State, rtt: nat, now: int)
    requires Valid(s) && s.held != map[] && WaitOver(s, rtt, now)
    ensures var (t, out) := Expired(s, rtt, now);
      Valid(t) && out != [] && |t.held| < |s.held| && (t.held != map[] ==> t.gapSince == now)
  {
    NoKeys(s.held);
    var m := Least(s.held.Keys);
    var u := s.(next := m);
    DrainedShape(u);
    var (t, out) := Drained(u);
    assert m in u.held;
    assert t.held.Keys <= s.held.Keys - {m};
    SubsetSize(t.held.Keys, s.held.Keys - {m});
    assert |s.held.Keys - {m}| == |s.held.Keys| - 1;
  }

  /** Flushes at times[0], times[1], ... one after the other. */
  ghost function Flushes(s: State, rtt: nat, times: seq<int>): State
    decreases times
  {
    if times == [] then s else Flushes(Expired(s, rtt, times[0]).0, rtt, times[1..])
  }

  predicate Spaced(from: int, rtt: nat, times: seq<int>)
    decreases times
  {
    times == [] || (times[0] - from >= WaitMicros(rtt) && Spaced(times[0], rtt, times[1..]))
  }

  /** As many expired flushes as commands are held empty the held set. */
  lemma {:induction false} FlushesEmpty(s: State, rtt: nat, times: seq<int>)
    requires Valid(s) && Spaced(s.gapSince, rtt, times) && |times| >= |s.held|
    ensures Flushes(s, rtt, times).held == map[]
    decreases times
  {
    hide Expired, Drained;
    if s.held == map[] {
      NothingToFlush(s, rtt, times);
    } else {
      NoKeys(s.held);
      FlushShrinks(s, rtt, times[0]);
      var t := Expired(s, rtt, times[0]).0;
      if t.held == map[] {
        NothingToFlush(t, rtt, times[1..]);
      } else {
        FlushesEmpty(t, rtt, times[1..]);
      }
    }
  }

  lemma {:induction false} NothingToFlush(s: State, rtt: nat, times: seq<int>)
    requires s.held == map[]
    ensures Flushes(s, rtt, times) == s
    decreases times
  {
    if times != [] {
      NothingToFlush(s, rtt, times[1..]);
    }
  }

  // ----- The channel object -----

  function Payloads(cs: seq<Command>): seq<Bytes> {
    seq(|cs|, i requires 0 <= i < |cs| => cs[i].payload)
  }

  lemma PayloadsJoin(a: seq<Command>, b: seq<Command>)
    ensures Payloads(a + b) == Payloads(a) + Payloads(b)
  {}

  lemma FewPayloads(c: Command)
    ensures Payloads([]) == [] && Payloads([c]) == [c.payload]
  {}

  method Smallest(held: map<nat, Bytes>) returns (m: nat)
    requires held != map[]
    ensures m == Least(held.Keys)
  {
    NoKeys(held);
    var rest := held.Keys;
    m :| m in rest;
    rest := rest - {m};
    while rest != {}
      invariant m in held && rest <= held.Keys && forall j :: j in held.Keys && j !in rest ==> m <= j
      decreases |rest|
    {
      var k :| k in rest;
      rest := rest - {k};
      if k < m {
        m := k;
      }
    }
    assert m <= Least(held.Keys) <= m;
  }

  class Channel {
    var initialized: bool
    var next: nat
    var held: map<nat, Bytes>
    var gapSince: int

    ghost function Abstract(): State
      reads this
    {
      State(initialized, next, held, gapSince)
    }

    constructor ()
      ensures Abstract() == Initial()
    {
      initialized, next, held, gapSince := false, 0, map[], 0;
    }

    method Reset()
      modifies this
      ensures Abstract() == Initial()
    {
      initialized, next, held, gapSince := false, 0, map[], 0;
    }

    method DrainLocked() returns (out: seq<Bytes>)
      modifies this
      ensures Abstract() == Drained(old(Abstract())).0 && out == Payloads(Drained(old(Abstract())).1)
    {
      hide Drained, Payloads;
      out := [];
      ghost var done: seq<Command> := [];
      ghost var (end, all) := Drained(Abstract());
      assert done + all == all;
      FewPayloads(Command(0, []));
      while next in held
        invariant Drained(Abstract()).0 == end && done + Drained(Abstract()).1 == all
        invariant out == Payloads(done)
        decreases |held|
      {
        ghost var c := Command(next, held[next]);
        DrainStep(Abstract());
        PayloadsJoin(done, [c]);
        FewPayloads(c);
        assert done + ([c] + Drained(Abstract()).1[1..]) == done + [c] + Drained(Abstract()).1[1..];
        done := done + [c];
        out := out + [held[next]];
        held := held - {next};
        next := next + 1;
      }
      DrainStep(Abstract());
      assert done + [] == done;
    }

    method ExpireLocked(rtt: nat, now: int) returns (out: seq<Bytes>)
      modifies this
      ensures Abstract() == Expired(old(Abstract()), rtt, now).0
              && out == Payloads(Expired(old(Abstract()), rtt, now).1)
    {
      hide Drained;
      if held == map[] || now - gapSince < WaitMicros(rtt) {
        return [];
      }
      next := Smallest(held);
      out := DrainLocked();
      if held != map[] {
        gapSince := now;
      }
    }

    /** A command packet arrives; out is what can now be delivered. */
    method Handle(c: Command, rtt: nat, now: int) returns (out: seq<Bytes>)
      modifies this
      ensures Abstract() == Handled(old(Abstract()), c, rtt, now).0
      ensures out == Payloads(Handled(old(Abstract()), c, rtt, now).1)
    {
      hide Drained, Expired;
      if c.sequence == 0 {
        return [];
      }
      if !initialized {
        next := c.sequence;
        initialized := true;
      }
      if c.sequence < next {
        return [];
      }
      if c.sequence == next {
        next := next + 1;
        out := DrainLocked();
        PayloadsJoin([c], Drained(Started(old(Abstract()), c.sequence).(next := c.sequence + 1)).1);
        out := [c.payload] + out;
      } else {
        if held == map[] {
          gapSince := now;
        }
        if c.sequence !in held {
          held := held[c.sequence := c.payload];
        }
        out := ExpireLocked(rtt, now);
      }
    }

    method FlushExpired(rtt: nat, now: int) returns (out: seq<Bytes>)
      modifies this
      ensures Abstract() == Expired(old(Abstract()), rtt, now).0
              && out == Payloads(Expired(old(Abstract()), rtt, now).1)
    {
      hide Expired;
      out := ExpireLocked(rtt, now);
    }
  }
}
