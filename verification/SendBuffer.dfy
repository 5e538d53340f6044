/** The sender's retransmission buffer: sequence assignment, and what a report prunes and resends. */
module SendBuffer {
  import opened Collections
  import opened ReportCursor

  datatype PendingSend<T> = PendingSend(packet: T, retries: nat)

  // ----- Specification, on retry counts alone -----

  /** Acknowledged and not listed as lost, or out of retries. */
  predicate Prunable(s: nat, retries: nat, r: Report) {
    (s <= r.ack && s !in r.lost) || retries >= MAX_RETRIES
  }

  predicate Resendable(s: nat, retries: nat, r: Report) {
    s in r.lost && retries < MAX_RETRIES
  }

  function Handled(retries: map<nat, nat>, r: Report): map<nat, nat> {
    map s | s in retries && !Prunable(s, retries[s], r)
      :: if Resendable(s, retries[s], r) then retries[s] + 1 else retries[s]
  }

  function Resent(retries: map<nat, nat>, r: Report): set<nat> {
    set s | s in retries && Resendable(s, retries[s], r)
  }

  function Retries<T>(pending: map<nat, PendingSend<T>>): map<nat, nat> {
    map s | s in pending :: pending[s].retries
  }

  /** The packets of the given sequences, in ascending order. */
  ghost function InOrder<T>(pending: map<nat, PendingSend<T>>, todo: set<nat>): seq<(nat, T)>
    requires todo <= pending.Keys
    decreases |todo|
  {
    if todo == {} then []
    else [(Least(todo), pending[Least(todo)].packet)] + InOrder(pending, todo - {Least(todo)})
  }

  /** InOrder lists each sequence once, ascending. */
  lemma {:induction false} InOrderAscends<T>(pending: map<nat, PendingSend<T>>, todo: set<nat>)
    requires todo <= pending.Keys
    ensures var out := InOrder(pending, todo);
            && |out| == |todo|
            && (forall i | 0 <= i < |out| :: out[i].0 in todo && out[i].1 == pending[out[i].0].packet)
            && (forall i, j | 0 <= i < j < |out| :: out[i].0 < out[j].0)
    decreases |todo|
  {
    if todo != {} {
      InOrderAscends(pending, todo - {Least(todo)});
    }
  }

  function Retried<T>(p: PendingSend<T>): PendingSend<T> {
    if p.retries < MAX_RETRIES then PendingSend(p.packet, p.retries + 1) else p
  }

  lemma {:induction false} SameOrder<T>(a: map<nat, PendingSend<T>>, b: map<nat, PendingSend<T>>, todo: set<nat>)
    requires todo <= a.Keys && todo <= b.Keys && forall s | s in todo :: a[s] == b[s]
    ensures InOrder(a, todo) == InOrder(b, todo)
    decreases |todo|
  {
    if todo != {} {
      SameOrder(a, b, todo - {Least(todo)});
    }
  }

  /** Those of the packets that are not left to send have been sent in order. */
  ghost predicate Sent<T>(pending: map<nat, PendingSend<T>>, sent: seq<(nat, T)>, todo: set<nat>) {
    todo <= pending.Keys && InOrder(pending, pending.Keys) == sent + InOrder(pending, todo)
  }

  lemma SentNone<T>(pending: map<nat, PendingSend<T>>)
    ensures Sent(pending, [], pending.Keys)
  {}

  lemma SentStep<T>(pending: map<nat, PendingSend<T>>, sent: seq<(nat, T)>, todo: set<nat>)
    requires Sent(pending, sent, todo) && todo != {}
    ensures var s := Least(todo);
            s in pending && Sent(pending, sent + [(s, pending[s].packet)], todo - {s})
  {}

  lemma SentAll<T>(pending: map<nat, PendingSend<T>>, sent: seq<(nat, T)>)
    requires Sent(pending, sent, {})
    ensures sent == InOrder(pending, pending.Keys)
  {}

  /** One more retry for the given sequences. */
  function Counted<T>(pending: map<nat, PendingSend<T>>, done: set<nat>): map<nat, PendingSend<T>> {
    map s | s in pending :: if s in done then Retried(pending[s]) else pending[s]
  }

  lemma CountedNone<T>(pending: map<nat, PendingSend<T>>, keys: set<nat>)
    ensures Counted(pending, keys - keys) == pending
  {}

  lemma CountedStep<T>(pending: map<nat, PendingSend<T>>, keys: set<nat>, todo: set<nat>, s: nat)
    requires s in todo && todo <= keys
    ensures var before := Counted(pending, keys - todo);
            Counted(pending, keys - (todo - {s})) ==
              if s in before && before[s].retries < MAX_RETRIES
              then before[s := PendingSend(before[s].packet, before[s].retries + 1)] else before
  {}

  lemma CountedAll<T>(pending: map<nat, PendingSend<T>>, keys: set<nat>)
    ensures Counted(pending, keys - {}) == Counted(pending, keys)
  {}

  lemma SnapshotResent<T>(before: map<nat, PendingSend<T>>, snapshot: map<nat, PendingSend<T>>, r: Report)
    requires snapshot == map s | s in before && Resendable(s, before[s].retries, r) :: before[s]
    ensures snapshot.Keys == Resent(Retries(before), r)
  {
    hide Resendable;
  }

  lemma CountedHandled<T>(before: map<nat, PendingSend<T>>, kept: map<nat, PendingSend<T>>,
                          snapshot: map<nat, PendingSend<T>>, r: Report)
    requires snapshot == map s | s in before && Resendable(s, before[s].retries, r) :: before[s]
    requires kept == map s | s in before && !Prunable(s, before[s].retries, r) :: before[s]
    ensures Retries(Counted(kept, snapshot.Keys)) == Handled(Retries(before), r)
    ensures forall s | s in Counted(kept, snapshot.Keys) ::
              s in before && Counted(kept, snapshot.Keys)[s].packet == before[s].packet
  {}

  // ----- The buffer -----

  class Buffer<T> {
    var pending: map<nat, PendingSend<T>>
    var sequenceOut: nat

    constructor ()
      ensures pending == map[] && sequenceOut == 1
    {
      pending, sequenceOut := map[], 1;
    }

    /** Numbers a data packet and, when both ends retransmit, keeps it until acknowledged. */
    method Send(packet: T, keep: bool) returns (s: nat)
      modifies this
      ensures s == old(sequenceOut) && sequenceOut == s + 1
      ensures pending == if keep then old(pending)[s := PendingSend(packet, 0)] else old(pending)
    {
      s := sequenceOut;
      sequenceOut := sequenceOut + 1;
      if keep {
        pending := pending[s := PendingSend(packet, 0)];
      }
    }

    /** Resends what the report lists, prunes what it acknowledges. */
    method HandleReport(r: Report) returns (resent: seq<(nat, T)>)
      modifies this`pending
      ensures Retries(pending) == Handled(Retries(old(pending)), r)
      ensures forall s | s in pending :: s in old(pending) && pending[s].packet == old(pending)[s].packet
      ensures resent == InOrder(old(pending), Resent(Retries(old(pending)), r))
    {
      hide InOrder, Counted, Handled, Resent, Retries;
      ghost var before := pending;
      var snapshot := Snapshot(r);
      Prune(r);
      ghost var kept := pending;
      resent := Resend(snapshot);
      SnapshotResent(before, snapshot, r);
      SameOrder(snapshot, before, snapshot.Keys);
      CountedHandled(before, kept, snapshot, r);
    }

    /** Sends each snapshot packet once more and counts the retry of those still buffered. */
    method Resend(snapshot: map<nat, PendingSend<T>>) returns (resent: seq<(nat, T)>)
      modifies this`pending
      ensures resent == InOrder(snapshot, snapshot.Keys)
      ensures pending == Counted(old(pending), snapshot.Keys)
    {
      hide InOrder, Counted, Sent;
      resent := [];
      var todo := snapshot.Keys;
      SentNone(snapshot);
      CountedNone(pending, todo);
      while todo != {}
        invariant todo <= snapshot.Keys
        invariant Sent(snapshot, resent, todo)
        invariant pending == Counted(old(pending), snapshot.Keys - todo)
        decreases |todo|
      {
        LeastExists(todo);
        var s :| s in todo && forall k | k in todo :: s <= k;
        assert s == Least(todo);
        SentStep(snapshot, resent, todo);
        CountedStep(old(pending), snapshot.Keys, todo, s);
        resent := resent + [(s, snapshot[s].packet)];
        if s in pending && pending[s].retries < MAX_RETRIES {
          pending := pending[s := PendingSend(pending[s].packet, pending[s].retries + 1)];
        }
        todo := todo - {s};
      }
      SentAll(snapshot, resent);
      CountedAll(old(pending), snapshot.Keys);
    }

    /** The listed packets that may be resent once more. */
    method Snapshot(r: Report) returns (snapshot: map<nat, PendingSend<T>>)
      ensures snapshot == map s | s in pending && Resendable(s, pending[s].retries, r) :: pending[s]
    {
      snapshot := map[];
      var todo := pending.Keys;
      while todo != {}
        invariant todo <= pending.Keys
        invariant snapshot == map s | s in pending && s !in todo && Resendable(s, pending[s].retries, r) :: pending[s]
        decreases |todo|
      {
        var s :| s in todo;
        if s in r.lost && pending[s].retries < MAX_RETRIES {
          snapshot := snapshot[s := pending[s]];
        }
        todo := todo - {s};
      }
    }

    method Prune(r: Report)
      modifies this`pending
      ensures pending == map s | s in old(pending) && !Prunable(s, old(pending)[s].retries, r) :: old(pending)[s]
    {
      var todo := pending.Keys;
      while todo != {}
        invariant todo <= pending.Keys
        invariant pending == map s | s in old(pending)
                                     && (s in todo || !Prunable(s, old(pending)[s].retries, r)) :: old(pending)[s]
        decreases |todo|
      {
        var s :| s in todo;
        assert Prunable(s, old(pending)[s].retries, r) <==>
               ((s <= r.ack && s !in r.lost) || pending[s].retries >= MAX_RETRIES);
        hide Prunable;
        if (s <= r.ack && s !in r.lost) || pending[s].retries >= MAX_RETRIES {
          pending := pending - {s};
        }
        todo := todo - {s};
      }
    }
  }
}
