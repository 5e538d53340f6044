/** The receiver's data path: collects fragments, recovers lost ones and delivers each message once. */
module Reassembler {
  import opened Options
  import opened Gf256
  import opened GfTables
  import opened GfMatrix
  import opened ReedSolomon
  import opened Vandermonde
  import opened Fragments

  // ----- Assembling a message from complete data fragments -----

  /** The part of a fragment that carries data. */
  function Carried(fragment: Bytes, size: nat): Bytes {
    fragment[..Min(size, |fragment|)]
  }

  function Stream(fragments: seq<Bytes>, sizes: seq<nat>, n: nat): Bytes
    requires n <= |fragments| && n <= |sizes|
  {
    if n == 0 then [] else Stream(fragments, sizes, n - 1) + Carried(fragments[n - 1], sizes[n - 1])
  }

  /** The message a stream declares, empty when it is truncated or declares too much. */
  function Assembled(stream: Bytes, maxMessageBytes: nat): Bytes {
    if |stream| < 4 then []
    else
      var total := FromBe32(stream[..4]);
      if total > maxMessageBytes then [] else stream[4..4 + Min(total, |stream| - 4)]
  }

  method StreamLength(fragments: seq<Bytes>, sizes: seq<nat>, dataCount: nat) returns (len: nat)
    requires dataCount <= |fragments| && dataCount <= |sizes|
    ensures len == |Stream(fragments, sizes, dataCount)|
  {
    len := 0;
    for i := 0 to dataCount
      invariant len == |Stream(fragments, sizes, i)|
    {
      len := len + Min(sizes[i], |fragments[i]|);
    }
  }

  function Head(stream: Bytes): Bytes {
    stream[..Min(4, |stream|)]
  }

  lemma HeadStep(s: Bytes, c: Bytes)
    ensures Head(s + c) == Head(s) + c[..Min(|c|, 4 - |Head(s)|)]
  {
    if |s| < 4 {
      ConcatSlice(s, c, 0, Min(4, |s| + |c|));
    }
  }

  /** The first four bytes of the stream, which may straddle fragments. */
  method ReadPrefix(fragments: seq<Bytes>, sizes: seq<nat>, dataCount: nat) returns (prefix: Bytes)
    requires dataCount <= |fragments| && dataCount <= |sizes|
    requires |Stream(fragments, sizes, dataCount)| >= 4
    ensures prefix == Stream(fragments, sizes, dataCount)[..4]
  {
    prefix := [];
    var need, i := 4, 0;
    while i < dataCount && need > 0
      invariant i <= dataCount && need + |prefix| == 4
      invariant prefix == Head(Stream(fragments, sizes, i))
    {
      var take := Min(Min(sizes[i], |fragments[i]|), need);
      HeadStep(Stream(fragments, sizes, i), Carried(fragments[i], sizes[i]));
      assert fragments[i][..take] == Carried(fragments[i], sizes[i])[..take];
      prefix := prefix + fragments[i][..take];
      need := need - take;
      i := i + 1;
    }
    StreamPrefix(fragments, sizes, i, dataCount);
  }

  lemma {:induction false} StreamPrefix(fragments: seq<Bytes>, sizes: seq<nat>, i: nat, n: nat)
    requires i <= n <= |fragments| && n <= |sizes|
    ensures Stream(fragments, sizes, i) <= Stream(fragments, sizes, n)
  {
    if i < n {
      StreamPrefix(fragments, sizes, i, n - 1);
    }
  }

  /** What a stream holds past the prefix, up to total bytes. */
  function Past(stream: Bytes, total: nat): Bytes {
    if |stream| < 4 then [] else stream[4..4 + Min(total, |stream| - 4)]
  }

  function Skip(stream: Bytes): nat {
    if |stream| < 4 then 4 - |stream| else 0
  }

  lemma ConcatSlice(s: Bytes, c: Bytes, lo: nat, hi: nat)
    requires lo <= |s| <= hi <= |s| + |c|
    ensures (s + c)[lo..hi] == s[lo..] + c[..hi - |s|]
  {}

  lemma ConcatTail(s: Bytes, c: Bytes, lo: nat, hi: nat)
    requires |s| <= lo <= hi <= |s| + |c|
    ensures (s + c)[lo..hi] == c[lo - |s|..hi - |s|]
  {
    var w := (s + c)[lo..hi];
    forall k | 0 <= k < hi - lo
      ensures w[k] == c[lo - |s|..hi - |s|][k]
    {
      assert w[k] == (s + c)[lo + k] == c[lo + k - |s|];
    }
  }

  /** What one more chunk adds past the prefix. */
  function Added(s: Bytes, c: Bytes, total: nat): Bytes
    requires |Past(s, total)| < total
  {
    var skip := Skip(s);
    if skip >= |c| then [] else c[skip..skip + Min(|c| - skip, total - |Past(s, total)|)]
  }

  lemma PastStep(s: Bytes, c: Bytes, total: nat)
    requires |Past(s, total)| < total
    ensures Skip(s + c) == if Skip(s) >= |c| then Skip(s) - |c| else 0
    ensures Past(s + c, total) == Past(s, total) + Added(s, c, total)
  {
    if |s| >= 4 {
      PastLate(s, c, total);
    } else if |s| + |c| >= 4 {
      ConcatTail(s, c, 4, 4 + Min(total, |s| + |c| - 4));
    }
  }

  lemma PastLate(s: Bytes, c: Bytes, total: nat)
    requires |s| >= 4 && |Past(s, total)| < total
    ensures Skip(s + c) == 0 == Skip(s) && Past(s + c, total) == Past(s, total) + Added(s, c, total)
  {
    assert Past(s, total) == s[4..];
    ConcatSlice(s, c, 4, 4 + Min(total, |s| + |c| - 4));
  }

  /** Once total bytes are there, more stream adds nothing. */
  lemma PastFull(s: Bytes, t: Bytes, total: nat)
    requires s <= t && |Past(s, total)| >= total
    ensures Past(t, total) == Past(s, total)
  {
    if |s| >= 4 {
      assert t[..|s|] == s;
      assert t[4..4 + total] == t[..|s|][4..4 + total];
    }
  }

  method BuildMessage(fragments: seq<Bytes>, sizes: seq<nat>, dataCount: nat, maxMessageBytes: nat)
    returns (result: Bytes)
    requires dataCount <= |fragments| && dataCount <= |sizes|
    ensures result == Assembled(Stream(fragments, sizes, dataCount), maxMessageBytes)
  {
    var streamLen := StreamLength(fragments, sizes, dataCount);
    if streamLen < 4 {
      return [];
    }
    var prefix := ReadPrefix(fragments, sizes, dataCount);
    var total := FromBe32(prefix);
    if total > maxMessageBytes {
      return [];
    }
    if total > streamLen - 4 {
      total := streamLen - 4;
    }
    result := CopyPast(fragments, sizes, dataCount, total);
  }

  method CopyPast(fragments: seq<Bytes>, sizes: seq<nat>, dataCount: nat, total: nat) returns (result: Bytes)
    requires dataCount <= |fragments| && dataCount <= |sizes|
    ensures result == Past(Stream(fragments, sizes, dataCount), total)
  {
    hide Past, Added;
    result := [];
    var skip, i := 4, 0;
    NothingPast(total);
    while i < dataCount && |result| < total
      invariant i <= dataCount
      invariant skip == Skip(Stream(fragments, sizes, i)) && result == Past(Stream(fragments, sizes, i), total)
    {
      var chunk := CopyChunk(fragments[i], sizes[i], skip, total - |result|, Stream(fragments, sizes, i), total);
      PastStep(Stream(fragments, sizes, i), Carried(fragments[i], sizes[i]), total);
      var n := Min(sizes[i], |fragments[i]|);
      skip := if skip >= n then skip - n else 0;
      result := result + chunk;
      i := i + 1;
    }
    StreamPrefix(fragments, sizes, i, dataCount);
    if i < dataCount {
      PastFull(Stream(fragments, sizes, i), Stream(fragments, sizes, dataCount), total);
    }
  }

  lemma NothingPast(total: nat)
    ensures Past([], total) == [] && Skip([]) == 4
  {}

  /** The part of one fragment that belongs to the message: past the prefix, and not past the total. */
  method CopyChunk(src: Bytes, size: nat, skip: nat, room: nat, ghost s: Bytes, ghost total: nat) returns (chunk: Bytes)
    requires skip == Skip(s) && |Past(s, total)| < total && room == total - |Past(s, total)|
    ensures chunk == Added(s, Carried(src, size), total)
  {
    hide Past, Skip;
    var n := Min(size, |src|);
    if skip >= n {
      return [];
    }
    n := n - skip;
    if n > room {
      n := room;
    }
    chunk := src[skip..skip + n];
    assert chunk == Carried(src, size)[skip..skip + n];
  }

  // ----- The stream of a genuine message -----

  /** Everything but the last slice carries the slice size. */
  lemma {:induction false} StreamOfSlices(m: Message, fragments: seq<Bytes>, sizes: seq<nat>, n: nat)
    requires m.slice > 0 && n < DataCount(m) && |fragments| == |sizes| == DataCount(m)
    requires forall i | 0 <= i < DataCount(m) :: fragments[i] == Wire(m, i)
    requires forall i | 0 <= i < DataCount(m) :: sizes[i] == RealSize(m, i) || sizes[i] == m.slice
    ensures n * m.slice <= |Full(m)| && Stream(fragments, sizes, n) == Full(m)[..n * m.slice]
  {
    hide DataCount, Wire, RealSize, Slice, Carried, Full;
    SliceBounds(m, n);
    if n > 0 {
      StreamOfSlices(m, fragments, sizes, n - 1);
      SliceBounds(m, n - 1);
      FullSlice(m, n - 1, sizes[n - 1]);
      SliceIs(m, n - 1);
      Joined(Full(m), (n - 1) * m.slice, n * m.slice);
    }
  }

  lemma SliceIs(m: Message, i: nat)
    requires m.slice > 0 && i + 1 < DataCount(m)
    ensures i * m.slice <= (i + 1) * m.slice <= |Full(m)|
    ensures Slice(m, i) == Full(m)[i * m.slice..(i + 1) * m.slice]
  {
    hide DataCount, Full;
    SliceBounds(m, i);
  }

  lemma Joined(s: Bytes, i: nat, j: nat)
    requires i <= j <= |s|
    ensures s[..i] + s[i..j] == s[..j]
  {}

  /** Whatever is before the last slice fills its fragment. */
  lemma FullSlice(m: Message, i: nat, size: nat)
    requires m.slice > 0 && i + 1 < DataCount(m) && (size == RealSize(m, i) || size == m.slice)
    ensures Carried(Wire(m, i), size) == Slice(m, i)
  {
    hide DataCount, Slice, ParityRow;
  }

  /** Assembling all data fragments, lost ones recovered at full width, gives back the payload. */
  lemma AssembledIsPayload(m: Message, fragments: seq<Bytes>, sizes: seq<nat>, maxMessageBytes: nat)
    requires Legal(m, maxMessageBytes) && |fragments| == |sizes| == DataCount(m)
    requires forall i | 0 <= i < DataCount(m) :: fragments[i] == Wire(m, i)
    requires forall i | 0 <= i < DataCount(m) :: sizes[i] == RealSize(m, i) || sizes[i] == m.slice
    ensures Assembled(Stream(fragments, sizes, DataCount(m)), maxMessageBytes) == m.payload
  {
    hide Assembled, Wire, RealSize, Slice, DataCount, Carried, Full;
    var d := DataCount(m);
    StreamOfSlices(m, fragments, sizes, d - 1);
    LastSlice(m, sizes[d - 1]);
    PrefixAssembled(m, Stream(fragments, sizes, d), maxMessageBytes);
  }

  lemma LastSlice(m: Message, size: nat)
    requires m.slice > 0
    requires var i := DataCount(m) - 1; size == RealSize(m, i) || size == m.slice
    ensures var i := DataCount(m) - 1;
            i * m.slice <= |Full(m)| && Full(m) <= Full(m)[..i * m.slice] + Carried(Wire(m, i), size)
  {
    hide ParityRow, Full;
    var i := DataCount(m) - 1;
    DataCountBounds(m);
    SliceBounds(m, i);
    assert Wire(m, i)[..|Slice(m, i)|] == Slice(m, i);
    assert Full(m) == Full(m)[..i * m.slice] + Slice(m, i);
  }

  lemma PrefixAssembled(m: Message, stream: Bytes, maxMessageBytes: nat)
    requires |m.payload| <= maxMessageBytes < 0x1_0000_0000 && Full(m) <= stream
    ensures Assembled(stream, maxMessageBytes) == m.payload
  {
    var n := |m.payload|;
    hide FromBe32, ToBe32;
    Be32RoundTrip(n);
    assert stream[..4] == Full(m)[..4] == ToBe32(n);
    assert stream[4..4 + n] == Full(m)[4..4 + n] == m.payload;
  }

  // ----- Entries under collection -----

  datatype Incoming = Incoming(
    messageId: nat, totalCount: nat, dataCount: nat, fragments: seq<Option<Bytes>>, sizes: seq<nat>)

  /** Data fragments an entry expects; 0 announces a single parity. */
  function Expected(e: Incoming): nat
    requires e.totalCount >= 1
  {
    if e.dataCount > 0 then e.dataCount else e.totalCount - 1
  }

  predicate Shaped(e: Incoming) {
    1 <= e.totalCount == |e.fragments| == |e.sizes|
  }

  /** Assembly looks at fragments 0 .. Expected(e) - 1, unless there is only one fragment: they have to exist. */
  predicate WellFormed(e: Incoming) {
    Shaped(e) && (e.totalCount >= 2 ==> Expected(e) <= |e.fragments|)
  }

  /** No fragment is longer than n. */
  ghost predicate Within(e: Incoming, n: nat) {
    forall i | 0 <= i < |e.fragments| && e.fragments[i].Some? :: |e.fragments[i].value| <= n
  }

  /** What an assembly yields is too short for more than the fragments the entry expects. */
  ghost predicate Covered(e: Incoming, n: nat, message: Bytes)
    requires e.totalCount >= 1
  {
    |message| + 4 <= Expected(e) * n || message == []
  }

  /** The parities at hand among the first n, with their row numbers. */
  function ParitiesAt(fragments: seq<Option<Bytes>>, d: nat, n: nat): seq<(nat, Bytes)>
    requires d + n <= |fragments|
  {
    if n == 0 then []
    else ParitiesAt(fragments, d, n - 1)
         + (if fragments[d + n - 1].Some? then [(n - 1, fragments[d + n - 1].value)] else [])
  }

  function Parities(e: Incoming): seq<(nat, Bytes)>
    requires WellFormed(e) && e.totalCount >= 2
  {
    ParitiesAt(e.fragments, Expected(e), e.totalCount - Expected(e))
  }

  function Widest(fragments: seq<Option<Bytes>>): nat {
    if fragments == [] then 0
    else
      var n := |fragments| - 1;
      var w := Widest(fragments[..n]);
      if fragments[n].Some? && |fragments[n].value| > w then |fragments[n].value| else w
  }

  /** Exactly when an entry can be assembled. */
  ghost predicate Assemblable(e: Incoming)
    requires WellFormed(e)
  {
    e.totalCount >= 2
    && var data := e.fragments[..Expected(e)];
       Recoverable(data, Parities(e)) && (Missing(data) == [] || Widest(e.fragments) > 0)
  }

  /** Every fragment collected so far is one of the message's. */
  ghost predicate Genuine(e: Incoming, m: Message) {
    && WellFormed(e) && m.slice > 0 && m.parity >= 1
    && e.totalCount == Total(m) && Expected(e) == DataCount(m)
    && (forall i | 0 <= i < Total(m) && e.fragments[i].Some? ::
          e.fragments[i].value == Wire(m, i) && e.sizes[i] == RealSize(m, i))
  }

  /** Counts the first d fragments at hand; the loop stays inside just when there are that many. */
  method CountPresent(fragments: seq<Option<Bytes>>, d: nat) returns (inside: bool, have: nat)
    ensures inside <==> d <= |fragments|
    ensures inside ==> have + |Missing(fragments[..d])| == d
  {
    have := 0;
    var i := 0;
    while i < d
      invariant i <= d && i <= |fragments| && have + |Missing(fragments[..i])| == i
    {
      if i >= |fragments| {
        return false, have;
      }
      assert fragments[..i + 1][..i] == fragments[..i];
      if fragments[i].Some? {
        have := have + 1;
      }
      i := i + 1;
    }
    inside := true;
  }

  method MeasureWidth(fragments: seq<Option<Bytes>>) returns (width: nat)
    ensures width == Widest(fragments)
  {
    width := 0;
    for i := 0 to |fragments|
      invariant width == Widest(fragments[..i])
    {
      assert fragments[..i + 1][..i] == fragments[..i];
      if fragments[i].Some? && |fragments[i].value| > width {
        width := |fragments[i].value|;
      }
    }
    assert fragments[..|fragments|] == fragments;
  }

  method CollectParities(fragments: seq<Option<Bytes>>, d: nat, n: nat) returns (parities: seq<(nat, Bytes)>)
    requires d + n <= |fragments|
    ensures parities == ParitiesAt(fragments, d, n)
  {
    parities := [];
    for p := 0 to n
      invariant parities == ParitiesAt(fragments, d, p)
    {
      if fragments[d + p].Some? {
        parities := parities + [(p, fragments[d + p].value)];
      }
    }
  }

  // ----- Genuine entries meet the decoder's conditions -----

  lemma {:induction false} WidestGenuine(fragments: seq<Option<Bytes>>, s: nat)
    requires forall i | 0 <= i < |fragments| && fragments[i].Some? :: |fragments[i].value| == s
    ensures Widest(fragments) <= s
    ensures Widest(fragments) == if exists i :: 0 <= i < |fragments| && fragments[i].Some? then s else 0
  {
    if fragments != [] {
      WidestGenuine(fragments[..|fragments| - 1], s);
      if i :| 0 <= i < |fragments| && fragments[i].Some? && i < |fragments| - 1 {
        assert fragments[..|fragments| - 1][i].Some?;
      }
    }
  }

  lemma {:induction false} ParitiesFound(fragments: seq<Option<Bytes>>, d: nat, n: nat)
    requires d + n <= |fragments|
    ensures forall r | 0 <= r < |ParitiesAt(fragments, d, n)| ::
              var p := ParitiesAt(fragments, d, n)[r];
              p.0 < n && fragments[d + p.0].Some? && fragments[d + p.0].value == p.1
    ensures forall r, q | 0 <= r < q < |ParitiesAt(fragments, d, n)| ::
              ParitiesAt(fragments, d, n)[r].0 < ParitiesAt(fragments, d, n)[q].0
  {
    if n > 0 {
      ParitiesFound(fragments, d, n - 1);
      var before, f := ParitiesAt(fragments, d, n - 1), fragments[d + n - 1];
      assert ParitiesAt(fragments, d, n) == if f.Some? then before + [(n - 1, f.value)] else before;
    }
  }

  lemma {:induction false} ParitiesCounted(fragments: seq<Option<Bytes>>, d: nat, n: nat)
    requires d + n <= |fragments|
    ensures |ParitiesAt(fragments, d, n)| + |Missing(fragments[d..d + n])| == n
  {
    if n > 0 {
      ParitiesCounted(fragments, d, n - 1);
      assert fragments[d..d + n][..n - 1] == fragments[d..d + n - 1];
    }
  }

  lemma GenuineSlice(e: Incoming, m: Message, i: nat)
    requires Genuine(e, m) && i < DataCount(m) && e.fragments[i].Some?
    ensures SameBytes(e.fragments[i].value, Slices(m)[i], m.slice)
  {
    hide Slice, ParityRow;
    assert e.fragments[i].value == Pad(Slice(m, i), m.slice);
  }

  lemma GenuineParity(e: Incoming, m: Message, r: nat, k: nat)
    requires Genuine(e, m) && r < |Parities(e)| && k < m.slice
    ensures At(Parities(e)[r].1, k) == ParityByte(Slices(m), Parities(e)[r].0, k)
  {
    hide ParityByte, Slice, ParitiesAt;
    ParitiesFound(e.fragments, DataCount(m), m.parity);
    var p := Parities(e)[r];
    ParityOnWire(m, p.0, p.1, k);
  }

  lemma ParityOnWire(m: Message, p: nat, parity: Bytes, k: nat)
    requires m.slice > 0 && p < m.parity && parity == Wire(m, DataCount(m) + p) && k < m.slice
    ensures At(parity, k) == ParityByte(Slices(m), p, k)
  {
    hide ParityByte, Slice;
    assert Wire(m, DataCount(m) + p) == ParityRow(m, p);
  }

  lemma GenuineIsConsistent(e: Incoming, m: Message)
    requires Genuine(e, m)
    ensures Consistent(Slices(m), e.fragments[..DataCount(m)], Parities(e), m.slice)
  {
    hide ParityByte, Wire, Slice, At, Genuine, SameBytes, ParitiesAt;
    assert WellFormed(e) && e.totalCount == Total(m) >= 2 && Expected(e) == DataCount(m) by { GenuineShape(e, m); }
    forall i | 0 <= i < DataCount(m) && e.fragments[i].Some?
      ensures SameBytes(e.fragments[i].value, Slices(m)[i], m.slice)
    {
      GenuineSlice(e, m, i);
    }
    forall r, k | 0 <= r < |Parities(e)| && 0 <= k < m.slice
      ensures At(Parities(e)[r].1, k) == ParityByte(Slices(m), Parities(e)[r].0, k)
    {
      GenuineParity(e, m, r, k);
    }
  }

  lemma GenuineShape(e: Incoming, m: Message)
    requires Genuine(e, m)
    ensures WellFormed(e) && m.slice > 0 && e.totalCount == Total(m) >= 2 && Expected(e) == DataCount(m)
  {}

  // ----- Assembly -----

  /** Restored fragments are the message's own. */
  lemma RestoredIsWire(e: Incoming, m: Message, output: seq<Option<Bytes>>)
    requires Genuine(e, m)
    requires Recovered(e.fragments[..DataCount(m)], output, Parities(e), m.slice)
    ensures |output| == DataCount(m)
    ensures forall i | 0 <= i < DataCount(m) :: output[i] == Some(Wire(m, i))
  {
    hide Consistent, ParityByte, Slice, ParityRow, ParitiesAt;
    GenuineIsConsistent(e, m);
    forall i | 0 <= i < DataCount(m) ensures output[i] == Some(Wire(m, i)) {
      if e.fragments[i].None? {
        assert output[i] == Some(Pad(Slices(m)[i], m.slice));
      }
    }
  }

  lemma GenuineWidth(e: Incoming, m: Message)
    requires Genuine(e, m) && Assemblable(e) && Missing(e.fragments[..DataCount(m)]) != []
    ensures Widest(e.fragments) == m.slice
  {
    hide Wire, Recoverable, ParitiesAt, Missing, Widest, DataCount, RealSize;
    WidestGenuine(e.fragments, m.slice);
  }

  /** Runs the decoder on a copy of the data fragments. */
  method Recover(t: Tables, data: seq<Option<Bytes>>, parities: seq<(nat, Bytes)>, width: nat)
    returns (ok: bool, restored: seq<Option<Bytes>>)
    requires t.Valid()
    ensures ok <==> Recoverable(data, parities)
    ensures ok ==> Recovered(data, restored, parities, width)
  {
    hide Recoverable, Recovered;
    var a := new Option<Bytes>[|data|](i requires 0 <= i < |data| => data[i]);
    assert a[..] == data;
    ok := Decode(t, a, parities, width);
    restored := a[..];
  }

  /** Sizes after recovery: a restored fragment counts as full. */
  method FillSizes(data: seq<Option<Bytes>>, sizes: seq<nat>, width: nat) returns (filled: seq<nat>)
    requires |data| == |sizes|
    ensures |filled| == |sizes|
    ensures forall i | 0 <= i < |data| :: filled[i] == if data[i].None? then Word16(width) else sizes[i]
  {
    filled := sizes;
    for i := 0 to |data|
      invariant |filled| == |sizes|
      invariant forall j | 0 <= j < i :: filled[j] == if data[j].None? then Word16(width) else sizes[j]
      invariant forall j | i <= j < |data| :: filled[j] == sizes[j]
    {
      if data[i].None? {
        filled := filled[i := Word16(width)];
      }
    }
  }

  lemma CompleteIsPayload(e: Incoming, m: Message, maxMessageBytes: nat)
    requires Genuine(e, m) && Legal(m, maxMessageBytes) && Missing(e.fragments[..DataCount(m)]) == []
    ensures var d := DataCount(m);
            Assembled(Stream(Known(e.fragments[..d]), e.sizes[..d], d), maxMessageBytes) == m.payload
  {
    hide Wire;
    var d := DataCount(m);
    NothingMissing(e.fragments[..d]);
    AssembledIsPayload(m, Known(e.fragments[..d]), e.sizes[..d], maxMessageBytes);
  }

  lemma RestoredIsPayload(e: Incoming, m: Message, maxMessageBytes: nat, restored: seq<Option<Bytes>>, sizes: seq<nat>)
    requires Genuine(e, m) && Legal(m, maxMessageBytes)
    requires Recovered(e.fragments[..DataCount(m)], restored, Parities(e), m.slice)
    requires |sizes| == DataCount(m)
    requires forall i | 0 <= i < DataCount(m) ::
               sizes[i] == if e.fragments[i].None? then Word16(m.slice) else e.sizes[i]
    ensures var d := DataCount(m);
            |restored| == d && Assembled(Stream(Known(restored), sizes, d), maxMessageBytes) == m.payload
  {
    hide Wire, RealSize, Recovered, ParitiesAt, Stream, Assembled, DataCount, Word16, Genuine, Legal;
    RestoredIsWire(e, m, restored);
    GenuineShape(e, m);
    RestoredSizes(e, m, maxMessageBytes, sizes);
    AssembledIsPayload(m, Known(restored), sizes, maxMessageBytes);
  }

  lemma RestoredSizes(e: Incoming, m: Message, maxMessageBytes: nat, sizes: seq<nat>)
    requires Genuine(e, m) && Legal(m, maxMessageBytes) && |sizes| == DataCount(m)
    requires forall i | 0 <= i < DataCount(m) ::
               sizes[i] == if e.fragments[i].None? then Word16(m.slice) else e.sizes[i]
    ensures forall i | 0 <= i < DataCount(m) :: sizes[i] == RealSize(m, i) || sizes[i] == m.slice
  {
    hide DataCount, Wire, RealSize;
  }

  lemma CompleteCovered(e: Incoming, n: nat, maxMessageBytes: nat)
    requires WellFormed(e) && e.totalCount >= 2 && Within(e, n) && Missing(e.fragments[..Expected(e)]) == []
    ensures var d := Expected(e);
            Covered(e, n, Assembled(Stream(Known(e.fragments[..d]), e.sizes[..d], d), maxMessageBytes))
  {
    var d := Expected(e);
    NothingMissing(e.fragments[..d]);
    hide Stream, Assembled, Missing;
    forall i | 0 <= i < d ensures |Known(e.fragments[..d])[i]| <= n {
      assert e.fragments[i].Some?;
    }
    StreamCovered(e, n, Known(e.fragments[..d]), e.sizes[..d], maxMessageBytes);
  }

  /** Assembly with data fragments missing: recovers them from the parities at hand. */
  method TryRecover(t: Tables, e: Incoming, data: seq<Option<Bytes>>, maxMessageBytes: nat) returns (out: Option<Bytes>)
    requires t.Valid() && WellFormed(e) && e.totalCount >= 2
    requires data == e.fragments[..Expected(e)] && Missing(data) != []
    ensures out.Some? <==> Recoverable(data, Parities(e)) && Widest(e.fragments) > 0
    ensures forall m: Message | Genuine(e, m) && Legal(m, maxMessageBytes) :: out.Some? ==> out.value == m.payload
    ensures forall n: nat | Within(e, n) :: out.Some? ==> Covered(e, n, out.value)
  {
    hide Recovered, Legal, Genuine, Recoverable, Stream, Assembled, Widest, ParitiesAt, Missing, Known, Word16,
         DataCount, Within, Covered;
    TooFew(data, Parities(e));
    var d := |data|;
    var parityCount := e.totalCount - d;
    var _, have := CountPresent(data, d);
    assert data[..d] == data;
    ParitiesCounted(e.fragments, d, parityCount);
    if d - have > parityCount {
      return None;
    }
    var width := MeasureWidth(e.fragments);
    if width == 0 {
      return None;
    }
    var parities := CollectParities(e.fragments, d, parityCount);
    if d - have > |parities| {
      return None;
    }
    var ok, restored := Recover(t, data, parities, width);
    if !ok {
      return None;
    }
    var sizes := FillSizes(data, e.sizes[..d], width);
    assert |restored| == d by { RecoveredLength(data, restored, parities, width); }
    var message := BuildMessage(Known(restored), sizes, d, maxMessageBytes);
    forall m: Message | Genuine(e, m) && Legal(m, maxMessageBytes) ensures message == m.payload {
      GenuineShape(e, m);
      GenuineWidth(e, m);
      RestoredIsPayload(e, m, maxMessageBytes, restored, sizes);
    }
    forall n: nat | Within(e, n) ensures Covered(e, n, message) {
      RestoredCovered(e, n, restored, parities, width, sizes, maxMessageBytes);
    }
    return Some(message);
  }

  lemma RestoredCovered(e: Incoming, n: nat, restored: seq<Option<Bytes>>, parities: seq<(nat, Bytes)>, width: nat,
                        sizes: seq<nat>, maxMessageBytes: nat)
    requires WellFormed(e) && e.totalCount >= 2 && Within(e, n) && width == Widest(e.fragments)
    requires Recovered(e.fragments[..Expected(e)], restored, parities, width) && |sizes| == |restored| == Expected(e)
    ensures Covered(e, n, Assembled(Stream(Known(restored), sizes, Expected(e)), maxMessageBytes))
  {
    hide Stream, Assembled, Consistent, ParityByte;
    WidestWithin(e.fragments, n);
    forall i | 0 <= i < |restored| ensures |Known(restored)[i]| <= n {
      assert restored[i].Some?;
    }
    StreamCovered(e, n, Known(restored), sizes, maxMessageBytes);
  }

  lemma {:induction false} WidestWithin(fragments: seq<Option<Bytes>>, n: nat)
    requires forall i | 0 <= i < |fragments| && fragments[i].Some? :: |fragments[i].value| <= n
    ensures Widest(fragments) <= n
  {
    if fragments != [] {
      WidestWithin(fragments[..|fragments| - 1], n);
    }
  }

  lemma {:induction false} StreamWithin(fragments: seq<Bytes>, sizes: seq<nat>, d: nat, n: nat)
    requires d <= |fragments| && d <= |sizes| && forall i | 0 <= i < d :: |fragments[i]| <= n
    ensures |Stream(fragments, sizes, d)| <= d * n
  {
    if d > 0 {
      StreamWithin(fragments, sizes, d - 1, n);
      assert d * n == (d - 1) * n + n;
    }
  }

  lemma StreamCovered(e: Incoming, n: nat, fragments: seq<Bytes>, sizes: seq<nat>, maxMessageBytes: nat)
    requires e.totalCount >= 1 && |fragments| == |sizes| == Expected(e)
    requires forall i | 0 <= i < |fragments| :: |fragments[i]| <= n
    ensures Covered(e, n, Assembled(Stream(fragments, sizes, Expected(e)), maxMessageBytes))
  {
    StreamWithin(fragments, sizes, Expected(e), n);
    hide Stream;
  }

  lemma TooFew(data: seq<Option<Bytes>>, parities: seq<(nat, Bytes)>)
    ensures |Missing(data)| > |parities| ==> !Recoverable(data, parities)
  {
    hide Nonsingular, Coefficients;
  }

  lemma RecoveredLength(data: seq<Option<Bytes>>, restored: seq<Option<Bytes>>, parities: seq<(nat, Bytes)>, width: nat)
    requires Recovered(data, restored, parities, width)
    ensures |restored| == |data|
  {}

  /**
   * Assembles an entry when its data fragments are complete or can be recovered. The result is exact: all indices stay
   * inside just when the entry is well formed, it then succeeds just when the entry is assemblable, and a genuine entry
   * of a legal message yields that message's payload.
   */
  method TryAssemble(t: Tables, e: Incoming, maxMessageBytes: nat) returns (inside: bool, out: Option<Bytes>)
    requires t.Valid() && Shaped(e)
    ensures inside <==> WellFormed(e)
    ensures out.Some? <==> WellFormed(e) && Assemblable(e)
    ensures forall m: Message | Genuine(e, m) && Legal(m, maxMessageBytes) :: out.Some? ==> out.value == m.payload
    ensures forall n: nat | Within(e, n) :: out.Some? ==> Covered(e, n, out.value)
  {
    hide Legal, Genuine, Nonsingular, Coefficients, Stream, Assembled, Widest, ParitiesAt, Covered, Within;
    if e.totalCount < 2 {
      return true, None;
    }
    var d := if e.dataCount > 0 then e.dataCount else e.totalCount - 1;
    var have;
    inside, have := CountPresent(e.fragments, d);
    if !inside {
      return false, None;
    }
    var data := e.fragments[..d];
    if have == d {
      var message := BuildMessage(Known(data), e.sizes[..d], d, maxMessageBytes);
      forall m: Message | Genuine(e, m) && Legal(m, maxMessageBytes) ensures message == m.payload {
        GenuineShape(e, m);
        CompleteIsPayload(e, m, maxMessageBytes);
      }
      forall n: nat | Within(e, n) ensures Covered(e, n, message) {
        CompleteCovered(e, n, maxMessageBytes);
      }
      return true, Some(message);
    }
    out := TryRecover(t, e, data, maxMessageBytes);
  }
}
