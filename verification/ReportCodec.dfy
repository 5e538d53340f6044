/** Report payloads: acknowledgement, late ratio, listed losses and an optional trailing bandwidth. */
module ReportCodec {
  import opened Options
  import opened Crc32
  import opened PacketCodec
  import Cursor = ReportCursor

  datatype Fields = Fields(ack: bv32, ratio: bv16, lost: seq<bv32>, bandwidth: bv32)

  function Words(vs: seq<bv32>): (b: seq<Byte>)
    ensures |b| == 4 * |vs|
  {
    if vs == [] then [] else Words(vs[..|vs| - 1]) + Be32(vs[|vs| - 1])
  }

  /** The size field of a list, as a 16-bit number. */
  function Count(n: nat): bv16
    requires n < 0x10000
  {
    n as bv16
  }

  lemma CountSize(n: nat)
    requires n < 0x10000
    ensures Size(Count(n)) == n
  {
    assert n % 0x10000 == n;
  }

  function Lead(f: Fields): (b: seq<Byte>)
    requires |f.lost| <= Cursor.MAX_LISTED
    ensures |b| == 12
  {
    Be32(f.ack) + Be16(f.ratio) + Be16(Count(|f.lost|)) + Be32(0)
  }

  function Encode(f: Fields): (b: seq<Byte>)
    requires |f.lost| <= Cursor.MAX_LISTED
    ensures |b| == 16 + 4 * |f.lost|
  {
    Lead(f) + Words(f.lost) + Be32(f.bandwidth)
  }

  /** The words from byte 12 on. */
  function WordAt(b: seq<Byte>, i: nat): bv32
    requires 12 + 4 * i + 4 <= |b|
  {
    Get32(b[12 + 4 * i..12 + 4 * i + 4])
  }

  function Lost(b: seq<Byte>, n: nat): seq<bv32>
    requires 12 + 4 * n <= |b|
  {
    seq(n, i requires 0 <= i < n => WordAt(b, i))
  }

  function Decode(b: seq<Byte>): Option<Fields> {
    if |b| < 12 then None
    else
      var n := Size(Get16(b[6..8]));
      if |b| < 12 + 4 * n then None
      else Some(Fields(Get32(b[0..4]), Get16(b[4..6]), Lost(b, n), if |b| >= 16 + 4 * n then WordAt(b, n) else 0))
  }

  /** Writes a report payload. */
  method Build(ack: bv32, ratio: bv16, lost: seq<bv32>, bandwidth: bv32) returns (out: array<Byte>)
    ensures fresh(out) && out[..] == Encode(Fields(ack, ratio, Cursor.Listed(lost), bandwidth))
  {
    hide Be32, Be16, Count, Words;
    var listed := Cursor.Listed(lost);
    var n := |listed|;
    out := new Byte[16 + 4 * n](_ => 0);
    PutStart(out, ack, ratio, Count(n));
    assert out[..12] == Lead(Fields(ack, ratio, listed, bandwidth));
    PutWords(out, listed);
    Put32(out, 12 + 4 * n, bandwidth);
    assert out[..16 + 4 * n] == out[..];
  }

  method PutStart(out: array<Byte>, ack: bv32, ratio: bv16, count: bv16)
    requires out.Length >= 12
    modifies out
    ensures out[..12] == Be32(ack) + Be16(ratio) + Be16(count) + Be32(0)
  {
    hide Be32, Be16;
    Put32(out, 0, ack);
    assert out[..4] == Be32(ack);
    Put16(out, 4, ratio);
    Put16(out, 6, count);
    Put32(out, 8, 0);
  }

  method PutWords(out: array<Byte>, vs: seq<bv32>)
    requires out.Length >= 12 + 4 * |vs|
    modifies out
    ensures out[..12 + 4 * |vs|] == old(out[..12]) + Words(vs)
  {
    hide Be32, Words;
    ghost var lead := out[..12];
    NoWords();
    for i := 0 to |vs|
      invariant out[..12 + 4 * i] == lead + Words(vs[..i])
    {
      WordsSnoc(vs, i);
      Put32(out, 12 + 4 * i, vs[i]);
    }
    assert vs[..|vs|] == vs;
  }

  lemma NoWords()
    ensures Words([]) == []
  {}

  lemma WordsSnoc(vs: seq<bv32>, i: nat)
    requires i < |vs|
    ensures Words(vs[..i + 1]) == Words(vs[..i]) + Be32(vs[i])
  {
    hide Be32;
    assert vs[..i + 1][..i] == vs[..i];
  }

  /** Reads a report payload; the listed losses form a set. */
  method Parse(b: seq<Byte>) returns (r: Option<Fields>, lost: set<bv32>)
    ensures r == Decode(b)
    ensures lost == if r.Some? then set v | v in r.value.lost else {}
  {
    hide Get32, Get16, Size;
    lost := {};
    if |b| < 12 {
      return None, {};
    }
    var n := Size(Get16(b[6..8]));
    if |b| < 12 + 4 * n {
      return None, {};
    }
    var bandwidth: bv32 := 0;
    if |b| >= 12 + 4 * n + 4 {
      bandwidth := WordAt(b, n);
    }
    var listed: seq<bv32> := [];
    for i := 0 to n
      invariant listed == Lost(b, n)[..i] && lost == set v | v in listed
    {
      listed := listed + [WordAt(b, i)];
      lost := lost + {WordAt(b, i)};
    }
    assert listed == Lost(b, n);
    r := Some(Fields(Get32(b[0..4]), Get16(b[4..6]), listed, bandwidth));
  }

  lemma {:induction false} WordOfWords(vs: seq<bv32>, i: nat)
    requires i < |vs|
    ensures Words(vs)[4 * i..4 * i + 4] == Be32(vs[i])
  {
    hide Be32;
    var n := |vs| - 1;
    if i < n {
      WordOfWords(vs[..n], i);
      assert Words(vs)[4 * i..4 * i + 4] == Words(vs[..n])[4 * i..4 * i + 4];
    }
  }

  /**
   * A report cut anywhere is rejected unless only the trailing bandwidth is incomplete, which then reads as none;
   * whole, or with bytes after it, it reads back exactly.
   */
  lemma TruncatedReport(f: Fields, b: seq<Byte>)
    requires |f.lost| <= Cursor.MAX_LISTED && (b <= Encode(f) || Encode(f) <= b)
    ensures Decode(b) == if |b| < 12 + 4 * |f.lost| then None
                         else if |b| < 16 + 4 * |f.lost| then Some(f.(bandwidth := 0)) else Some(f)
  {
    hide Be32, Be16, Get32, Get16, Size, Count, Lead, Words, WordAt;
    if |b| >= 12 {
      LeadReads(f, b);
      var n := |f.lost|;
      if |b| >= 12 + 4 * n {
        forall i | 0 <= i < n
          ensures Lost(b, n)[i] == f.lost[i]
        {
          ListedReads(f, b, i);
        }
        assert Lost(b, n) == f.lost;
        if |b| >= 16 + 4 * n {
          BandwidthReads(f, b);
        }
      }
    }
  }

  lemma LeadReads(f: Fields, b: seq<Byte>)
    requires |f.lost| <= Cursor.MAX_LISTED && |b| >= 12 && (b <= Encode(f) || Encode(f) <= b)
    ensures Get32(b[0..4]) == f.ack && Get16(b[4..6]) == f.ratio && Size(Get16(b[6..8])) == |f.lost|
  {
    hide Be32, Be16, Get32, Get16, Size, Count, Words;
    Word32(f.ack);
    Word16(f.ratio);
    Word16(Count(|f.lost|));
    CountSize(|f.lost|);
    assert b[..12] == Encode(f)[..12] == Lead(f);
    assert b[0..4] == b[..12][0..4] == Be32(f.ack);
    assert b[4..6] == b[..12][4..6] == Be16(f.ratio);
    assert b[6..8] == b[..12][6..8] == Be16(Count(|f.lost|));
  }

  lemma ListedReads(f: Fields, b: seq<Byte>, i: nat)
    requires |f.lost| <= Cursor.MAX_LISTED && i < |f.lost| && |b| >= 12 + 4 * |f.lost|
    requires b <= Encode(f) || Encode(f) <= b
    ensures WordAt(b, i) == f.lost[i]
  {
    hide Be32, Get32, Lead, Words;
    WordOfWords(f.lost, i);
    Word32(f.lost[i]);
    var e := Encode(f);
    assert e[12 + 4 * i..12 + 4 * i + 4] == Words(f.lost)[4 * i..4 * i + 4];
    assert b[12 + 4 * i..12 + 4 * i + 4] == e[12 + 4 * i..12 + 4 * i + 4];
  }

  lemma BandwidthReads(f: Fields, b: seq<Byte>)
    requires |f.lost| <= Cursor.MAX_LISTED && Encode(f) <= b
    ensures WordAt(b, |f.lost|) == f.bandwidth
  {
    hide Be32, Get32, Lead, Words;
    Word32(f.bandwidth);
    var e, n := Encode(f), |f.lost|;
    assert e[12 + 4 * n..12 + 4 * n + 4] == Be32(f.bandwidth);
    assert b[12 + 4 * n..12 + 4 * n + 4] == e[12 + 4 * n..12 + 4 * n + 4];
  }
}
