/** Facts about finite sets and words that several components share. */
module Collections {

  lemma {:induction false} SubsetSize<T>(a: set<T>, b: set<T>)
    requires a <= b
    ensures |a| <= |b|
  {
    if a != {} {
      var x :| x in a;
      SubsetSize(a - {x}, b - {x});
    }
  }

  lemma {:induction false} FindLeast(s: set<nat>) returns (g: nat)
    requires s != {}
    ensures g in s && forall k | k in s :: g <= k
  {
    g :| g in s;
    if s - {g} != {} {
      var h := FindLeast(s - {g});
      assert forall k | k in s :: k == g || k in s - {g};
      g := if h < g then h else g;
    } else {
      assert s == {g};
    }
  }

  lemma LeastExists(s: set<nat>)
    requires s != {}
    ensures exists g :: g in s && forall k | k in s :: g <= k
  {
    var g := FindLeast(s);
  }

  ghost function Least(s: set<nat>): (g: nat)
    requires s != {}
    ensures g in s && forall k | k in s :: g <= k
  {
    LeastExists(s);
    var g :| g in s && forall k | k in s :: g <= k;
    g
  }

  // ----- Lengths in bits -----

  /** A byte count as a 64-bit number of bits. */
  function BitCount(n: nat): bv64 {
    (8 * n % 0x1_0000_0000_0000_0000) as bv64
  }

  /** Byte i of a 64-bit number, most significant first. */
  function BigEndianByte(v: bv64, i: nat): bv8
    requires i < 8
  {
    ((v >> (56 - i * 8)) & 0xFF) as bv8
  }
}
