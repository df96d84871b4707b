/** Bytes, their sum in GF(2^8) (exclusive or), and the 8-bit counters of the C code. */
module Bytes {

  /**
   An octet. The wrapper keeps the bits of an octet out of every proof that does not look at them.
   */
  datatype Byte = Byte(v: bv8)

  /** An `unsigned char` used as a number: every assignment to one proves that it does not wrap. */
  type uint8 = x: int | 0 <= x < 0x100

  function Xor(x: Byte, y: Byte): Byte {
    Byte(x.v ^ y.v)
  }

  function XorSeq(a: seq<Byte>, b: seq<Byte>): (r: seq<Byte>)
    requires |a| == |b|
    ensures |r| == |a| && forall i :: 0 <= i < |a| ==> r[i] == Xor(a[i], b[i])
  {
    seq(|a|, i requires 0 <= i < |a| => Xor(a[i], b[i]))
  }

  function Zeros(n: nat): (r: seq<Byte>)
    ensures |r| == n && forall i :: 0 <= i < n ==> r[i] == Byte(0)
  {
    seq(n, _ => Byte(0))
  }

  lemma XorCommutes(x: Byte, y: Byte)
    ensures Xor(x, y) == Xor(y, x)
  {
  }

  lemma XorCancels(x: Byte, y: Byte)
    ensures Xor(Xor(x, y), y) == x
  {
  }

  lemma XorRegroups(x: Byte, y: Byte, z: Byte)
    ensures Xor(Xor(x, y), z) == Xor(x, Xor(y, z))
  {
  }

  lemma XorZero(x: Byte)
    ensures Xor(x, Byte(0)) == x && Xor(Byte(0), x) == x && Xor(x, x) == Byte(0)
  {
  }

  lemma XorExchanges(a: Byte, b: Byte, c: Byte, d: Byte)
    ensures Xor(Xor(a, b), Xor(c, d)) == Xor(Xor(a, c), Xor(b, d))
  {
    hide Xor;
    XorRegroups(a, b, Xor(c, d));
    XorRegroups(b, c, d);
    XorCommutes(b, c);
    XorRegroups(c, b, d);
    XorRegroups(a, c, Xor(b, d));
  }

  lemma XorSeqCommutes(a: seq<Byte>, b: seq<Byte>)
    requires |a| == |b|
    ensures XorSeq(a, b) == XorSeq(b, a)
  {
    hide Xor;
    forall i | 0 <= i < |a| ensures XorSeq(a, b)[i] == XorSeq(b, a)[i] {
      XorCommutes(a[i], b[i]);
    }
  }

  lemma XorSeqCancels(a: seq<Byte>, b: seq<Byte>)
    requires |a| == |b|
    ensures XorSeq(XorSeq(a, b), b) == a
  {
    hide Xor;
    forall i | 0 <= i < |a| ensures XorSeq(XorSeq(a, b), b)[i] == a[i] {
      XorCancels(a[i], b[i]);
    }
  }
}
