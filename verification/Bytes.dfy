/** Byte strings and fixed-width big-endian numbers. */
module Bytes {
  type Byte = bv8

  function Pow256(k: nat): (p: nat)
    ensures p > 0
  {
    if k == 0 then 1 else 256 * Pow256(k - 1)
  }

  /** The `k` low-order bytes of `n`, most significant first. */
  function ToBE(n: nat, k: nat): (s: seq<Byte>)
    ensures |s| == k
  {
    if k == 0 then [] else ToBE(n / 256, k - 1) + [(n % 256) as Byte]
  }

  function FromBE(s: seq<Byte>): nat {
    if s == [] then 0 else 256 * FromBE(s[..|s| - 1]) + s[|s| - 1] as nat
  }

  lemma {:induction false} FromToBE(n: nat, k: nat)
    requires n < Pow256(k)
    ensures FromBE(ToBE(n, k)) == n
    decreases k
  {
    if k > 0 {
      var s := ToBE(n, k);
      assert s[..k - 1] == ToBE(n / 256, k - 1);
      assert n / 256 < Pow256(k - 1);
      FromToBE(n / 256, k - 1);
      ByteOfNat(n % 256);
    }
  }

  function Zeros(k: nat): (s: seq<Byte>)
    ensures |s| == k && forall i :: 0 <= i < k ==> s[i] == 0
  {
    seq(k, _ => 0)
  }

  lemma ByteZero()
    ensures (0 as nat) as Byte == 0 && (0 as Byte) as nat == 0
  {
    NatOfByte(0);
  }

  lemma {:induction false} ZeroBE(k: nat)
    ensures ToBE(0, k) == Zeros(k)
    decreases k
  {
    if k > 0 {
      ZeroBE(k - 1);
      ByteZero();
      assert Zeros(k) == Zeros(k - 1) + [0];
    }
  }

  lemma Divides(n: nat)
    requires n < 256
    ensures n / 256 == 0 && n % 256 == n
  {
  }

  /** A small number fills only the last byte. */
  lemma SmallBE(n: nat, b: Byte, k: nat)
    requires n == b as nat && k > 0
    ensures ToBE(n, k) == Zeros(k - 1) + [b]
  {
    NatOfByte(b);
    ZeroBE(k - 1);
    Divides(n);
  }

  lemma NextByte(b: Byte)
    requires b != 255
    ensures (b + 1) as nat == b as nat + 1
  {
  }

  /** Every small number is the value of some byte. */
  lemma {:induction false} ByteWithValue(n: nat) returns (b: Byte)
    requires n < 256
    ensures b as nat == n
    decreases n
  {
    if n == 0 {
      b := 0;
    } else {
      var below := ByteWithValue(n - 1);
      NextByte(below);
      b := below + 1;
    }
  }

  lemma ByteOfNat(n: nat)
    requires n < 256
    ensures (n as Byte) as nat == n
  {
    var b := ByteWithValue(n);
    NatOfByte(b);
  }

  lemma NatOfByte(b: Byte)
    ensures b as nat < 256 && (b as nat) as Byte == b
  {
  }

  lemma Quotient(q: nat, r: nat)
    requires r < 256
    ensures (256 * q + r) / 256 == q && (256 * q + r) % 256 == r
  {
  }

  lemma {:induction false} ToFromBE(s: seq<Byte>)
    ensures ToBE(FromBE(s), |s|) == s && FromBE(s) < Pow256(|s|)
    decreases |s|
  {
    if s != [] {
      var front, last := s[..|s| - 1], s[|s| - 1];
      ToFromBE(front);
      NatOfByte(last);
      var n := FromBE(s);
      Quotient(FromBE(front), last as nat);
      assert s == front + [last];
    }
  }

  function Char(c: char): Byte {
    if c <= 'z' then (c as nat) as Byte else 0
  }

  /** The ASCII codes of a short tag. */
  function Ascii(tag: string): (s: seq<Byte>)
    ensures |s| == |tag|
  {
    seq(|tag|, i requires 0 <= i < |tag| => Char(tag[i]))
  }

  const U64_LIMIT: nat := 0x1_0000_0000_0000_0000

  lemma U64IsEightBytes()
    ensures Pow256(8) == U64_LIMIT
  {
    assert Pow256(1) == 256;
    assert Pow256(2) == 0x1_0000;
    assert Pow256(3) == 0x100_0000;
    assert Pow256(4) == 0x1_0000_0000;
    assert Pow256(5) == 0x100_0000_0000;
    assert Pow256(6) == 0x1_0000_0000_0000;
    assert Pow256(7) == 0x100_0000_0000_0000;
  }
}
