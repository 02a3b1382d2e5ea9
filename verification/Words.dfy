/** Machine words as little-endian bytes. */
module Words {
  type Byte = b: nat | b < 256

  type Word16 = n: nat | n < 0x1_0000

  type Word32 = n: nat | n < 0x1_0000_0000

  /** The n bytes of a word, the least significant first; the bits that do not fit are lost. */
  function WordBytes(w: nat, n: nat): (r: seq<Byte>)
    ensures |r| == n
  {
    if n == 0 then [] else [w % 256] + WordBytes(w / 256, n - 1)
  }

  function Value(b: seq<nat>): nat {
    if b == [] then 0 else b[0] + 256 * Value(b[1..])
  }

  function Power256(n: nat): (r: nat)
    ensures r > 0
  {
    if n == 0 then 1 else 256 * Power256(n - 1)
  }

  lemma {:induction false} WordValue(w: nat, n: nat)
    requires w < Power256(n)
    ensures Value(WordBytes(w, n)) == w
  {
    if n > 0 {
      WordValue(w / 256, n - 1);
      assert WordBytes(w, n)[1..] == WordBytes(w / 256, n - 1);
    }
  }

  lemma WordValue16(w: nat)
    requires w < 0x1_0000
    ensures Value(WordBytes(w, 2)) == w
  {
    assert Power256(1) == 256 && Power256(2) == 0x1_0000;
    WordValue(w, 2);
  }

  lemma WordValue32(w: nat)
    requires w < 0x1_0000_0000
    ensures Value(WordBytes(w, 4)) == w
  {
    assert Power256(2) == 0x1_0000;
    assert Power256(4) == 0x1_0000_0000;
    WordValue(w, 4);
  }

  ghost predicate AreBytes(b: seq<nat>) {
    forall i :: 0 <= i < |b| ==> b[i] < 256
  }

  lemma {:induction false} ValueBound(b: seq<nat>)
    requires AreBytes(b)
    ensures Value(b) < Power256(|b|)
  {
    if b != [] {
      ValueBound(b[1..]);
    }
  }
}
