/** Byte strings read four bytes at a time, for any way of packing four bytes.

    Kept apart from the words of SHA-1 so that facts about positions and facts about bits do not
    meet in one proof. */
module Chunks {

  function Zeros(n: nat): (z: seq<bv8>)
    ensures |z| == n && forall i :: 0 <= i < n ==> z[i] == 0
  {
    seq(n, i => 0)
  }

  function Pack<T>(bytes: seq<bv8>, pack: (bv8, bv8, bv8, bv8) -> T): (w: seq<T>)
    requires |bytes| % 4 == 0
    ensures |w| == |bytes| / 4
  {
    if bytes == [] then [] else [pack(bytes[0], bytes[1], bytes[2], bytes[3])] + Pack(bytes[4..], pack)
  }

  lemma {:induction false} PackConcat<T>(a: seq<bv8>, b: seq<bv8>, pack: (bv8, bv8, bv8, bv8) -> T)
    requires |a| % 4 == 0 && |b| % 4 == 0
    ensures |a + b| % 4 == 0 && Pack(a + b, pack) == Pack(a, pack) + Pack(b, pack)
    decreases |a|
  {
    if a == [] {
      assert a + b == b;
    } else {
      assert (a + b)[4..] == a[4..] + b;
      PackConcat(a[4..], b, pack);
    }
  }

  lemma {:induction false} PackAt<T>(bytes: seq<bv8>, pack: (bv8, bv8, bv8, bv8) -> T, i: nat)
    requires |bytes| % 4 == 0 && i < |bytes| / 4
    ensures Pack(bytes, pack)[i] == pack(bytes[4 * i], bytes[4 * i + 1], bytes[4 * i + 2], bytes[4 * i + 3])
    decreases i
  {
    if i > 0 {
      PackAt(bytes[4..], pack, i - 1);
    }
  }

  /** Changing one byte changes one word. */
  lemma PackUpdate<T>(bytes: seq<bv8>, pack: (bv8, bv8, bv8, bv8) -> T, i: nat, b: bv8)
    requires |bytes| % 4 == 0 && i < |bytes|
    ensures var c, j := bytes[i := b], i / 4;
      Pack(c, pack) == Pack(bytes, pack)[j := pack(c[4 * j], c[4 * j + 1], c[4 * j + 2], c[4 * j + 3])]
  {
    var c, j := bytes[i := b], i / 4;
    var changed := Pack(bytes, pack)[j := pack(c[4 * j], c[4 * j + 1], c[4 * j + 2], c[4 * j + 3])];
    forall k: nat | k < |bytes| / 4 ensures Pack(c, pack)[k] == changed[k] {
      PackAt(c, pack, k);
      PackAt(bytes, pack, k);
    }
  }

  /** Zero bytes pack to zero words. */
  lemma PackZeros<T>(n: nat, pack: (bv8, bv8, bv8, bv8) -> T)
    requires n % 4 == 0
    ensures Pack(Zeros(n), pack) == seq(n / 4, i => pack(0, 0, 0, 0))
  {
    forall k: nat | k < n / 4 ensures Pack(Zeros(n), pack)[k] == pack(0, 0, 0, 0) {
      PackAt(Zeros(n), pack, k);
    }
  }
}
