/** SHA-1 as FIPS 180-4 defines it, and the streaming implementation Remotery carries.

    The implementation reuses one round buffer, and builds the last block or two in it; the standard
    pads the whole message first. */
module Sha1 {
  import opened Chunks

  type Word = bv32

  const ZERO: Word := 0

  // ---------------------------------------------------------------------------------------------
  // The standard
  // ---------------------------------------------------------------------------------------------

  /** ROTL of section 3.2, for the three amounts used. */
  function Rotl1(x: Word): Word { x.RotateLeft(1) }
  function Rotl5(x: Word): Word { x.RotateLeft(5) }
  function Rotl30(x: Word): Word { x.RotateLeft(30) }

  /** The functions of section 4.1.1. */
  function Ch(x: Word, y: Word, z: Word): Word { (x & y) ^ (!x & z) }
  function Parity(x: Word, y: Word, z: Word): Word { x ^ y ^ z }
  function Maj(x: Word, y: Word, z: Word): Word { (x & y) ^ (x & z) ^ (y & z) }

  datatype Hash = Hash(a: Word, b: Word, c: Word, d: Word, e: Word)

  function F(t: nat, h: Hash): Word {
    if t < 20 then Ch(h.b, h.c, h.d)
    else if t < 40 then Parity(h.b, h.c, h.d)
    else if t < 60 then Maj(h.b, h.c, h.d)
    else Parity(h.b, h.c, h.d)
  }

  /** The constants of section 4.2.1. */
  function K(t: nat): Word {
    if t < 20 then 0x5a827999 else if t < 40 then 0x6ed9eba1 else if t < 60 then 0x8f1bbcdc else 0xca62c1d6
  }

  /** The initial value of section 5.3.1. */
  const INITIAL := Hash(0x67452301, 0xefcdab89, 0x98badcfe, 0x10325476, 0xc3d2e1f0)

  /** One round of section 6.1.2, step 3, with `f` and the constant given. */
  function Mix(h: Hash, f: Word, k: Word, w: Word): Hash {
    Hash(Sum(Rotl5(h.a), f, h.e, k, w), h.a, Rotl30(h.b), h.c, h.d)
  }

  /** The five-term sum of that step, modulo 2^32. */
  function Sum(a: Word, f: Word, e: Word, k: Word, w: Word): Word {
    a + f + e + k + w
  }

  /** The message schedule of section 6.1.2, step 1. */
  function W(block: seq<Word>, t: nat): Word
    requires |block| == 16
  {
    if t < 16 then block[t]
    else NextWord(W(block, t - 3), W(block, t - 8), W(block, t - 14), W(block, t - 16))
  }

  function NextWord(x: Word, y: Word, z: Word, v: Word): Word {
    Rotl1(x ^ y ^ z ^ v)
  }

  /** The working variables after the first `t` rounds. */
  function Rounds(h: Hash, block: seq<Word>, t: nat): Hash
    requires |block| == 16
  {
    if t == 0 then h
    else
      var g := Rounds(h, block, t - 1);
      Mix(g, F(t - 1, g), K(t - 1), W(block, t - 1))
  }

  function Add(g: Hash, h: Hash): Hash {
    Hash(g.a + h.a, g.b + h.b, g.c + h.c, g.d + h.d, g.e + h.e)
  }

  /** Section 6.1.2 for one block. */
  function Compress(h: Hash, block: seq<Word>): Hash
    requires |block| == 16
  {
    Add(h, Rounds(h, block, 80))
  }

  /** All whole blocks of the words, in order. */
  function HashWords(h: Hash, words: seq<Word>): Hash
    decreases |words|
  {
    if |words| < 16 then h else HashWords(Compress(h, words[..16]), words[16..])
  }

  /** Four bytes, the most significant first. */
  function ToWord(b0: bv8, b1: bv8, b2: bv8, b3: bv8): Word {
    ((b0 as bv32) << 24) | ((b1 as bv32) << 16) | ((b2 as bv32) << 8) | (b3 as bv32)
  }

  function ToWords(bytes: seq<bv8>): (w: seq<Word>)
    requires |bytes| % 4 == 0
    ensures |w| == |bytes| / 4
  {
    Pack(bytes, ToWord)
  }

  function LengthWord(n: nat): Word {
    (n % 0x1_0000_0000) as bv32
  }

  /** How many zero bytes the padding of section 5.1.1 puts between the 0x80 byte and the length. */
  function ZeroCount(length: nat): (k: nat)
    ensures (length + 1 + k) % 64 == 56 && k < 64
  {
    if length % 64 < 56 then 55 - length % 64 else 119 - length % 64
  }

  lemma PadLength(n: nat)
    ensures (n + 1 + ZeroCount(n)) % 4 == 0
  {
    var q := (n + 1 + ZeroCount(n)) / 64;
    assert n + 1 + ZeroCount(n) == 4 * (16 * q + 14);
  }

  /** The padded message as words: its bytes, 0x80, zeros, and its length in bits as two words. */
  function Padded(m: seq<bv8>): seq<Word> {
    var bits := 8 * |m|;
    PadLength(|m|);
    ToWords(m + [0x80] + Zeros(ZeroCount(|m|))) + [LengthWord(bits / 0x1_0000_0000), LengthWord(bits)]
  }

  /** The SHA-1 of a message, as its five words. */
  function Digest(m: seq<bv8>): Hash {
    HashWords(INITIAL, Padded(m))
  }

  // ---------------------------------------------------------------------------------------------
  // Facts about it
  // ---------------------------------------------------------------------------------------------

  /** The implementation computes Ch and Maj with `or`; no bit is ever set on both sides of one. */
  lemma OrForms(x: Word, y: Word, z: Word)
    ensures (x & y) | (!x & z) == Ch(x, y, z)
    ensures (x & y) | (x & z) | (y & z) == Maj(x, y, z)
  {
  }

  lemma {:induction false} HashWordsConcat(h: Hash, a: seq<Word>, b: seq<Word>)
    requires |a| % 16 == 0
    ensures HashWords(h, a + b) == HashWords(HashWords(h, a), b)
    decreases |a|
  {
    if a == [] {
      assert a + b == b;
    } else {
      assert (a + b)[..16] == a[..16] && (a + b)[16..] == a[16..] + b;
      HashWordsConcat(Compress(h, a[..16]), a[16..], b);
    }
  }

  lemma OneBlock(h: Hash, block: seq<Word>)
    requires |block| == 16
    ensures HashWords(h, block) == Compress(h, block)
  {
    assert block[..16] == block && block[16..] == [];
  }

  // ---------------------------------------------------------------------------------------------
  // The implementation
  // ---------------------------------------------------------------------------------------------

  ghost predicate AfterRounds(h: Hash, g: Hash, block: seq<Word>, round: nat)
    requires |block| == 16
  {
    g == Rounds(h, block, round)
  }

  /** The round buffer holds the first `round` words of the schedule. */
  ghost predicate Filled(w: array<Word>, block: seq<Word>, round: nat)
    requires |block| == 16
    reads w
  {
    w.Length == 80 && round <= 80 && forall t: nat :: t < round ==> w[t] == W(block, t)
  }

  lemma RoundStep(h: Hash, g: Hash, block: seq<Word>, round: nat, f: Word, k: Word, word: Word)
    requires |block| == 16 && AfterRounds(h, g, block, round)
    requires f == F(round, g) && k == K(round) && word == W(block, round)
    ensures AfterRounds(h, Mix(g, f, k, word), block, round + 1)
  {
  }

  // The source's rol, at each amount it is used with.

  method Rol1(value: Word) returns (r: Word)
    ensures r == Rotl1(value)
  {
    r := (value << 1) | (value >> 31);
  }

  method Rol5(value: Word) returns (r: Word)
    ensures r == Rotl5(value)
  {
    r := (value << 5) | (value >> 27);
  }

  method Rol30(value: Word) returns (r: Word)
    ensures r == Rotl30(value)
  {
    r := (value << 30) | (value >> 2);
  }

  /** One word more of the schedule, computed in place. */
  method Expand(w: array<Word>, round: nat, ghost block: seq<Word>)
    requires |block| == 16 && 16 <= round < 80 && Filled(w, block, round)
    modifies w
    ensures Filled(w, block, round + 1)
  {
    var x, y, z, v := w[round - 3], w[round - 8], w[round - 14], w[round - 16];
    var next := Rol1(x ^ y ^ z ^ v);
    Store(w, round, next, block);
  }

  method Store(w: array<Word>, round: nat, next: Word, ghost block: seq<Word>)
    requires |block| == 16 && round < 80 && Filled(w, block, round) && next == W(block, round)
    modifies w
    ensures Filled(w, block, round + 1)
  {
    w[round] := next;
  }

  method AddUp(rolled: Word, f: Word, e: Word, val: Word, word: Word) returns (t: Word)
    ensures t == Sum(rolled, f, e, val, word)
  {
    t := rolled + f + e + val + word;
  }

  /** The source's sha1macro: the working variables move up one by one. */
  method Sha1Macro(g: Hash, f: Word, val: Word, word: Word) returns (r: Hash)
    ensures r == Mix(g, f, val, word)
  {
    var a, b, c, d, e := g.a, g.b, g.c, g.d, g.e;
    var rolled := Rol5(a);
    var t := AddUp(rolled, f, e, val, word);
    e := d;
    d := c;
    c := Rol30(b);
    b := a;
    a := t;
    r := Hash(a, b, c, d, e);
  }

  // It, at each function and constant it is used with.

  method ChooseRound(ghost h: Hash, g: Hash, word: Word, ghost block: seq<Word>, ghost round: nat) returns (r: Hash)
    requires |block| == 16 && round < 20 && AfterRounds(h, g, block, round) && word == W(block, round)
    ensures AfterRounds(h, r, block, round + 1)
  {
    var f := (g.b & g.c) | (!g.b & g.d);
    OrForms(g.b, g.c, g.d);
    RoundStep(h, g, block, round, f, 0x5a827999, word);
    r := Sha1Macro(g, f, 0x5a827999, word);
  }

  method EarlyParityRound(ghost h: Hash, g: Hash, word: Word, ghost block: seq<Word>, ghost round: nat) returns (r: Hash)
    requires |block| == 16 && 20 <= round < 40 && AfterRounds(h, g, block, round) && word == W(block, round)
    ensures AfterRounds(h, r, block, round + 1)
  {
    RoundStep(h, g, block, round, g.b ^ g.c ^ g.d, 0x6ed9eba1, word);
    r := Sha1Macro(g, g.b ^ g.c ^ g.d, 0x6ed9eba1, word);
  }

  method MajorityRound(ghost h: Hash, g: Hash, word: Word, ghost block: seq<Word>, ghost round: nat) returns (r: Hash)
    requires |block| == 16 && 40 <= round < 60 && AfterRounds(h, g, block, round) && word == W(block, round)
    ensures AfterRounds(h, r, block, round + 1)
  {
    var f := (g.b & g.c) | (g.b & g.d) | (g.c & g.d);
    OrForms(g.b, g.c, g.d);
    RoundStep(h, g, block, round, f, 0x8f1bbcdc, word);
    r := Sha1Macro(g, f, 0x8f1bbcdc, word);
  }

  method LateParityRound(ghost h: Hash, g: Hash, word: Word, ghost block: seq<Word>, ghost round: nat) returns (r: Hash)
    requires |block| == 16 && 60 <= round < 80 && AfterRounds(h, g, block, round) && word == W(block, round)
    ensures AfterRounds(h, r, block, round + 1)
  {
    RoundStep(h, g, block, round, g.b ^ g.c ^ g.d, 0xca62c1d6, word);
    r := Sha1Macro(g, g.b ^ g.c ^ g.d, 0xca62c1d6, word);
  }

  // The loops of the source.

  method Rounds0To15(h: Hash, g: Hash, w: array<Word>, ghost block: seq<Word>) returns (r: Hash)
    requires |block| == 16 && AfterRounds(h, g, block, 0) && Filled(w, block, 16)
    modifies w
    ensures AfterRounds(h, r, block, 16) && Filled(w, block, 16)
  {
    r := g;
    var round := 0;
    while round < 16
      invariant 0 <= round <= 16 && AfterRounds(h, r, block, round) && Filled(w, block, 16)
    {
      r := ChooseRound(h, r, w[round], block, round);
      round := round + 1;
    }
  }

  method Rounds16To19(h: Hash, g: Hash, w: array<Word>, ghost block: seq<Word>) returns (r: Hash)
    requires |block| == 16 && AfterRounds(h, g, block, 16) && Filled(w, block, 16)
    modifies w
    ensures AfterRounds(h, r, block, 20) && Filled(w, block, 20)
  {
    r := g;
    var round := 16;
    while round < 20
      invariant 16 <= round <= 20 && AfterRounds(h, r, block, round) && Filled(w, block, round)
    {
      Expand(w, round, block);
      r := ChooseRound(h, r, w[round], block, round);
      round := round + 1;
    }
  }

  method Rounds20To39(h: Hash, g: Hash, w: array<Word>, ghost block: seq<Word>) returns (r: Hash)
    requires |block| == 16 && AfterRounds(h, g, block, 20) && Filled(w, block, 20)
    modifies w
    ensures AfterRounds(h, r, block, 40) && Filled(w, block, 40)
  {
    r := g;
    var round := 20;
    while round < 40
      invariant 20 <= round <= 40 && AfterRounds(h, r, block, round) && Filled(w, block, round)
    {
      Expand(w, round, block);
      r := EarlyParityRound(h, r, w[round], block, round);
      round := round + 1;
    }
  }

  method Rounds40To59(h: Hash, g: Hash, w: array<Word>, ghost block: seq<Word>) returns (r: Hash)
    requires |block| == 16 && AfterRounds(h, g, block, 40) && Filled(w, block, 40)
    modifies w
    ensures AfterRounds(h, r, block, 60) && Filled(w, block, 60)
  {
    r := g;
    var round := 40;
    while round < 60
      invariant 40 <= round <= 60 && AfterRounds(h, r, block, round) && Filled(w, block, round)
    {
      Expand(w, round, block);
      r := MajorityRound(h, r, w[round], block, round);
      round := round + 1;
    }
  }

  method Rounds60To79(h: Hash, g: Hash, w: array<Word>, ghost block: seq<Word>) returns (r: Hash)
    requires |block| == 16 && AfterRounds(h, g, block, 60) && Filled(w, block, 60)
    modifies w
    ensures AfterRounds(h, r, block, 80) && Filled(w, block, 80)
  {
    r := g;
    var round := 60;
    while round < 80
      invariant 60 <= round <= 80 && AfterRounds(h, r, block, round) && Filled(w, block, round)
    {
      Expand(w, round, block);
      r := LateParityRound(h, r, w[round], block, round);
      round := round + 1;
    }
  }

  /** One block: its words are the first 16 of the round buffer, the rest of which is overwritten. */
  method InnerHash(h: Hash, w: array<Word>, ghost block: seq<Word>) returns (result: Hash)
    requires w.Length == 80 && |block| == 16 && w[..16] == block
    modifies w
    ensures result == Compress(h, block)
  {
    assert forall t :: 0 <= t < 16 ==> w[t] == w[..16][t];
    var g := Rounds0To15(h, h, w, block);
    g := Rounds16To19(h, g, w, block);
    g := Rounds20To39(h, g, w, block);
    g := Rounds40To59(h, g, w, block);
    g := Rounds60To79(h, g, w, block);
    result := Add(h, g);
  }

  // Bytes and words. Each amount a byte is shifted by in the source is a function here.

  function Or0(x: Word, b: bv8): Word { x | ((b as bv32) << 24) }
  function Or1(x: Word, b: bv8): Word { x | ((b as bv32) << 16) }
  function Or2(x: Word, b: bv8): Word { x | ((b as bv32) << 8) }
  function Or3(x: Word, b: bv8): Word { x | (b as bv32) }

  function Byte0(w: Word): bv8 { ((w >> 24) & 0xff) as bv8 }
  function Byte1(w: Word): bv8 { ((w >> 16) & 0xff) as bv8 }
  function Byte2(w: Word): bv8 { ((w >> 8) & 0xff) as bv8 }
  function Byte3(w: Word): bv8 { (w & 0xff) as bv8 }

  function Load(b0: bv8, b1: bv8, b2: bv8, b3: bv8): Word {
    (b3 as bv32) | ((b2 as bv32) << 8) | ((b1 as bv32) << 16) | ((b0 as bv32) << 24)
  }

  lemma LoadOrder(b0: bv8, b1: bv8, b2: bv8, b3: bv8)
    ensures Load(b0, b1, b2, b3) == ToWord(b0, b1, b2, b3)
  {
  }

  // Setting a byte that is zero so far by `or`.

  lemma OrIs0(b: bv8, b1: bv8, b2: bv8, b3: bv8)
    ensures Or0(ToWord(0, b1, b2, b3), b) == ToWord(b, b1, b2, b3)
  {
  }

  lemma OrIs1(b: bv8, b0: bv8, b2: bv8, b3: bv8)
    ensures Or1(ToWord(b0, 0, b2, b3), b) == ToWord(b0, b, b2, b3)
  {
  }

  lemma OrIs2(b: bv8, b0: bv8, b1: bv8, b3: bv8)
    ensures Or2(ToWord(b0, b1, 0, b3), b) == ToWord(b0, b1, b, b3)
  {
  }

  lemma OrIs3(b: bv8, b0: bv8, b1: bv8, b2: bv8)
    ensures Or3(ToWord(b0, b1, b2, 0), b) == ToWord(b0, b1, b2, b)
  {
  }

  lemma BytesOfWord(w: Word)
    ensures ToWord(Byte0(w), Byte1(w), Byte2(w), Byte3(w)) == w
  {
  }

  lemma ZeroWord()
    ensures ToWord(0, 0, 0, 0) == 0
  {
  }

  /** The digest as bytes: its words in order, the most significant byte of each first. */
  function WordBytes(w: Word): (b: seq<bv8>)
    ensures |b| == 4
  {
    [Byte0(w), Byte1(w), Byte2(w), Byte3(w)]
  }

  function Output(h: Hash): (b: seq<bv8>)
    ensures |b| == 20
  {
    WordBytes(h.a) + WordBytes(h.b) + WordBytes(h.c) + WordBytes(h.d) + WordBytes(h.e)
  }

  lemma WordReads(w: Word)
    ensures ToWords(WordBytes(w)) == [w]
  {
    BytesOfWord(w);
    assert WordBytes(w)[4..] == [];
  }

  /** The bytes determine the words. */
  lemma OutputReads(h: Hash)
    ensures ToWords(Output(h)) == [h.a, h.b, h.c, h.d, h.e]
  {
    var a, b, c, d, e := WordBytes(h.a), WordBytes(h.b), WordBytes(h.c), WordBytes(h.d), WordBytes(h.e);
    WordReads(h.a);
    WordReads(h.b);
    WordReads(h.c);
    WordReads(h.d);
    WordReads(h.e);
    PackConcat(a, b, ToWord);
    PackConcat(a + b, c, ToWord);
    PackConcat(a + b + c, d, ToWord);
    PackConcat(a + b + c + d, e, ToWord);
  }

  /** Fill the first 16 words of the round buffer with 64 bytes. */
  method LoadBlock(src: seq<bv8>, start: nat, w: array<Word>)
    requires start + 64 <= |src| && w.Length == 80
    modifies w
    ensures w[..16] == ToWords(src[start..start + 64])
  {
    var roundPos := 0;
    ghost var block := src[start..start + 64];
    while roundPos < 16
      invariant 0 <= roundPos <= 16
      invariant forall k :: 0 <= k < roundPos ==> w[k] == ToWords(block)[k]
    {
      var at := start + 4 * roundPos;
      LoadOrder(src[at], src[at + 1], src[at + 2], src[at + 3]);
      PackAt(block, ToWord, roundPos);
      w[roundPos] := Load(src[at], src[at + 1], src[at + 2], src[at + 3]);
      roundPos := roundPos + 1;
    }
  }

  method ClearWBuffert(w: array<Word>)
    requires w.Length == 80
    modifies w
    ensures w[..16] == ToWords(Zeros(64))
  {
    var pos := 16;
    while pos > 0
      invariant 0 <= pos <= 16 && forall k :: pos <= k < 16 ==> w[k] == 0
    {
      pos := pos - 1;
      w[pos] := 0;
    }
    ZeroWord();
    PackZeros(64, ToWord);
  }

  /** Put a byte into the block being built. */
  method OrByte(w: array<Word>, i: nat, b: bv8, ghost bytes: seq<bv8>)
    requires w.Length == 80 && |bytes| == 64 && i < 64 && bytes[i] == 0 && w[..16] == ToWords(bytes)
    modifies w
    ensures w[..16] == ToWords(bytes[i := b])
  {
    var j := i / 4;
    ghost var before := w[..16];
    ghost var b0, b1, b2, b3 := bytes[4 * j], bytes[4 * j + 1], bytes[4 * j + 2], bytes[4 * j + 3];
    PackUpdate(bytes, ToWord, i, b);
    PackAt(bytes, ToWord, j);
    if i % 4 == 0 {
      OrIs0(b, b1, b2, b3);
      w[j] := Or0(w[j], b);
    } else if i % 4 == 1 {
      OrIs1(b, b0, b2, b3);
      w[j] := Or1(w[j], b);
    } else if i % 4 == 2 {
      OrIs2(b, b0, b1, b3);
      w[j] := Or2(w[j], b);
    } else {
      OrIs3(b, b0, b1, b2);
      w[j] := Or3(w[j], b);
    }
    assert w[..16] == before[j := w[j]];
  }

  // ---------------------------------------------------------------------------------------------
  // The whole message
  // ---------------------------------------------------------------------------------------------

  /** The last, partial block with the 0x80 byte, filled up with zeros. */
  function TailBlock(tail: seq<bv8>): (b: seq<bv8>)
    requires |tail| < 64
    ensures |b| == 64
  {
    tail + [0x80] + Zeros(63 - |tail|)
  }

  /** The words after the whole blocks: one block, or two when the length does not fit into the first.
      Only the last word holds the length. */
  function Tail(tail: seq<bv8>, length: Word): seq<Word>
    requires |tail| < 64
  {
    if |tail| < 56 then ToWords(TailBlock(tail))[15 := length]
    else ToWords(TailBlock(tail)) + ToWords(Zeros(64))[15 := length]
  }

  /** The words the implementation hashes. */
  function Fed(m: seq<bv8>): seq<Word> {
    var q := |m| - |m| % 64;
    WholeBlocks(|m|);
    ToWords(m[..q]) + Tail(m[q..], LengthWord(8 * |m|))
  }

  lemma WholeBlocks(n: nat)
    ensures (n - n % 64) % 64 == 0 && (n - n % 64) % 4 == 0
  {
    assert n - n % 64 == 64 * (n / 64);
    MultipleOfFour(64 * (n / 64));
  }

  /** The padding of the standard after the whole blocks. */
  function StandardTail(tail: seq<bv8>, high: Word, low: Word): seq<Word>
    requires |tail| < 64
  {
    PadLength(|tail|);
    ToWords(tail + [0x80] + Zeros(ZeroCount(|tail|))) + [high, low]
  }

  lemma PaddedSplits(m: seq<bv8>, q: nat)
    requires q <= |m| && q % 64 == 0 && |m| - q < 64
    ensures q % 4 == 0
    ensures Padded(m) == ToWords(m[..q]) + StandardTail(m[q..], LengthWord(8 * |m| / 0x1_0000_0000), LengthWord(8 * |m|))
  {
    var tail := m[q..];
    MultipleOfFour(q);
    SameZeros(|m|, q);
    PadLength(|tail|);
    SplitBytes(m, q, Zeros(ZeroCount(|m|)));
    PackConcat(m[..q], tail + [0x80] + Zeros(ZeroCount(|tail|)), ToWord);
  }

  lemma SameZeros(n: nat, q: nat)
    requires q <= n && q % 64 == 0 && n - q < 64
    ensures ZeroCount(n) == ZeroCount(n - q)
  {
    assert n == 64 * (q / 64) + (n - q);
  }

  lemma SplitBytes(m: seq<bv8>, q: nat, zeros: seq<bv8>)
    requires q <= |m|
    ensures m[..q] + (m[q..] + [0x80] + zeros) == m + [0x80] + zeros
  {
  }

  lemma ZeroWords(n: nat)
    requires n % 4 == 0
    ensures ToWords(Zeros(n)) == seq(n / 4, i => ZERO)
  {
    PackZeros(n, ToWord);
    ZeroWord();
  }

  lemma ShortTail(x: seq<Word>, high: Word, low: Word)
    requires |x| == 14
    ensures (x + [ZERO, ZERO])[15 := low] == x + [high, low] <==> high == 0
  {
    var t, u := (x + [ZERO, ZERO])[15 := low], x + [high, low];
    assert t[14] == ZERO && u[14] == high;
    assert high == 0 ==> t == u;
  }

  lemma LongTail(x: seq<Word>, y: seq<Word>, z: seq<Word>, high: Word, low: Word)
    requires y == seq(16, i => ZERO) && z == seq(14, i => ZERO)
    ensures x + y[15 := low] == x + z + [high, low] <==> high == 0
  {
    var t, u := x + y[15 := low], x + z + [high, low];
    assert t[|x| + 14] == ZERO && u[|x| + 14] == high;
    assert high == 0 ==> t == u;
  }

  /** The two agree exactly when the high word of the length is zero. */
  lemma TailsAgree(tail: seq<bv8>, high: Word, low: Word)
    requires |tail| < 64
    ensures Tail(tail, low) == StandardTail(tail, high, low) <==> high == 0
  {
    if |tail| < 56 {
      ShortAgree(tail, high, low);
    } else {
      LongAgree(tail, high, low);
    }
  }

  lemma ShortAgree(tail: seq<bv8>, high: Word, low: Word)
    requires |tail| < 56
    ensures Tail(tail, low) == StandardTail(tail, high, low) <==> high == 0
  {
    var short := tail + [0x80] + Zeros(55 - |tail|);
    ShortBlock(tail);
    ShortTail(ToWords(short), high, low);
  }

  lemma ShortBlock(tail: seq<bv8>)
    requires |tail| < 56
    ensures ToWords(TailBlock(tail)) == ToWords(tail + [0x80] + Zeros(55 - |tail|)) + [ZERO, ZERO]
  {
    var short := tail + [0x80] + Zeros(55 - |tail|);
    assert TailBlock(tail) == short + Zeros(8);
    PackConcat(short, Zeros(8), ToWord);
    ZeroWords(8);
    assert ToWords(Zeros(8)) == [ZERO, ZERO];
  }

  lemma LongAgree(tail: seq<bv8>, high: Word, low: Word)
    requires 56 <= |tail| < 64
    ensures Tail(tail, low) == StandardTail(tail, high, low) <==> high == 0
  {
    var block := TailBlock(tail);
    LongStandard(tail, high, low);
    ZeroWords(56);
    ZeroWords(64);
    LongTail(ToWords(block), ToWords(Zeros(64)), ToWords(Zeros(56)), high, low);
  }

  lemma LongStandard(tail: seq<bv8>, high: Word, low: Word)
    requires 56 <= |tail| < 64
    ensures StandardTail(tail, high, low) == ToWords(TailBlock(tail)) + ToWords(Zeros(56)) + [high, low]
  {
    LongZeros(tail);
    PackConcat(TailBlock(tail), Zeros(56), ToWord);
  }

  lemma LongZeros(tail: seq<bv8>)
    requires 56 <= |tail| < 64
    ensures tail + [0x80] + Zeros(ZeroCount(|tail|)) == TailBlock(tail) + Zeros(56)
  {
    assert Zeros(63 - |tail|) + Zeros(56) == Zeros(119 - |tail|);
  }

  lemma HighWord(n: nat)
    requires n < 0x8000_0000
    ensures LengthWord(8 * n / 0x1_0000_0000) == 0 <==> n < 0x2000_0000
  {
    var high := 8 * n / 0x1_0000_0000;
    assert high < 4 && (high == 0 <==> n < 0x2000_0000);
    if high == 1 {
      assert LengthWord(1) == 1;
    } else if high == 2 {
      assert LengthWord(2) == 2;
    } else if high == 3 {
      assert LengthWord(3) == 3;
    }
  }

  /** What is hashed is the standard's padded message exactly for messages shorter than 2^29 bytes:
      the high word of the length is always left zero. */
  lemma FedIsPadded(m: seq<bv8>)
    requires |m| < 0x8000_0000
    ensures Fed(m) == Padded(m) <==> |m| < 0x2000_0000
  {
    var q := |m| - |m| % 64;
    WholeBlocks(|m|);
    PaddedSplits(m, q);
    SameStart(ToWords(m[..q]), m[q..], LengthWord(8 * |m| / 0x1_0000_0000), LengthWord(8 * |m|));
    HighWord(|m|);
  }

  lemma SameStart(blocks: seq<Word>, tail: seq<bv8>, high: Word, low: Word)
    requires |tail| < 64
    ensures blocks + Tail(tail, low) == blocks + StandardTail(tail, high, low) <==> high == 0
  {
    TailsAgree(tail, high, low);
    SamePrefix(blocks, Tail(tail, low), StandardTail(tail, high, low));
  }

  lemma SamePrefix(a: seq<Word>, b: seq<Word>, c: seq<Word>)
    ensures a + b == a + c <==> b == c
  {
    assert (a + b)[|a|..] == b && (a + c)[|a|..] == c;
  }

  /** All the blocks before `at` are in the hash. */
  ghost predicate BlocksDone(src: seq<bv8>, at: nat, h: Hash) {
    at <= |src| && at % 64 == 0 && at % 4 == 0 && h == HashWords(INITIAL, ToWords(src[..at]))
  }

  /** Hashing the block at `at` takes the loop one block further. */
  lemma NextBlock(src: seq<bv8>, at: nat, h: Hash)
    requires at + 64 <= |src| && BlocksDone(src, at, h)
    ensures BlocksDone(src, at + 64, Compress(h, ToWords(src[at..at + 64])))
  {
    var block := src[at..at + 64];
    MultipleOfFour(at);
    assert src[..at + 64] == src[..at] + block;
    PackConcat(src[..at], block, ToWord);
    WholeWords(at);
    HashWordsConcat(INITIAL, ToWords(src[..at]), ToWords(block));
    OneBlock(h, ToWords(block));
  }

  lemma MultipleOfFour(at: nat)
    requires at % 64 == 0
    ensures at % 4 == 0 && (at + 64) % 4 == 0
  {
    assert at == 4 * (16 * (at / 64));
  }

  lemma WholeWords(at: nat)
    requires at % 64 == 0
    ensures (at / 4) % 16 == 0
  {
    assert at / 4 == 16 * (at / 64);
  }

  /** One turn of the loop over whole blocks. */
  method HashBlock(src: seq<bv8>, at: nat, h: Hash, w: array<Word>) returns (result: Hash)
    requires w.Length == 80 && at + 64 <= |src|
    modifies w
    ensures result == Compress(h, ToWords(src[at..at + 64]))
  {
    LoadBlock(src, at, w);
    result := InnerHash(h, w, ToWords(src[at..at + 64]));
  }

  /** What follows the loop. */
  method HashRest(src: seq<bv8>, at: nat, h: Hash, w: array<Word>) returns (result: Hash)
    requires w.Length == 80 && |src| - 64 < at && BlocksDone(src, at, h)
    modifies w
    ensures result == HashWords(INITIAL, Fed(src))
  {
    LastBlock(|src|, at);
    FedHashes(src, at);
    result := HashTail(h, w, src[at..], |src|);
  }

  method Calc(src: seq<bv8>, hash: array<bv8>)
    requires |src| < 0x8000_0000 && hash.Length == 20
    modifies hash
    ensures hash[..] == Output(HashWords(INITIAL, Fed(src)))
    ensures |src| < 0x2000_0000 ==> hash[..] == Output(Digest(src))
  {
    var result := Hash(0x67452301, 0xefcdab89, 0x98badcfe, 0x10325476, 0xc3d2e1f0);
    var w := new Word[80];
    var endOfFullBlocks := |src| - 64;
    var currentBlock := 0;
    assert src[..0] == [];
    while currentBlock <= endOfFullBlocks
      invariant BlocksDone(src, currentBlock, result)
    {
      NextBlock(src, currentBlock, result);
      result := HashBlock(src, currentBlock, result, w);
      currentBlock := currentBlock + 64;
    }
    result := HashRest(src, currentBlock, result, w);
    FedIsPadded(src);
    StoreHash(result, hash);
  }

  lemma LastBlock(n: nat, at: nat)
    requires at % 64 == 0 && n - 64 < at <= n
    ensures at == n - n % 64
  {
    assert n == 64 * (at / 64) + (n - at);
  }

  lemma FedHashes(src: seq<bv8>, at: nat)
    requires at <= |src| && at == |src| - |src| % 64
    ensures at % 4 == 0
    ensures HashWords(HashWords(INITIAL, ToWords(src[..at])), Tail(src[at..], LengthWord(8 * |src|))) == HashWords(INITIAL, Fed(src))
  {
    WholeBlocks(|src|);
    WholeWords(at);
    HashWordsConcat(INITIAL, ToWords(src[..at]), Tail(src[at..], LengthWord(8 * |src|)));
  }

  /** The last bytes, the 0x80 byte and zeros. */
  method BuildTail(w: array<Word>, tail: seq<bv8>)
    requires w.Length == 80 && |tail| < 64
    modifies w
    ensures w[..16] == ToWords(TailBlock(tail))
  {
    ClearWBuffert(w);
    var lastBlockBytes := 0;
    ghost var bytes := Zeros(64);
    assert tail[..0] + Zeros(64) == bytes;
    while lastBlockBytes < |tail|
      invariant 0 <= lastBlockBytes <= |tail|
      invariant |bytes| == 64 && bytes == tail[..lastBlockBytes] + Zeros(64 - lastBlockBytes)
      invariant w[..16] == ToWords(bytes)
    {
      NextByte(tail, lastBlockBytes, bytes);
      OrByte(w, lastBlockBytes, tail[lastBlockBytes], bytes);
      bytes := bytes[lastBlockBytes := tail[lastBlockBytes]];
      lastBlockBytes := lastBlockBytes + 1;
    }
    EndByte(tail, bytes);
    OrByte(w, lastBlockBytes, 0x80, bytes);
  }

  /** The last block or two. */
  method HashTail(h: Hash, w: array<Word>, tail: seq<bv8>, byteLength: nat) returns (result: Hash)
    requires w.Length == 80 && |tail| < 64
    modifies w
    ensures result == HashWords(h, Tail(tail, LengthWord(8 * byteLength)))
  {
    result := h;
    BuildTail(w, tail);
    ghost var block := ToWords(TailBlock(tail));
    if |tail| >= 56 {
      result := InnerHash(result, w, block);
      ClearWBuffert(w);
      block := ToWords(Zeros(64));
    }
    w[15] := LengthWord(8 * byteLength);
    block := block[15 := LengthWord(8 * byteLength)];
    assert w[..16] == block;
    result := InnerHash(result, w, block);
    TailHashes(h, tail, LengthWord(8 * byteLength));
  }

  lemma NextByte(tail: seq<bv8>, i: nat, bytes: seq<bv8>)
    requires i < |tail| < 64 && bytes == tail[..i] + Zeros(64 - i)
    ensures bytes[i] == 0 && bytes[i := tail[i]] == tail[..i + 1] + Zeros(64 - (i + 1))
  {
  }

  lemma EndByte(tail: seq<bv8>, bytes: seq<bv8>)
    requires |tail| < 64 && bytes == tail[..|tail|] + Zeros(64 - |tail|)
    ensures bytes[|tail|] == 0 && bytes[|tail| := 0x80] == TailBlock(tail)
  {
    assert tail[..|tail|] == tail;
  }

  lemma TailHashes(h: Hash, tail: seq<bv8>, length: Word)
    requires |tail| < 64
    ensures var block := ToWords(TailBlock(tail));
      HashWords(h, Tail(tail, length)) ==
      if |tail| < 56 then Compress(h, block[15 := length])
      else Compress(Compress(h, block), ToWords(Zeros(64))[15 := length])
  {
    var block := ToWords(TailBlock(tail));
    if |tail| < 56 {
      OneBlock(h, block[15 := length]);
    } else {
      var last := ToWords(Zeros(64))[15 := length];
      HashWordsConcat(h, block, last);
      OneBlock(h, block);
      OneBlock(Compress(h, block), last);
    }
  }

  function HashWord(h: Hash, i: nat): Word
    requires i < 5
  {
    if i == 0 then h.a else if i == 1 then h.b else if i == 2 then h.c else if i == 3 then h.d else h.e
  }

  function ByteAt(w: Word, i: nat): bv8
    requires i < 4
  {
    if i == 0 then Byte0(w) else if i == 1 then Byte1(w) else if i == 2 then Byte2(w) else Byte3(w)
  }

  lemma FiveParts(a: seq<bv8>, b: seq<bv8>, c: seq<bv8>, d: seq<bv8>, e: seq<bv8>, j: nat, k: nat)
    requires |a| == |b| == |c| == |d| == |e| == 4 && j < 5 && k < 4
    ensures (a + b + c + d + e)[4 * j + k] ==
      (if j == 0 then a else if j == 1 then b else if j == 2 then c else if j == 3 then d else e)[k]
  {
  }

  lemma OutputAt(h: Hash, i: nat)
    requires i < 20
    ensures Output(h)[i] == ByteAt(HashWord(h, i / 4), i % 4)
  {
    FiveParts(WordBytes(h.a), WordBytes(h.b), WordBytes(h.c), WordBytes(h.d), WordBytes(h.e), i / 4, i % 4);
    WordByteAt(HashWord(h, i / 4), i % 4);
  }

  lemma WordByteAt(w: Word, k: nat)
    requires k < 4
    ensures WordBytes(w)[k] == ByteAt(w, k)
  {
  }

  /** The digest bytes, last to first. */
  method StoreHash(result: Hash, hash: array<bv8>)
    requires hash.Length == 20
    modifies hash
    ensures hash[..] == Output(result)
  {
    var hashByte := 20;
    while hashByte > 0
      invariant 0 <= hashByte <= 20 && forall k :: hashByte <= k < 20 ==> hash[k] == Output(result)[k]
    {
      hashByte := hashByte - 1;
      var word := HashWord(result, hashByte / 4);
      OutputAt(result, hashByte);
      hash[hashByte] := ByteAt(word, hashByte % 4);
    }
  }
}
