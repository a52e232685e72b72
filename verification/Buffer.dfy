/** Remotery's growable byte buffer. */
module Buffers {
  import opened Words

  // The framing of binary messages, and the number formats they are written in. The buffer is an
  // array that is replaced by a larger one when a write does not fit; its contents are the bytes in
  // use.

  /** `a` rounded up to a multiple of the granularity. */
  function RoundedUp(a: nat, g: nat): (r: nat)
    requires a > 0 && g > 0
    ensures a <= r < a + g && r % g == 0
  {
    RoundUp(a, g);
    a + ((g - 1) - (a - 1) % g)
  }

  lemma RoundUp(a: int, g: nat)
    requires g > 0
    ensures var r := a + ((g - 1) - (a - 1) % g); a <= r < a + g && r % g == 0
  {
    var q := (a - 1) / g;
    assert a - 1 == g * q + (a - 1) % g;
    MulDistribute(g, q, -1);
    ModUnique(g * (q + 1), g, q + 1, 0);
  }

  lemma WrapSmall(a: nat)
    requires a < WORD
    ensures Wrap32(a) == a
  {
  }

  /** Masking with 3 is the remainder by four. */
  lemma MaskThree(x: nat)
    ensures BitAnd(x, 3) == x % 4
  {
    MaskIsMod(x, 2);
  }

  /** A 32-bit value as four bytes, least significant first. */
  function U32ToBytes(value: nat): (bytes: seq<Byte>)
    requires value < WORD
    ensures |bytes| == 4
  {
    [value % 0x100, value / 0x100 % 0x100, value / 0x1_0000 % 0x100, value / 0x100_0000]
  }

  function BytesToU32(bytes: seq<Byte>): (value: nat)
    requires |bytes| == 4
    ensures value < WORD
  {
    (bytes[0] as int) + 0x100 * (bytes[1] as int) + 0x1_0000 * (bytes[2] as int) + 0x100_0000 * (bytes[3] as int)
  }

  lemma U32RoundTrip(value: nat)
    requires value < WORD
    ensures BytesToU32(U32ToBytes(value)) == value
  {
    var high := value / 0x100;
    assert value / 0x1_0000 == high / 0x100 && value / 0x100_0000 == high / 0x1_0000;
    assert high / 0x1_0000 == high / 0x100 / 0x100;
  }

  lemma PadAmount(used: nat)
    ensures BitAnd(used, 3) < 4
    ensures var k := BitAnd(4 - BitAnd(used, 3), 3); k < 4 && (used + k) % 4 == 0
  {
    MaskThree(used);
    MaskThree(4 - used % 4);
  }

  /** A finished message: its four-byte name, its own padded size in bytes, its body, and up to three
      bytes of padding. */
  ghost predicate IsMessage(bytes: seq<Byte>, id: seq<Byte>, body: seq<Byte>) {
    && |id| == 4 && 8 + |body| <= |bytes| < 8 + |body| + 4 && |bytes| < WORD
    && |bytes| % 4 == 0
    && bytes[..4] == id
    && BytesToU32(bytes[4..8]) == |bytes|
    && bytes[8..8 + |body|] == body
  }

  lemma PatchedIsMessage(before: seq<Byte>, after: seq<Byte>, id: seq<Byte>, size: nat)
    requires |id| == 4 && 8 <= |before| <= |after| < |before| + 4 && |after| % 4 == 0
    requires size == |after| < WORD
    requires before[..4] == id && after[..4] == id && after[8..|before|] == before[8..]
    requires size < WORD && after[4..8] == U32ToBytes(size)
    ensures IsMessage(after, id, before[8..])
  {
    U32RoundTrip(size);
    assert 8 + |before[8..]| == |before|;
  }

  /** Four bytes of a string replaced, seen from `start`. */
  lemma PatchedParts(padded: seq<Byte>, start: nat, word: seq<Byte>)
    requires start + 8 <= |padded| && |word| == 4
    ensures var now := (padded[..start + 4] + word + padded[start + 8..])[start..];
      now[..4] == padded[start..start + 4] && now[4..8] == word && now[8..] == padded[start + 8..]
  {
  }

  lemma PatchIsMessage(before: seq<Byte>, padded: seq<Byte>, after: seq<Byte>, start: nat, id: seq<Byte>, size: nat)
    requires |id| == 4 && start + 8 <= |before| <= |padded| < |before| + 4 && padded[..|before|] == before
    requires size == |padded| - start && size % 4 == 0 && size < WORD
    requires before[start..start + 4] == id
    requires after == padded[..start + 4] + U32ToBytes(size) + padded[start + 8..]
    ensures |after| == |padded| && after[..start] == before[..start]
    ensures IsMessage(after[start..], id, before[start + 8..])
  {
    var was, now := before[start..], after[start..];
    forall i | 0 <= i < |before| ensures padded[i] == before[i] {
      assert padded[..|before|][i] == before[i];
    }
    assert was[..4] == id;
    PatchedParts(padded, start, U32ToBytes(size));
    assert now[..4] == id by {
      assert padded[start..start + 4] == was[..4];
    }
    assert now[8..|was|] == was[8..] by {
      assert padded[start + 8..][..|was| - 8] == was[8..];
    }
    PatchedIsMessage(was, now, id, size);
    assert was[8..] == before[start + 8..];
  }

  /** The messages of a log file, found by reading sizes. */
  ghost function Frames(stream: seq<Byte>): seq<seq<Byte>>
    decreases |stream|
  {
    if |stream| < 8 then []
    else
      var size := BytesToU32(stream[4..8]);
      if size < 8 || size > |stream| then [] else [stream[..size]] + Frames(stream[size..])
  }

  ghost function Concat(messages: seq<seq<Byte>>): seq<Byte> {
    if messages == [] then [] else messages[0] + Concat(messages[1..])
  }

  ghost predicate IsSomeMessage(bytes: seq<Byte>) {
    exists id: seq<Byte>, body: seq<Byte> :: IsMessage(bytes, id, body)
  }

  /** Whatever messages are written one after another, reading the size fields finds exactly them. */
  lemma {:induction false} FramesFindMessages(messages: seq<seq<Byte>>)
    requires forall m :: m in messages ==> IsSomeMessage(m)
    ensures Frames(Concat(messages)) == messages
  {
    if messages != [] {
      var first, rest := messages[0], messages[1..];
      var stream := Concat(messages);
      assert IsSomeMessage(first);
      var id: seq<Byte>, body: seq<Byte> :| IsMessage(first, id, body);
      assert stream[4..8] == first[4..8];
      assert stream[..|first|] == first && stream[|first|..] == Concat(rest);
      FramesFindMessages(rest);
    }
  }

  class Buffer {
    var allocGranularity: nat
    var bytesAllocated: nat
    var bytesUsed: nat
    var data: array<Byte>

    ghost predicate Valid()
      reads this
    {
      && allocGranularity > 0 && bytesAllocated % allocGranularity == 0 && bytesAllocated < WORD
      && bytesUsed <= bytesAllocated == data.Length
    }

    ghost function Contents(): seq<Byte>
      requires Valid()
      reads this, data
    {
      data[..bytesUsed]
    }

    /** Growing for `length` more bytes overflows no 32-bit size. */
    ghost predicate Room(length: nat)
      reads this
    {
      bytesAllocated + length + allocGranularity <= WORD
    }

    constructor (allocGranularity: nat)
      requires allocGranularity > 0
      ensures Valid() && Contents() == [] && this.allocGranularity == allocGranularity && bytesAllocated == 0
      ensures fresh(data)
    {
      this.allocGranularity := allocGranularity;
      bytesAllocated := 0;
      bytesUsed := 0;
      data := new Byte[0];
      new;
      ModUnique(0, allocGranularity, 0, 0);
    }

    method Grow(length: nat)
      requires Valid() && Room(length) && length > 0
      modifies this`bytesAllocated, this`data
      ensures Valid() && Contents() == old(Contents()) && fresh(data)
      ensures old(bytesAllocated) + length <= bytesAllocated < old(bytesAllocated) + length + allocGranularity
    {
      WrapSmall(bytesAllocated + length);
      var allocate := Wrap32(bytesAllocated + length);
      WrapSmall(RoundedUp(allocate, allocGranularity));
      allocate := Wrap32(RoundedUp(allocate, allocGranularity));
      bytesAllocated := allocate;
      var reallocated := new Byte[allocate];
      forall i | 0 <= i < data.Length {
        reallocated[i] := data[i];
      }
      data := reallocated;
    }

    /** Make room for `length` more bytes if there is not enough. */
    method Reserve(length: nat)
      requires Valid() && Room(length)
      modifies this`bytesAllocated, this`data
      ensures Valid() && Contents() == old(Contents()) && bytesUsed + length <= bytesAllocated
      ensures data == old(data) || fresh(data)
      ensures bytesAllocated <= old(bytesAllocated) + length + allocGranularity
    {
      if bytesUsed + length > bytesAllocated {
        Grow(length);
      }
    }

    method Write(bytes: seq<Byte>)
      requires Valid() && Room(|bytes|)
      modifies this`bytesAllocated, this`bytesUsed, this`data, data
      ensures Valid() && Contents() == old(Contents()) + bytes
      ensures data == old(data) || fresh(data)
      ensures bytesAllocated <= old(bytesAllocated) + |bytes| + allocGranularity
    {
      Reserve(|bytes|);
      ghost var before := Contents();
      forall i | 0 <= i < |bytes| {
        data[bytesUsed + i] := bytes[i];
      }
      bytesUsed := bytesUsed + |bytes|;
      assert Contents()[..|before|] == before;
    }

    /** Step over `length` bytes, whatever they hold. */
    method Pad(length: nat)
      requires Valid() && Room(length)
      modifies this`bytesAllocated, this`bytesUsed, this`data
      ensures Valid() && bytesUsed == old(bytesUsed) + length && Contents()[..old(bytesUsed)] == old(Contents())
      ensures data == old(data) || fresh(data)
      ensures bytesAllocated <= old(bytesAllocated) + length + allocGranularity
    {
      Reserve(length);
      ghost var before := Contents();
      bytesUsed := bytesUsed + length;
      assert Contents()[..|before|] == before;
    }

    /** Step to a position a multiple of four bytes after `startPos`. */
    method AlignedPad(startPos: nat)
      requires Valid() && Room(3) && startPos <= bytesUsed
      modifies this`bytesAllocated, this`bytesUsed, this`data
      ensures Valid() && old(bytesUsed) <= bytesUsed < old(bytesUsed) + 4 && (bytesUsed - startPos) % 4 == 0
      ensures Contents()[..old(bytesUsed)] == old(Contents())
      ensures data == old(data) || fresh(data)
      ensures bytesAllocated <= old(bytesAllocated) + 3 + allocGranularity
    {
      var used := bytesUsed - startPos;
      PadAmount(used);
      Pad(BitAnd(4 - BitAnd(used, 3), 3));
    }

    method WriteU32(value: nat)
      requires Valid() && Room(4) && value < WORD
      modifies this`bytesAllocated, this`bytesUsed, this`data, data
      ensures Valid() && Contents() == old(Contents()) + U32ToBytes(value)
      ensures data == old(data) || fresh(data)
      ensures bytesAllocated <= old(bytesAllocated) + 4 + allocGranularity
    {
      Write(U32ToBytes(value));
    }

    /** Start a message: its name, and four bytes to hold its size. */
    method MessageHeader(id: seq<Byte>) returns (writeStartOffset: nat)
      requires Valid() && Room(8 + allocGranularity) && |id| == 4
      modifies this`bytesAllocated, this`bytesUsed, this`data, data
      ensures Valid() && writeStartOffset == old(bytesUsed)
      ensures Contents() == old(Contents()) + id + [32, 32, 32, 32]
      ensures data == old(data) || fresh(data)
      ensures bytesAllocated <= old(bytesAllocated) + 8 + 2 * allocGranularity
    {
      writeStartOffset := bytesUsed;
      Write(id);
      Write([32, 32, 32, 32]);
    }

    /** End the message started at `writeStartOffset`: pad it and patch its size. */
    method MessageFooter(writeStartOffset: nat, ghost id: seq<Byte>)
      requires Valid() && Room(3) && writeStartOffset + 8 <= bytesUsed && |id| == 4
      requires Contents()[writeStartOffset..writeStartOffset + 4] == id
      modifies this`bytesAllocated, this`bytesUsed, this`data, data
      ensures Valid() && writeStartOffset + 8 <= bytesUsed
      ensures Contents()[..writeStartOffset] == old(Contents())[..writeStartOffset]
      ensures IsMessage(Contents()[writeStartOffset..], id, old(Contents())[writeStartOffset + 8..])
      ensures data == old(data) || fresh(data)
    {
      ghost var before := Contents();
      AlignedPad(writeStartOffset);
      var size := bytesUsed - writeStartOffset;
      ghost var padded := Contents();
      PutU32(writeStartOffset + 4, size);
      PatchIsMessage(before, padded, Contents(), writeStartOffset, id, size);
    }

    /** Overwrite four bytes with a 32-bit value, least significant byte first. */
    method PutU32(offset: nat, value: nat)
      requires Valid() && offset + 4 <= bytesUsed && value < WORD
      modifies data
      ensures Contents() == old(Contents())[..offset] + U32ToBytes(value) + old(Contents())[offset + 4..]
    {
      ghost var before := Contents();
      var valueBytes := U32ToBytes(value);
      forall i | 0 <= i < 4 {
        data[offset + i] := valueBytes[i];
      }
    }
  }
}
