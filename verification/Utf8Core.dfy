/** Reading one character of a byte range. */
module Utf8Core {
  import opened Utf8Spec

  // An iterator is an index `it` into the buffer `s`; the end of the range is `|s|`.

  datatype Error =
    | Ok | NotEnoughRoom | InvalidLead | IncompleteSequence | OverlongSequence | InvalidCodePoint

  predicate IsTrail(b: Octet) {
    b >> 6 == 0x2
  }

  predicate IsSurrogate(cp: CodePoint) {
    0xd800 <= cp && cp <= 0xdfff
  }

  predicate IsCodePointValid(cp: CodePoint) {
    cp <= 0x10ffff && !IsSurrogate(cp)
  }

  function SequenceLength(lead: Octet): nat {
    if lead < 0x80 then 1
    else if lead >> 5 == 0x6 then 2
    else if lead >> 4 == 0xe then 3
    else if lead >> 3 == 0x1e then 4
    else 0
  }

  predicate IsOverlongSequence(cp: CodePoint, length: nat) {
    if cp < 0x80 then length != 1
    else if cp < 0x800 then length != 2
    else if cp < 0x10000 then length != 3
    else false
  }

  /** What is wrong with the start of a non-empty string, told from the syntax of RFC 3629. */
  function Diagnose(r: seq<Octet>): Error
    requires r != []
  {
    var n := SequenceLength(r[0]);
    if CharLength(r) > 0 then Ok
    else if n == 0 then InvalidLead
    else if n > 1 && |r| > 1 && !Tail(r[1]) then IncompleteSequence
    else if n > 1 && |r| == 1 then NotEnoughRoom
    else if n > 2 && |r| > 2 && !Tail(r[2]) then IncompleteSequence
    else if n > 2 && |r| == 2 then NotEnoughRoom
    else if n > 3 && |r| > 3 && !Tail(r[3]) then IncompleteSequence
    else if n > 3 && |r| == 3 then NotEnoughRoom
    else if IsScalar(RawValue(r, n)) then OverlongSequence
    else InvalidCodePoint
  }

  /** The bits of the first `n` octets, whether or not they form a character. */
  function RawValue(r: seq<Octet>, n: nat): CodePoint
    requires n <= |r|
  {
    if n == 2 then Bits2(r[0], r[1])
    else if n == 3 then Bits3(r[0], r[1], r[2])
    else if n == 4 then Bits4(r[0], r[1], r[2], r[3])
    else 0
  }

  lemma TrailIsTail(b: Octet)
    ensures IsTrail(b) == Tail(b)
  {
  }

  /** The shift-and-add formulas of get_sequence_2 to 4 put the octets' low bits side by side. */
  lemma Formula2(a: Octet, b: Octet)
    requires SequenceLength(a) == 2 && Tail(b)
    ensures ((a as bv32 << 6) & 0x7ff) + ((b & 0x3f) as bv32) == Bits2(a, b)
    ensures Char2(a, b) <==> IsCodePointValid(Bits2(a, b)) && !IsOverlongSequence(Bits2(a, b), 2)
  {
  }

  lemma Formula3(a: Octet, b: Octet, c: Octet)
    requires SequenceLength(a) == 3 && Tail(b) && Tail(c)
    ensures ((a as bv32 << 12) & 0xffff) + ((b as bv32 << 6) & 0xfff) + ((c & 0x3f) as bv32) == Bits3(a, b, c)
    ensures Char3(a, b, c) <==> IsCodePointValid(Bits3(a, b, c)) && !IsOverlongSequence(Bits3(a, b, c), 3)
  {
  }

  lemma Formula4(a: Octet, b: Octet, c: Octet, d: Octet)
    requires SequenceLength(a) == 4 && Tail(b) && Tail(c) && Tail(d)
    ensures ((a as bv32 << 18) & 0x1fffff) + ((b as bv32 << 12) & 0x3ffff)
            + ((c as bv32 << 6) & 0xfff) + ((d & 0x3f) as bv32) == Bits4(a, b, c, d)
    ensures Char4(a, b, c, d) <==> IsCodePointValid(Bits4(a, b, c, d)) && !IsOverlongSequence(Bits4(a, b, c, d), 4)
  {
  }

  /** A character starts with a lead octet of its own length. */
  lemma LeadOfChar(r: seq<Octet>)
    requires CharLength(r) > 0
    ensures SequenceLength(r[0]) == CharLength(r)
  {
    LeadRanges(r[0]);
  }

  lemma LeadRanges(a: Octet)
    ensures SequenceLength(a) == 1 <==> a <= 0x7f
    ensures SequenceLength(a) == 2 <==> 0xc0 <= a <= 0xdf
    ensures SequenceLength(a) == 3 <==> 0xe0 <= a <= 0xef
    ensures SequenceLength(a) == 4 <==> 0xf0 <= a <= 0xf7
    ensures SequenceLength(a) > 0 ==> !Tail(a)
  {
  }

  method IncreaseSafely(s: seq<Octet>, it0: nat) returns (err: Error, it: nat)
    requires it0 < |s|
    ensures it == it0 + 1
    ensures err == if it == |s| then NotEnoughRoom else if !Tail(s[it]) then IncompleteSequence else Ok
  {
    it := it0 + 1;
    if it == |s| {
      return NotEnoughRoom, it;
    }
    TrailIsTail(s[it]);
    if !IsTrail(s[it]) {
      return IncompleteSequence, it;
    }
    return Ok, it;
  }

  method GetSequence2(s: seq<Octet>, it0: nat) returns (err: Error, it: nat, cp: CodePoint)
    requires it0 < |s| && SequenceLength(s[it0]) == 2
    ensures err == Ok <==> it0 + 1 < |s| && Tail(s[it0 + 1])
    ensures err == Ok ==> it == it0 + 1 && cp == Bits2(s[it0], s[it0 + 1])
    ensures err != Ok ==> err == Diagnose(s[it0..])
  {
    it, cp := it0, s[it0] as bv32;
    err, it := IncreaseSafely(s, it);
    if err != Ok { return; }
    cp := ((cp << 6) & 0x7ff) + ((s[it] & 0x3f) as bv32);
    Formula2(s[it0], s[it0 + 1]);
  }

  method GetSequence3(s: seq<Octet>, it0: nat) returns (err: Error, it: nat, cp: CodePoint)
    requires it0 < |s| && SequenceLength(s[it0]) == 3
    ensures err == Ok <==> it0 + 2 < |s| && Tail(s[it0 + 1]) && Tail(s[it0 + 2])
    ensures err == Ok ==> it == it0 + 2 && cp == Bits3(s[it0], s[it0 + 1], s[it0 + 2])
    ensures err != Ok ==> err == Diagnose(s[it0..])
  {
    it, cp := it0, s[it0] as bv32;
    err, it := IncreaseSafely(s, it);
    if err != Ok { return; }
    cp := ((cp << 12) & 0xffff) + ((s[it] as bv32 << 6) & 0xfff);
    err, it := IncreaseSafely(s, it);
    if err != Ok { return; }
    cp := cp + ((s[it] & 0x3f) as bv32);
    Formula3(s[it0], s[it0 + 1], s[it0 + 2]);
  }

  method GetSequence4(s: seq<Octet>, it0: nat) returns (err: Error, it: nat, cp: CodePoint)
    requires it0 < |s| && SequenceLength(s[it0]) == 4
    ensures err == Ok <==> it0 + 3 < |s| && Tail(s[it0 + 1]) && Tail(s[it0 + 2]) && Tail(s[it0 + 3])
    ensures err == Ok ==> it == it0 + 3 && cp == Bits4(s[it0], s[it0 + 1], s[it0 + 2], s[it0 + 3])
    ensures err != Ok ==> err == Diagnose(s[it0..])
  {
    it, cp := it0, s[it0] as bv32;
    err, it := IncreaseSafely(s, it);
    if err != Ok { return; }
    cp := ((cp << 18) & 0x1fffff) + ((s[it] as bv32 << 12) & 0x3ffff);
    err, it := IncreaseSafely(s, it);
    if err != Ok { return; }
    cp := cp + ((s[it] as bv32 << 6) & 0xfff);
    err, it := IncreaseSafely(s, it);
    if err != Ok { return; }
    cp := cp + ((s[it] & 0x3f) as bv32);
    Formula4(s[it0], s[it0 + 1], s[it0 + 2], s[it0 + 3]);
  }

  /** validate_next: reads one character if the range starts with one, and tells what is wrong,
      leaving the iterator where it was and the code point 0 the callers passed in, if not. */
  method ValidateNext(s: seq<Octet>, it0: nat) returns (err: Error, it: nat, cp: CodePoint)
    requires it0 < |s|
    ensures err == Diagnose(s[it0..])
    ensures err == Ok <==> exists e :: it0 < e <= |s| && Utf8Char(s[it0..e])
    ensures err == Ok ==> it0 < it <= |s| && Utf8Char(s[it0..it]) && cp == CharValue(s[it0..it])
    ensures err != Ok ==> it == it0 && cp == 0
  {
    it := it0;
    var length := SequenceLength(s[it]);
    LeadRanges(s[it]);
    err, cp := Ok, 0;
    var found: CodePoint := 0;
    ghost var r := s[it0..];
    if length == 0 {
      NotAChar(s, it0);
      return InvalidLead, it, cp;
    } else if length == 1 {
      found := s[it] as bv32;
    } else if length == 2 {
      err, it, found := GetSequence2(s, it);
      if err == Ok { Formula2(r[0], r[1]); }
    } else if length == 3 {
      err, it, found := GetSequence3(s, it);
      if err == Ok { Formula3(r[0], r[1], r[2]); }
    } else {
      err, it, found := GetSequence4(s, it);
      if err == Ok { Formula4(r[0], r[1], r[2], r[3]); }
    }
    NotAChar(s, it0);
    if err == Ok {
      if IsCodePointValid(found) {
        if !IsOverlongSequence(found, length) {
          it, cp := it + 1, found;
          assert s[it0..it] == r[..length];
          return Ok, it, cp;
        } else {
          err := OverlongSequence;
        }
      } else {
        err := InvalidCodePoint;
      }
    }
    it := it0;
  }

  lemma NotAChar(s: seq<Octet>, it: nat)
    requires it < |s|
    ensures Diagnose(s[it..]) == Ok <==> exists e :: it < e <= |s| && Utf8Char(s[it..e])
  {
    var r := s[it..];
    if CharLength(r) > 0 {
      assert r[..CharLength(r)] == s[it..it + CharLength(r)];
    }
    if e :| it < e <= |s| && Utf8Char(s[it..e]) {
      assert r[..e - it] == s[it..e];
    }
  }
}
