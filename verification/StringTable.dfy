/** Remotery's string table. */
module StringTables {
  import opened Options
  import opened Words
  import opened Buffers
  import HashTable

  // The names of samples, stored once per hash in a growing buffer and found again through the hash
  // table. A name is a string of non-zero bytes; its hash is given.

  const MAX_NAME := 2048

  /** A name as C holds it: bytes before the terminating zero. */
  predicate IsName(name: seq<Byte>) {
    0 !in name
  }

  /** What `strnlen_s` counts of a name followed by its terminator. */
  method BoundedLength(name: seq<Byte>, limit: nat) returns (count: nat)
    requires IsName(name)
    ensures count == if |name| < limit then |name| else limit
  {
    count := 0;
    var left := limit;
    var memory := name + [0];
    while memory[count] != 0 && left != 0
      invariant count + left == limit && count <= |name|
      decreases left
    {
      count := count + 1;
      left := left - 1;
    }
  }

  /** The bytes one insertion appends: at most 2049, the last of them the terminator only when the
      name is no longer than 2048. */
  function Stored(name: seq<Byte>): (s: seq<Byte>)
    ensures |s| <= MAX_NAME + 1
  {
    if |name| <= MAX_NAME then name + [0] else name[..MAX_NAME + 1]
  }

  /** The C string that starts at `offset`: up to the first zero, if there is one. */
  function CString(text: seq<Byte>, offset: nat): (r: Option<seq<Byte>>)
    decreases |text| - offset
  {
    if offset >= |text| then None
    else if text[offset] == 0 then Some([])
    else match CString(text, offset + 1)
      case None => None
      case Some(rest) => Some([text[offset]] + rest)
  }

  predicate StoredAt(text: seq<Byte>, offset: nat, bytes: seq<Byte>) {
    offset + |bytes| <= |text| && text[offset..offset + |bytes|] == bytes
  }

  /** Bytes without a zero are part of the string that starts at them. */
  lemma {:induction false} CStringSkips(text: seq<Byte>, offset: nat, bytes: seq<Byte>)
    requires IsName(bytes) && StoredAt(text, offset, bytes)
    ensures CString(text, offset) ==
      match CString(text, offset + |bytes|) case None => None case Some(rest) => Some(bytes + rest)
    decreases |bytes|
  {
    if bytes != [] {
      var b := text[offset..offset + |bytes|];
      assert b[0] == bytes[0] && b[0] in bytes;
      assert text[offset + 1..offset + |bytes|] == b[1..] == bytes[1..];
      forall x | x in bytes[1..] ensures x in bytes {
      }
      CStringSkips(text, offset + 1, bytes[1..]);
      if CString(text, offset + |bytes|).Some? {
        var rest := CString(text, offset + |bytes|).value;
        assert [text[offset]] + (bytes[1..] + rest) == bytes + rest;
      }
    } else {
      if CString(text, offset).Some? {
        assert bytes + CString(text, offset).value == CString(text, offset).value;
      }
    }
  }

  /** The first 2049 bytes of a name and then the string after them, if there is one. */
  function RunOn(name: seq<Byte>, next: Option<seq<Byte>>): Option<seq<Byte>>
    requires |name| > MAX_NAME
  {
    if next.None? then None else Some(name[..MAX_NAME + 1] + next.value)
  }

  /** What reading back a stored name gives: the name itself up to 2048 bytes; beyond that its first
      2049 bytes run on into whatever string was stored next. */
  lemma ReadBack(text: seq<Byte>, offset: nat, name: seq<Byte>)
    requires IsName(name) && StoredAt(text, offset, Stored(name))
    ensures |name| <= MAX_NAME ==> CString(text, offset) == Some(name)
    ensures |name| > MAX_NAME ==> CString(text, offset) == RunOn(name, CString(text, offset + MAX_NAME + 1))
  {
    if |name| <= MAX_NAME {
      var s := text[offset..offset + |name| + 1];
      assert s[..|name|] == name && s[|name|] == 0;
      assert text[offset..offset + |name|] == s[..|name|];
      CStringSkips(text, offset, name);
      assert text[offset + |name|] == 0;
      assert name + [] == name;
    } else {
      forall x | x in name[..MAX_NAME + 1] ensures x in name {
      }
      CStringSkips(text, offset, name[..MAX_NAME + 1]);
    }
  }

  /** So of a name just inserted, at the end of the text, the string read back is the name exactly
      when the name has at most 2048 bytes. */
  lemma ReadBackExactly(text: seq<Byte>, name: seq<Byte>)
    requires IsName(name)
    ensures CString(text + Stored(name), |text|) == Some(name) <==> |name| <= MAX_NAME
  {
    var all := text + Stored(name);
    assert all[|text|..|text| + |Stored(name)|] == Stored(name);
    ReadBack(all, |text|, name);
  }

  /** Each hash with a name has that name's bytes at its offset. */
  ghost predicate NamesStored(text: seq<Byte>, offsets: map<nat, nat>, names: map<nat, seq<Byte>>) {
    && (forall h :: h in offsets <==> h in names)
    && (forall h :: h in names ==> IsName(names[h]) && StoredAt(text, offsets[h], Stored(names[h])))
  }

  lemma NameAdded(text: seq<Byte>, offsets: map<nat, nat>, names: map<nat, seq<Byte>>, hash: nat, name: seq<Byte>)
    requires NamesStored(text, offsets, names) && hash !in names && IsName(name)
    ensures NamesStored(text + Stored(name), offsets[hash := |text|], names[hash := name])
  {
    var text', offsets', names' := text + Stored(name), offsets[hash := |text|], names[hash := name];
    forall h | h in names' ensures IsName(names'[h]) && StoredAt(text', offsets'[h], Stored(names'[h])) {
      if h != hash {
        StoredStays(text, Stored(name), offsets[h], Stored(names[h]));
      } else {
        assert text'[|text|..|text| + |Stored(name)|] == Stored(name);
      }
    }
  }

  class StringTable {
    const text: Buffer
    const textMap: HashTable.Table
    ghost var Names: map<nat, seq<Byte>>  // the first name given for each hash

    ghost predicate Valid()
      reads this, text, text.data, textMap, textMap.slots
    {
      && text.Valid() && textMap.Valid() && text.data as object != textMap.slots as object
      && NamesStored(text.Contents(), textMap.Contents, Names)
    }

    /** Room for one more name: neither the buffer nor the hash table outgrows its 32-bit sizes. */
    ghost predicate Room()
      reads this, text, textMap
    {
      text.Room(MAX_NAME + 1) && textMap.maxNbSlots <= HashTable.MOST_SLOTS
    }

    constructor ()
      ensures Valid() && Names == map[] && fresh(text) && fresh(textMap) && fresh(text.data) && fresh(textMap.slots)
      ensures Room()
    {
      text := new Buffer(8 * 1024);
      assert Pow2(5) == 32;
      Pow2Add(5, 5);
      textMap := new HashTable.Table(1024, 10);
      Names := map[];
    }

    /** Where in the text the name of a hash starts. */
    method Find(nameHash: nat) returns (offset: Option<nat>)
      requires Valid() && nameHash < WORD
      ensures offset.Some? <==> nameHash in Names
      ensures offset.Some? ==> StoredAt(text.Contents(), offset.value, Stored(Names[nameHash]))
      ensures offset.Some? && |Names[nameHash]| <= MAX_NAME ==>
        CString(text.Contents(), offset.value) == Some(Names[nameHash])
    {
      var textOffset := textMap.Find(nameHash);
      if textOffset != HashTable.NOT_FOUND {
        ReadBack(text.Contents(), textOffset, Names[nameHash]);
        return Some(textOffset);
      }
      return None;
    }

    /** Store a name under its hash unless the hash has one already. */
    method Insert(nameHash: nat, name: seq<Byte>) returns (inserted: bool)
      requires Valid() && Room() && 0 < nameHash < WORD && IsName(name)
      modifies this, text, text.data, textMap, textMap.slots
      ensures Valid() && inserted == (nameHash !in old(Names))
      ensures Names == if inserted then old(Names)[nameHash := name] else old(Names)
      ensures text.data == old(text.data) || fresh(text.data)
      ensures textMap.slots == old(textMap.slots) || fresh(textMap.slots)
    {
      var textOffset := textMap.Find(nameHash);
      if textOffset != HashTable.NOT_FOUND {
        return false;
      }
      StoreName(nameHash, name);
      return true;
    }

    /** A name for a hash that has none. */
    method StoreName(nameHash: nat, name: seq<Byte>)
      requires Valid() && Room() && 0 < nameHash < WORD && IsName(name) && nameHash !in Names
      modifies this, text, text.data, textMap, textMap.slots
      ensures Valid() && Names == old(Names)[nameHash := name]
      ensures text.data == old(text.data) || fresh(text.data)
      ensures textMap.slots == old(textMap.slots) || fresh(textMap.slots)
    {
      var textOffset := text.bytesUsed;
      NameAdded(text.Contents(), textMap.Contents, Names, nameHash, name);
      WriteStringZ(name);
      assert textMap.Valid() && text.data as object != textMap.slots as object;
      textMap.Insert(nameHash, textOffset);
      Names := Names[nameHash := name];
    }

    method WriteStringZ(name: seq<Byte>)
      requires text.Valid() && text.Room(MAX_NAME + 1) && IsName(name)
      modifies text, text.data
      ensures text.Valid() && text.Contents() == old(text.Contents()) + Stored(name)
      ensures text.data == old(text.data) || fresh(text.data)
    {
      var length := BoundedLength(name, MAX_NAME);
      var memory := name + [0];
      assert memory[..length + 1] == Stored(name);
      text.Write(memory[..length + 1]);
    }
  }

  /** Appending moves nothing already stored. */
  lemma StoredStays(before: seq<Byte>, more: seq<Byte>, offset: nat, bytes: seq<Byte>)
    requires StoredAt(before, offset, bytes)
    ensures StoredAt(before + more, offset, bytes)
  {
    assert (before + more)[offset..offset + |bytes|] == before[offset..offset + |bytes|];
  }
}
