/** The table of contents of a container: finding a document by its name. */
module ContainerEntries {
  import opened Outcomes
  import opened Bits
  import opened Container

  /** A name as the UTF-16 code units it is stored in. */
  type Unit = u: int | 0 <= u < 0x1_0000
  type Name = seq<Unit>

  /** An offset as a record stores it. */
  type Place = n: int | 0 <= n < 0x1_0000_0000

  function UnitOf(low: Byte, high: Byte): (u: Unit)
  {
    var l: int, h: int := low, high;
    l + 0x100 * h
  }

  const RECORD := 12
  const DESCRIPTION_HEADER := 20

  function LittleEndian(b: seq<Byte>): (n: nat)
  {
    if b == [] then 0 else b[0] + 0x100 * LittleEndian(b[1..])
  }

  /** Code units up to the first zero; an odd last byte is not read. */
  function NameUnits(b: seq<Byte>): (name: Name)
    ensures 0 !in name
  {
    if |b| < 2 || (b[0] == 0 && b[1] == 0) then [] else [UnitOf(b[0], b[1])] + NameUnits(b[2..])
  }

  /** Surrogates stand in pairs, a high one before a low one. */
  predicate ValidUtf16(name: Name)
    decreases |name|
  {
    if name == [] then true
    else if 0xD800 <= name[0] < 0xDC00 then |name| > 1 && 0xDC00 <= name[1] < 0xE000 && ValidUtf16(name[2..])
    else !(0xDC00 <= name[0] < 0xE000) && ValidUtf16(name[1..])
  }

  /** The document of the first record, from position `i` of the contents on, whose description bears the name. */
  function Find(
      container: seq<Byte>, toc: seq<Byte>, i: nat, wanted: Name, limit: nat): (r: Result<Option<seq<Byte>>, Damage>)
    decreases |toc| - i
  {
    if i + RECORD > |toc| then Ok(None)
    else if LittleEndian(toc[i + 8..i + 12]) != NO_NEXT then Err(BadMarker)
    else
      var description :- Document(container, LittleEndian(toc[i..i + 4]), 0, limit);
      if |description| < DESCRIPTION_HEADER then Err(ShortDescription)
      else
        var name := NameUnits(description[DESCRIPTION_HEADER..]);
        if !ValidUtf16(name) then Err(BadName)
        else if name == wanted then
          var data :- Document(container, LittleEndian(toc[i + 4..i + 8]), 0, limit);
          Ok(Some(data))
        else Find(container, toc, i + RECORD, wanted, limit)
  }

  function Entry(container: seq<Byte>, wanted: Name, limit: nat): (r: Result<Option<seq<Byte>>, Damage>)
  {
    if |container| < TOC_OFFSET then Err(ShortContainer)
    else
      var toc :- Document(container, TOC_OFFSET, TOC_MINIMUM, limit);
      if |toc| % RECORD != 0 then Err(PartialRecord) else Find(container, toc, 0, wanted, limit)
  }

  method ReadName(bytes: seq<Byte>) returns (name: Name)
    ensures name == NameUnits(bytes)
  {
    name := [];
    var i := 0;
    assert bytes[0..] == bytes;
    while i + 2 <= |bytes| && !(bytes[i] == 0 && bytes[i + 1] == 0)
      invariant i <= |bytes| && NameUnits(bytes) == name + NameUnits(bytes[i..])
      decreases |bytes| - i
    {
      assert bytes[i..][2..] == bytes[i + 2..];
      name := name + [UnitOf(bytes[i], bytes[i + 1])];
      i := i + 2;
    }
    assert name + [] == name;
  }

  method ReadContainerEntry(
      container: seq<Byte>, wanted: Name, limit: nat) returns (r: Result<Option<seq<Byte>>, Damage>)
    ensures r == Entry(container, wanted, limit)
  {
    hide Document, ValidUtf16, LittleEndian;
    if |container| < TOC_OFFSET {
      return Err(ShortContainer);
    }
    var toc :- ReadDocument(container, TOC_OFFSET, TOC_MINIMUM, limit);
    if |toc| % RECORD != 0 {
      return Err(PartialRecord);
    }
    var i := 0;
    while i + RECORD <= |toc|
      invariant Find(container, toc, i, wanted, limit) == Entry(container, wanted, limit)
      decreases |toc| - i
    {
      if LittleEndian(toc[i + 8..i + 12]) != NO_NEXT {
        return Err(BadMarker);
      }
      var description :- ReadDocument(container, LittleEndian(toc[i..i + 4]), 0, limit);
      if |description| < DESCRIPTION_HEADER {
        return Err(ShortDescription);
      }
      var name := ReadName(description[DESCRIPTION_HEADER..]);
      if !ValidUtf16(name) {
        return Err(BadName);
      }
      if name == wanted {
        var data :- ReadDocument(container, LittleEndian(toc[i + 4..i + 8]), 0, limit);
        return Ok(Some(data));
      }
      i := i + RECORD;
    }
    return Ok(None);
  }

  // ---- a container of files ----

  /** The low `k` bytes of a number, lowest first. */
  function LowBytes(n: nat, k: nat): (b: seq<Byte>)
    ensures |b| == k
  {
    if k == 0 then [] else [n % 0x100] + LowBytes(n / 0x100, k - 1)
  }

  function Power256(k: nat): (p: nat)
  {
    if k == 0 then 1 else 0x100 * Power256(k - 1)
  }

  lemma {:induction false} LowBytesRoundTrip(n: nat, k: nat)
    requires n < Power256(k)
    ensures LittleEndian(LowBytes(n, k)) == n
  {
    if k > 0 {
      LowBytesRoundTrip(n / 0x100, k - 1);
      assert LowBytes(n, k)[1..] == LowBytes(n / 0x100, k - 1);
    }
  }

  function Word(n: Place): (b: seq<Byte>)
    ensures |b| == 4
  {
    LowBytes(n, 4)
  }

  lemma WordRoundTrip(n: Place)
    ensures LittleEndian(Word(n)) == n
  {
    assert Power256(2) == 0x1_0000 && Power256(4) == 0x1_0000_0000;
    LowBytesRoundTrip(n, 4);
  }

  /** A file: its name, its content and where its description and its document start. */
  datatype File = File(name: Name, data: seq<Byte>, description: Place, document: Place)

  predicate Stored(container: seq<Byte>, f: File, limit: nat) {
    && ValidUtf16(f.name) && Document(container, f.document, 0, limit) == Ok(f.data)
    && (match Document(container, f.description, 0, limit)
        case Ok(d) => |d| >= 20 && NameUnits(d[20..]) == f.name
        case Err(_) => false)
  }

  function Record(f: File): (b: seq<Byte>)
    ensures |b| == RECORD
  {
    Word(f.description) + Word(f.document) + Word(NO_NEXT)
  }

  function Contents(files: seq<File>): (toc: seq<Byte>)
    ensures |toc| == RECORD * |files|
  {
    if files == [] then [] else Record(files[0]) + Contents(files[1..])
  }

  function FirstNamed(files: seq<File>, wanted: Name): (r: Option<seq<Byte>>)
  {
    if files == [] then None
    else if files[0].name == wanted then Some(files[0].data)
    else FirstNamed(files[1..], wanted)
  }

  lemma RecordReads(f: File, toc: seq<Byte>, i: nat)
    requires i + RECORD <= |toc| && toc[i..i + RECORD] == Record(f)
    ensures LittleEndian(toc[i..i + 4]) == f.description && LittleEndian(toc[i + 4..i + 8]) == f.document
    ensures LittleEndian(toc[i + 8..i + 12]) == NO_NEXT
  {
    hide LittleEndian, Word;
    WordRoundTrip(f.description);
    WordRoundTrip(f.document);
    WordRoundTrip(NO_NEXT);
    var record := toc[i..i + RECORD];
    assert toc[i..i + 4] == record[0..4] && toc[i + 4..i + 8] == record[4..8] && toc[i + 8..i + 12] == record[8..12];
    assert record[0..4] == Word(f.description) && record[4..8] == Word(f.document) && record[8..12] == Word(NO_NEXT);
  }

  lemma {:induction false} StoredAreFound(
      container: seq<Byte>, toc: seq<Byte>, i: nat, files: seq<File>, wanted: Name, limit: nat)
    requires forall f :: f in files ==> Stored(container, f, limit)
    requires i <= |toc| && toc[i..] == Contents(files)
    ensures Find(container, toc, i, wanted, limit) == Ok(FirstNamed(files, wanted))
    decreases files
  {
    hide Find, Document, Record, Stored;
    if files == [] {
      NothingLeft(container, toc, i, wanted, limit);
    } else {
      assert files[0] in files;
      assert toc[i..i + RECORD] == toc[i..][..RECORD] == Record(files[0]);
      assert toc[i + RECORD..] == toc[i..][RECORD..] == Contents(files[1..]);
      RecordStep(container, toc, i, files[0], wanted, limit);
      if files[0].name != wanted {
        StoredAreFound(container, toc, i + RECORD, files[1..], wanted, limit);
      }
    }
  }

  lemma NothingLeft(container: seq<Byte>, toc: seq<Byte>, i: nat, wanted: Name, limit: nat)
    requires i + RECORD > |toc|
    ensures Find(container, toc, i, wanted, limit) == Ok(None)
  {
  }

  lemma RecordStep(container: seq<Byte>, toc: seq<Byte>, i: nat, f: File, wanted: Name, limit: nat)
    requires Stored(container, f, limit) && i + RECORD <= |toc| && toc[i..i + RECORD] == Record(f)
    ensures Find(container, toc, i, wanted, limit)
         == if f.name == wanted then Ok(Some(f.data)) else Find(container, toc, i + RECORD, wanted, limit)
  {
    hide Document, LittleEndian, ValidUtf16, NameUnits, Record;
    RecordReads(f, toc, i);
  }

  /** From a container of files, asking for a name gives the first file of that name, or none. */
  lemma FilesReadBack(container: seq<Byte>, files: seq<File>, wanted: Name, limit: nat)
    requires |container| >= 16 && (forall f :: f in files ==> Stored(container, f, limit))
    requires Document(container, 16, 0x200, limit) == Ok(Contents(files))
    ensures Entry(container, wanted, limit) == Ok(FirstNamed(files, wanted))
  {
    hide Document, Find, Contents;
    var toc := Contents(files);
    assert toc[0..] == toc;
    StoredAreFound(container, toc, 0, files, wanted, limit);
  }

  /** The bytes of a name. */
  function NameBytes(name: Name): (b: seq<Byte>)
  {
    if name == [] then [] else UnitBytes(name[0]) + NameBytes(name[1..])
  }

  function UnitBytes(u: Unit): (b: seq<Byte>)
    ensures |b| == 2 && UnitOf(b[0], b[1]) == u
  {
    var n: int := u;
    [n % 0x100, n / 0x100]
  }

  lemma {:induction false} NameRoundTrip(name: Name, rest: seq<Byte>)
    requires 0 !in name
    ensures NameUnits(NameBytes(name) + [0, 0] + rest) == name
  {
    hide UnitBytes;
    var bytes := NameBytes(name) + [0, 0] + rest;
    if name != [] {
      assert name[0] in name && (forall u :: u in name[1..] ==> u in name);
      assert bytes[..2] == UnitBytes(name[0]) && bytes[2..] == NameBytes(name[1..]) + [0, 0] + rest;
      assert bytes[0] == bytes[..2][0] && bytes[1] == bytes[..2][1];
      NameRoundTrip(name[1..], rest);
      assert [name[0]] + name[1..] == name;
    }
  }
}
