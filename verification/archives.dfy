/** io.nshusa.rsam.binary.Archive: the entry map of one archive, the codec methods that fill
    and read its buffers, and the file operations on its entries. */
module Archives {
  import opened Wrappers
  import opened Bytes
  import opened EntryMap
  import opened ArchiveFormat

  /** The entry writeFile and replaceFile build for new data: compressed on its own unless the
      archive is extracted, in which case the data is stored as it is. */
  function NewEntry(hash: i32, data: seq<byte>, extracted: bool, z: Compressor): (e: Entry)
    ensures e.hash == hash && e.uncompressedSize == |data| && |e.data| == e.compressedSize
    ensures extracted ==> e.data == data
    ensures !extracted && Reverses(z) ==> z.debzip2(e.data, e.uncompressedSize) == data
  {
    if !extracted then
      var compressed := z.bzip2(data);
      Entry(hash, |data|, |compressed|, compressed)
    else
      Entry(hash, |data|, |data|, data)
  }

  /** What readFile returns for hash h: the first entry whose hash field is h, decompressed to
      its uncompressed size unless the archive is extracted. */
  function FileContents(s: seq<Slot>, h: i32, extracted: bool, z: Compressor): (r: Result<seq<byte>, Error>)
    ensures r.Err? <==> forall i :: 0 <= i < |s| ==> s[i].entry.hash != h
    ensures r.Err? ==> r.error == FileNotFound
    ensures r.Ok? && !extracted && FillsLength(z) ==> |r.value| == s[FindHash(s, h)].entry.uncompressedSize
  {
    var i := FindHash(s, h);
    if i < 0 then Err(FileNotFound)
    else
      var e := s[i].entry;
      Ok(if extracted then e.data else z.debzip2(e.data, e.uncompressedSize))
  }

  /** The CRCs encodeChecksum collects, one per archive in order, or the error of the first
      archive whose encode fails. */
  function Checksums(archives: seq<Archive>, z: Compressor, crc32: seq<byte> -> u32): (r: Result<seq<u32>, Error>)
    reads archives
    ensures r.Ok? ==> |r.value| == |archives|
  {
    if archives == [] then Ok([])
    else
      match Checksums(archives[..|archives| - 1], z, crc32)
      case Err(e) => Err(e)
      case Ok(crcs) =>
        match archives[|archives| - 1].Encoded(z)
        case Err(e) => Err(e)
        case Ok(bytes) => Ok(crcs + [crc32(bytes)])
  }

  class Archive {
    /** The LinkedHashMap from hash to entry, in insertion order. */
    var entries: seq<Slot>
    var extracted: bool

    /** A map never holds a key twice. */
    ghost predicate Valid()
      reads this
    {
      UniqueKeys(entries)
    }

    /** Archive(ArchiveEntry[]): every entry goes in under its own hash, in array order. */
    constructor (es: seq<Entry>)
      ensures entries == PutAll([], es) && !extracted
      ensures Valid() && KeysAreHashes(entries)
    {
      var m: seq<Slot> := [];
      for i := 0 to |es|
        invariant m == PutAll([], es[..i])
      {
        assert es[..i + 1][..i] == es[..i];
        m := Put(m, es[i].hash, es[i]);
      }
      assert es[..|es|] == es;
      PutAllUnique([], es);
      PutAllHashes(es);
      entries := m;
      extracted := false;
    }

    /** What encode produces for the current state. */
    function Encoded(z: Compressor): Result<seq<byte>, Error>
      reads this
    {
      Encoding(Values(entries), extracted, z)
    }

    /** encode: the table and payloads in a buffer of the reserved size (behind two equal
        24-bit lengths unless the archive is extracted, when the whole region is compressed
        and goes behind its raw and compressed lengths instead). */
    method Encode(z: Compressor) returns (r: Result<seq<byte>, Error>)
      ensures r == Encoding(Values(entries), extracted, z)
    {
      var es := Values(entries);
      var size := ReservedSize(es);
      var buffer: array<byte>;
      var pos: nat;
      ghost var header: seq<byte>;
      if !extracted {
        buffer := new byte[size + 6](_ => 0);
        assert buffer[..] == [] + Zeros(buffer.Length);
        WriteBytes(buffer, 0, [], U24(size));
        WriteBytes(buffer, 3, U24(size), U24(size));
        header, pos := U24(size) + U24(size), 6;
      } else {
        buffer := new byte[size](_ => 0);
        assert buffer[..] == [] + Zeros(buffer.Length);
        header, pos := [], 0;
      }
      var fits := WriteRegion(buffer, pos, header, es);
      if !fits {
        return Err(BufferOverflow);
      }
      var bytes := buffer[..];
      if !extracted {
        return Ok(bytes);
      }
      assert bytes == Blob(es).value by {
        assert header + Blob(es).value == Blob(es).value;
      }
      r := Compress(bytes, z);
    }

    /** decode: the container header, then (after decompression when the two lengths differ)
        the table and payloads, put into a new archive in table order. */
    static method Decode(buffer: seq<byte>, z: Compressor) returns (r: Result<Archive, Error>)
      ensures Decoding(buffer, z).Err? ==> r == Err(Decoding(buffer, z).error)
      ensures Decoding(buffer, z).Ok? ==> r.Ok? && fresh(r.value) && r.value.Valid()
      ensures Decoding(buffer, z).Ok? ==> r.Ok? && r.value.extracted == Decoding(buffer, z).value.extracted
      ensures Decoding(buffer, z).Ok? ==> r.Ok? && r.value.entries == PutAll([], Decoding(buffer, z).value.entries)
    {
      if |buffer| < 6 {
        return Err(BufferUnderflow);
      }
      var uncompressedLength := ReadU24(buffer, 0);
      var compressedLength := ReadU24(buffer, 3);
      var b, p, extracted := buffer, 6, false;
      if uncompressedLength != compressedLength {
        if 6 + compressedLength > |buffer| {
          return Err(BufferUnderflow);
        }
        b := z.debzip2(buffer[6 .. 6 + compressedLength], uncompressedLength);
        p := 0;
        extracted := true;
      }
      var parsed := ParseEntries(b, p);
      if parsed.Err? {
        return Err(parsed.error);
      }
      var archive := new Archive(parsed.value);
      archive.extracted := extracted;
      return Ok(archive);
    }

    /** encodeChecksum: the CRC of every archive's encoding as an int, in order, then the low
        16 bits of the fold over them; the first encode that fails ends it. */
    static method EncodeChecksum(archives: seq<Archive>, z: Compressor, crc32: seq<byte> -> u32)
      returns (r: Result<seq<byte>, Error>)
      ensures Checksums(archives, z, crc32).Err? ==> r == Err(Checksums(archives, z, crc32).error)
      ensures Checksums(archives, z, crc32).Ok? ==> r == Ok(Manifest(Checksums(archives, z, crc32).value))
    {
      var crcs := CollectCrcs(archives, z, crc32);
      if crcs.Err? {
        return Err(crcs.error);
      }
      var manifest := WriteManifest(crcs.value);
      return Ok(manifest);
    }

    /** The first loop of encodeChecksum: the CRC of every archive's encoding, in order. */
    static method CollectCrcs(archives: seq<Archive>, z: Compressor, crc32: seq<byte> -> u32)
      returns (r: Result<seq<u32>, Error>)
      ensures r == Checksums(archives, z, crc32)
    {
      var crcs: seq<u32> := [];
      for i := 0 to |archives|
        invariant Checksums(archives[..i], z, crc32) == Ok(crcs)
      {
        var encoded := archives[i].Encode(z);
        ChecksumsStep(archives, i, z, crc32);
        if encoded.Err? {
          ChecksumsKeepError(archives, i + 1, z, crc32);
          return Err(encoded.error);
        }
        crcs := crcs + [crc32(encoded.value)];
      }
      assert archives[..|archives|] == archives;
      return Ok(crcs);
    }

    /** readFile(int): the first entry, in map order, whose hash field is the hash; its data
        decompressed unless the archive is extracted; FileNotFound when there is none. */
    method ReadFile(hash: i32, z: Compressor) returns (r: Result<seq<byte>, Error>)
      ensures r == FileContents(entries, hash, extracted, z)
    {
      for i := 0 to |entries|
        invariant forall j :: 0 <= j < i ==> entries[j].entry.hash != hash
      {
        var entry := entries[i].entry;
        if entry.hash != hash {
          continue;
        }
        if !extracted {
          return Ok(z.debzip2(entry.data, entry.uncompressedSize));
        } else {
          return Ok(entry.data);
        }
      }
      return Err(FileNotFound);
    }

    /** replaceFile(int, int, byte[]) as written: it gives up when the old hash IS present, and
        otherwise replaces under a key that is absent, which changes nothing. */
    method ReplaceFile(oldHash: i32, newHash: i32, data: seq<byte>, z: Compressor) returns (replaced: bool)
      modifies this
      ensures replaced == !HasKey(old(entries), oldHash)
      ensures entries == old(entries) && extracted == old(extracted)
    {
      if HasKey(entries, oldHash) {
        return false;
      }
      var entry := NewEntry(newHash, data, extracted, z);
      entries := Replace(entries, oldHash, entry);
      return true;
    }

    /** replaceFile with the guard the other operations use: give up when the old hash is
        absent, and otherwise store the new entry in the old one's place. */
    method ReplaceFileIntended(oldHash: i32, newHash: i32, data: seq<byte>, z: Compressor) returns (replaced: bool)
      requires Valid()
      modifies this
      ensures Valid() && extracted == old(extracted) && Keys(entries) == Keys(old(entries))
      ensures replaced == HasKey(old(entries), oldHash)
      ensures entries == Replace(old(entries), oldHash, NewEntry(newHash, data, extracted, z))
    {
      var entry := NewEntry(newHash, data, extracted, z);
      ReplaceSpec(entries, oldHash, entry);
      if !HasKey(entries, oldHash) {
        return false;
      }
      entries := Replace(entries, oldHash, entry);
      return true;
    }

    /** writeFile(int, byte[]): the new entry is put under its hash, in place of an existing
        one or at the end. The replaceFile it calls first for a present hash is the one as
        written, which gives up on a present hash and changes nothing; the put does the work. */
    method WriteFile(hash: i32, data: seq<byte>, z: Compressor) returns (written: bool)
      requires Valid()
      modifies this
      ensures written && Valid() && extracted == old(extracted)
      ensures entries == Put(old(entries), hash, NewEntry(hash, data, extracted, z))
    {
      if HasKey(entries, hash) {
        var _ := ReplaceFile(hash, hash, data, z);
      }
      var entry := NewEntry(hash, data, extracted, z);
      PutSpec(entries, hash, entry);
      entries := Put(entries, hash, entry);
      return true;
    }

    /** rename(int, int): the entry stored under the old hash gets the new hash field, under
        the same key and in the same place. */
    method Rename(oldHash: i32, newHash: i32) returns (renamed: bool)
      requires Valid()
      modifies this
      ensures Valid() && extracted == old(extracted) && Keys(entries) == Keys(old(entries))
      ensures renamed == HasKey(old(entries), oldHash)
      ensures !renamed ==> entries == old(entries)
      ensures renamed ==> entries == Replace(old(entries), oldHash, Renamed(Lookup(old(entries), oldHash).value, newHash))
    {
      if !HasKey(entries, oldHash) {
        return false;
      }
      var e := Lookup(entries, oldHash).value;
      ReplaceSpec(entries, oldHash, Renamed(e, newHash));
      entries := Replace(entries, oldHash, Renamed(e, newHash));
      return true;
    }

    /** getEntry(int): the entry stored under the hash, or FileNotFound. */
    function GetEntry(hash: i32): (r: Result<Entry, Error>)
      reads this
      ensures r.Err? <==> hash !in Keys(entries)
      ensures r.Err? ==> r.error == FileNotFound
      ensures r.Ok? ==> exists i :: 0 <= i < |entries| && entries[i] == Slot(hash, r.value)
    {
      if HasKey(entries, hash) then Ok(entries[KeyIndex(entries, hash)].entry) else Err(FileNotFound)
    }

    /** indexOf(int): the position, in map order, of the first entry whose hash field is the
        hash, or -1. */
    method IndexOf(hash: i32) returns (index: int)
      ensures index == FindHash(entries, hash)
    {
      index := 0;
      while index < |entries|
        invariant 0 <= index <= |entries|
        invariant forall j :: 0 <= j < index ==> entries[j].entry.hash != hash
      {
        if entries[index].entry.hash == hash {
          return index;
        }
        index := index + 1;
      }
      return -1;
    }

    /** contains(int): whether the map has the hash as a key. */
    function Contains(hash: i32): (r: bool)
      reads this
      ensures r <==> hash in Keys(entries)
    {
      HasKey(entries, hash)
    }

    /** remove(int): the mapping of the hash goes, the others keep their order. */
    method Remove(hash: i32) returns (removed: bool)
      requires Valid()
      modifies this
      ensures Valid() && extracted == old(extracted)
      ensures removed == HasKey(old(entries), hash)
      ensures entries == WithoutKey(old(entries), hash)
    {
      RemoveSpec(entries, hash);
      if HasKey(entries, hash) {
        entries := EntryMap.Remove(entries, hash);
        return true;
      }
      return false;
    }

    /** getEntryCount(): the number of mappings, which is the number of distinct keys. */
    function GetEntryCount(): (r: nat)
      reads this
      requires Valid()
      ensures r == |Keys(entries)|
    {
      KeyCount(entries);
      |entries|
    }

    /** The table reader of decode: a cursor over the records and a second one over the data
        behind them, each entry's data as long as its recorded compressed size. */
    static method ParseEntries(b: seq<byte>, p: nat) returns (r: Result<seq<Entry>, Error>)
      ensures r == ParseTable(b, p)
    {
      if p + 2 > |b| {
        return Err(BufferUnderflow);
      }
      var n: nat := ReadU16(b, p);
      var ts: nat := p + 2;
      if ts + 10 * n > |b| {
        return Err(IllegalArgument);
      }
      r := ReadEntries(b, ts, n);
    }

    /** The loop of decode over the n records at ts, with the data cursor starting right
        behind the table. */
    static method ReadEntries(b: seq<byte>, ts: nat, n: nat) returns (r: Result<seq<Entry>, Error>)
      requires ts + 10 * n <= |b|
      ensures ts + 10 * n + DataOffset(b, ts, n) > |b| ==> r == Err(BufferUnderflow)
      ensures ts + 10 * n + DataOffset(b, ts, n) <= |b| ==> r == Ok(Entries(b, ts, n, n))
    {
      var es: seq<Entry> := [];
      var d: nat := ts + 10 * n;
      for i := 0 to n
        invariant d == ts + 10 * n + DataOffset(b, ts, i) <= |b|
        invariant es == Entries(b, ts, n, i)
      {
        var entry := ReadEntry(b, ts, n, i, d);
        if entry.None? {
          DataOffsetMono(b, ts, i + 1, n);
          return Err(BufferUnderflow);
        }
        EntriesNext(b, ts, n, i);
        es := es + [entry.value];
        d := d + entry.value.compressedSize;
      }
      return Ok(es);
    }

    /** One turn of the decode loop: record i at ts + 10i, then its data at the data cursor d,
        which underflows when the buffer ends before the recorded compressed size. */
    static method ReadEntry(b: seq<byte>, ts: nat, n: nat, i: nat, d: nat) returns (r: Option<Entry>)
      requires i < n && ts + 10 * n <= |b|
      requires d == ts + 10 * n + DataOffset(b, ts, i) <= |b|
      ensures r.Some? <==> ts + 10 * n + DataOffset(b, ts, i + 1) <= |b|
      ensures r.Some? ==> r.value == EntryAt(b, ts, n, i)
      ensures r.Some? ==> d + r.value.compressedSize == ts + 10 * n + DataOffset(b, ts, i + 1)
    {
      var q: nat := ts + 10 * i;
      var hash := ReadI32(b, q);
      var uncompressedSize := ReadU24(b, q + 4);
      var compressedSize := ReadU24(b, q + 7);
      assert DataOffset(b, ts, i + 1) == DataOffset(b, ts, i) + compressedSize;
      if d + compressedSize > |b| {
        return None;
      }
      return Some(Entry(hash, uncompressedSize, compressedSize, b[d .. d + compressedSize]));
    }
  }

  /** The first loop of encode: 2 bytes of count, 10 per record and the compressed sizes. */
  method ReservedSize(es: seq<Entry>) returns (size: nat)
    ensures size == 2 + 10 * |es| + PayloadSize(es)
  {
    size := 2 + |es| * 10;
    for i := 0 to |es|
      invariant size == 2 + 10 * |es| + Offset(es, i)
    {
      size := size + es[i].compressedSize;
    }
  }

  /** The second loop of encode: one record per entry, in map order. */
  method WriteTable(buffer: array<byte>, pos: nat, ghost written: seq<byte>, es: seq<Entry>)
    requires pos == |written| && pos + 10 * |es| <= buffer.Length
    requires buffer[..] == written + Zeros(buffer.Length - pos)
    modifies buffer
    ensures buffer[..] == written + Table(es) + Zeros(buffer.Length - pos - 10 * |es|)
  {
    for i := 0 to |es|
      invariant buffer[..] == written + TableUpTo(es, i) + Zeros(buffer.Length - pos - 10 * i)
    {
      // putInt(hash), write24Int(uncompressed size), write24Int(compressed size)
      WriteBytes(buffer, pos + 10 * i, written + TableUpTo(es, i), Record(es[i]));
    }
  }

  /** The entry rename stores: the new hash with the old sizes and data. */
  function Renamed(e: Entry, newHash: i32): (r: Entry)
    ensures r.hash == newHash && r.data == e.data
    ensures r.uncompressedSize == e.uncompressedSize && r.compressedSize == e.compressedSize
  {
    Entry(newHash, e.uncompressedSize, e.compressedSize, e.data)
  }

  /** Once an archive's encode fails, the checksum of any longer list fails with that error. */
  lemma {:induction false} ChecksumsKeepError(archives: seq<Archive>, k: nat, z: Compressor, crc32: seq<byte> -> u32)
    requires k <= |archives| && Checksums(archives[..k], z, crc32).Err?
    ensures Checksums(archives, z, crc32) == Checksums(archives[..k], z, crc32)
  {
    if k < |archives| {
      var pre := archives[..|archives| - 1];
      assert pre[..k] == archives[..k];
      ChecksumsKeepError(pre, k, z, crc32);
    } else {
      assert archives[..k] == archives;
    }
  }

  /** What encode returns for each archive, in order. */
  function Encodings(archives: seq<Archive>, z: Compressor): (r: seq<Result<seq<byte>, Error>>)
    reads archives
    ensures |r| == |archives|
  {
    if archives == [] then [] else Encodings(archives[..|archives| - 1], z) + [archives[|archives| - 1].Encoded(z)]
  }

  /** Checksums over a list of encode results: the first loop of encodeChecksum with the
      archives' encodings given. */
  function CrcList(rs: seq<Result<seq<byte>, Error>>, crc32: seq<byte> -> u32): Result<seq<u32>, Error> {
    if rs == [] then Ok([])
    else
      match CrcList(rs[..|rs| - 1], crc32)
      case Err(e) => Err(e)
      case Ok(crcs) =>
        match rs[|rs| - 1]
        case Err(e) => Err(e)
        case Ok(bytes) => Ok(crcs + [crc32(bytes)])
  }

  /** Checksums is CrcList of the archives' encodings. */
  lemma {:induction false} ChecksumsOfEncodings(archives: seq<Archive>, z: Compressor, crc32: seq<byte> -> u32)
    ensures Checksums(archives, z, crc32) == CrcList(Encodings(archives, z), crc32)
  {
    if archives != [] {
      var pre := archives[..|archives| - 1];
      ChecksumsOfEncodings(pre, z, crc32);
      var rs := Encodings(archives, z);
      assert rs[..|rs| - 1] == Encodings(pre, z);
    }
  }

  /** Encoding i is what archive i's encode returns. */
  lemma {:induction false} EncodingsAt(archives: seq<Archive>, z: Compressor)
    ensures forall i :: 0 <= i < |archives| ==> Encodings(archives, z)[i] == archives[i].Encoded(z)
  {
    if archives != [] {
      var pre := archives[..|archives| - 1];
      EncodingsAt(pre, z);
      assert forall i :: 0 <= i < |pre| ==> pre[i] == archives[i];
    }
  }

  /** The CRC list exists exactly when every result is Ok; then CRC i is that of result i, and
      otherwise the error is that of the first failing result. */
  lemma {:induction false} CrcListAt(rs: seq<Result<seq<byte>, Error>>, crc32: seq<byte> -> u32)
    ensures CrcList(rs, crc32).Ok? <==> forall i :: 0 <= i < |rs| ==> rs[i].Ok?
    ensures CrcList(rs, crc32).Ok? ==>
      |CrcList(rs, crc32).value| == |rs| && forall i :: 0 <= i < |rs| ==> CrcList(rs, crc32).value[i] == crc32(rs[i].value)
    ensures CrcList(rs, crc32).Err? ==> exists i ::
      && 0 <= i < |rs|
      && rs[i] == Err(CrcList(rs, crc32).error)
      && (forall j :: 0 <= j < i ==> rs[j].Ok?)
  {
    if rs != [] {
      var n := |rs| - 1;
      var pre := rs[..n];
      CrcListAt(pre, crc32);
      assert forall i :: 0 <= i < n ==> pre[i] == rs[i];
      if CrcList(pre, crc32).Err? {
        var i :| 0 <= i < n && pre[i] == Err(CrcList(pre, crc32).error) && forall j :: 0 <= j < i ==> pre[j].Ok?;
        assert rs[i] == Err(CrcList(rs, crc32).error);
      }
    }
  }

  /** encodeChecksum's CRCs exist exactly when every archive encodes. */
  lemma ChecksumsOk(archives: seq<Archive>, z: Compressor, crc32: seq<byte> -> u32)
    ensures Checksums(archives, z, crc32).Ok? <==> forall i :: 0 <= i < |archives| ==> archives[i].Encoded(z).Ok?
  {
    ChecksumsOfEncodings(archives, z, crc32);
    EncodingsAt(archives, z);
    CrcListAt(Encodings(archives, z), crc32);
  }

  /** CRC i of encodeChecksum is the CRC-32 of archive i's encoding. */
  lemma ChecksumsAt(archives: seq<Archive>, z: Compressor, crc32: seq<byte> -> u32)
    requires Checksums(archives, z, crc32).Ok?
    ensures forall i :: 0 <= i < |archives| ==>
      archives[i].Encoded(z).Ok? && Checksums(archives, z, crc32).value[i] == crc32(archives[i].Encoded(z).value)
  {
    ChecksumsOfEncodings(archives, z, crc32);
    EncodingsAt(archives, z);
    CrcListAt(Encodings(archives, z), crc32);
  }

  /** When encodeChecksum fails, its error is that of the first archive whose encode fails. */
  lemma ChecksumsFirstError(archives: seq<Archive>, z: Compressor, crc32: seq<byte> -> u32)
    requires Checksums(archives, z, crc32).Err?
    ensures exists i ::
      && 0 <= i < |archives|
      && archives[i].Encoded(z) == Err(Checksums(archives, z, crc32).error)
      && (forall j :: 0 <= j < i ==> archives[j].Encoded(z).Ok?)
  {
    ChecksumsOfEncodings(archives, z, crc32);
    EncodingsAt(archives, z);
    CrcListAt(Encodings(archives, z), crc32);
  }

  /** One more archive: its encoding's CRC is appended, or its error ends the list. */
  lemma ChecksumsStep(archives: seq<Archive>, i: nat, z: Compressor, crc32: seq<byte> -> u32)
    requires i < |archives| && Checksums(archives[..i], z, crc32).Ok?
    ensures Checksums(archives[..i + 1], z, crc32) ==
      match archives[i].Encoded(z)
      case Err(e) => Err(e)
      case Ok(bytes) => Ok(Checksums(archives[..i], z, crc32).value + [crc32(bytes)])
  {
    assert archives[..i + 1][..i] == archives[..i];
  }

  /** In a map whose keys are the hashes of their entries, the hash-field scan of indexOf and
      readFile finds exactly the mapping of the key. */
  lemma FindIsKeyIndex(s: seq<Slot>, h: i32)
    requires KeysAreHashes(s)
    ensures FindHash(s, h) == KeyIndex(s, h)
  {
  }

  /** writeFile then readFile returns the data written, whether the archive compresses its
      entries one by one or is extracted. */
  lemma WriteThenRead(s: seq<Slot>, h: i32, data: seq<byte>, extracted: bool, z: Compressor)
    requires UniqueKeys(s) && KeysAreHashes(s) && Reverses(z)
    ensures FileContents(Put(s, h, NewEntry(h, data, extracted, z)), h, extracted, z) == Ok(data)
  {
    var e := NewEntry(h, data, extracted, z);
    PutLookup(s, h, e);
    PutKeepsHashes(s, e);
    FindIsKeyIndex(Put(s, h, e), h);
  }

  /** The intended replaceFile: replacing a present file and reading it back returns the new
      data. */
  lemma ReplaceThenRead(s: seq<Slot>, h: i32, data: seq<byte>, extracted: bool, z: Compressor)
    requires UniqueKeys(s) && KeysAreHashes(s) && HasKey(s, h) && Reverses(z)
    ensures FileContents(Replace(s, h, NewEntry(h, data, extracted, z)), h, extracted, z) == Ok(data)
  {
    ReplaceSpec(s, h, NewEntry(h, data, extracted, z));
    WriteThenRead(s, h, data, extracted, z);
  }

  /** replaceFile as written is inverted: on an archive holding file 7 it reports failure and
      file 7 keeps its old data, where the intended replacement would read back the new data;
      on an archive without file 7 it reports success and file 7 is still missing. */
  lemma ReplaceFileInverted(z: Compressor)
    ensures var s := [Slot(7, Entry(7, 1, 1, [1]))];
      && HasKey(s, 7)
      && FileContents(s, 7, true, z) == Ok([1])
      && FileContents(Replace(s, 7, NewEntry(7, [2], true, z)), 7, true, z) == Ok([2])
    ensures !HasKey([], 7) && FileContents([], 7, true, z) == Err(FileNotFound)
  {
    var s := [Slot(7, Entry(7, 1, 1, [1]))];
    assert KeyIndex(s, 7) == 0;
    assert FindHash(s, 7) == 0;
    var t := Replace(s, 7, NewEntry(7, [2], true, z));
    assert t == [Slot(7, Entry(7, 1, 1, [2]))];
    assert FindHash(t, 7) == 0;
  }

  /** rename keeps the old key but changes the hash field: afterwards contains still sees the
      old hash and not the new one, while indexOf and readFile see the new hash, at the old
      position, and no longer the old one. */
  lemma RenameSplitsLookups(s: seq<Slot>, a: i32, b: i32)
    requires UniqueKeys(s) && KeysAreHashes(s) && HasKey(s, a) && !HasKey(s, b)
    ensures var t := Replace(s, a, Renamed(Lookup(s, a).value, b));
      && HasKey(t, a) && !HasKey(t, b)
      && FindHash(t, a) == -1 && FindHash(t, b) == KeyIndex(s, a)
  {
    var i := KeyIndex(s, a);
    var e := Renamed(s[i].entry, b);
    var t := Replace(s, a, e);
    assert t == s[i := Slot(a, e)];
    ReplaceSpec(s, a, e);
    KeyIndexAt(t, i);
    assert b !in Keys(t);
    forall j | 0 <= j < |t| && j != i
      ensures t[j].entry.hash != a && t[j].entry.hash != b
    {
      assert t[j] == s[j] && s[j].entry.hash == s[j].key;
    }
    assert t[i].entry.hash == b;
  }

  /** After rename(a, b), writeFile(b, x) appends a new mapping under the absent key b, yet
      readFile(b) still returns the renamed entry's old contents: the hash-field scan meets the
      renamed entry, at a's old position, before the new one. */
  lemma RenameThenWriteReadsOld(s: seq<Slot>, a: i32, b: i32, x: seq<byte>, extracted: bool, z: Compressor)
    requires UniqueKeys(s) && KeysAreHashes(s) && HasKey(s, a) && !HasKey(s, b)
    ensures var e := Lookup(s, a).value;
      var t := Replace(s, a, Renamed(e, b));
      var u := Put(t, b, NewEntry(b, x, extracted, z));
      && u == t + [Slot(b, NewEntry(b, x, extracted, z))]
      && FileContents(u, b, extracted, z) == Ok(if extracted then e.data else z.debzip2(e.data, e.uncompressedSize))
  {
    var i := KeyIndex(s, a);
    var e := Lookup(s, a).value;
    var t := Replace(s, a, Renamed(e, b));
    var n := NewEntry(b, x, extracted, z);
    RenameSplitsLookups(s, a, b);
    ReplaceSpec(s, a, Renamed(e, b));
    PutSpec(t, b, n);
    var u := Put(t, b, n);
    assert u == t + [Slot(b, n)];
    FindHashPrefix(t, [Slot(b, n)], b);
    assert t[i].entry == Renamed(e, b);
  }

  /** The hash-field scan stops at the first match: text appended behind one changes nothing. */
  lemma FindHashPrefix(t: seq<Slot>, w: seq<Slot>, h: i32)
    requires FindHash(t, h) >= 0
    ensures FindHash(t + w, h) == FindHash(t, h)
  {
    var i := FindHash(t, h);
    assert (t + w)[i] == t[i];
    forall j | 0 <= j < i
      ensures (t + w)[j].entry.hash != h
    {
      assert (t + w)[j] == t[j];
    }
  }

  /** decode(encode(archive)) gives back the same map, in the same order, and the same
      extracted flag: the Archive that decode builds equals the one encoded. */
  lemma ArchiveRoundTrip(s: seq<Slot>, extracted: bool, z: Compressor)
    requires UniqueKeys(s) && KeysAreHashes(s) && Encodable(Values(s))
    requires extracted ==> Reverses(z) && Encoding(Values(s), true, z).Ok?
    requires extracted ==> 2 + 10 * |s| + PayloadSize(Values(s)) < 0x100_0000
    requires extracted ==> |z.bzip2(Blob(Values(s)).value)| < 0x100_0000
    ensures Encoding(Values(s), extracted, z).Ok?
    ensures var d := Decoding(Encoding(Values(s), extracted, z).value, z);
      d.Ok? && d.value.extracted == extracted && PutAll([], d.value.entries) == s
  {
    if extracted {
      CompressedRoundTrip(Values(s), z);
    } else {
      RawRoundTrip(Values(s), z);
    }
    PutAllValues(s);
  }

  /** The second loop of encodeChecksum: calculated = (calculated << 1) + crc, from 1234. */
  method FoldCrcs(crcs: seq<u32>) returns (calculated: u32)
    ensures calculated == Fold(crcs)
  {
    calculated := 1234;
    for index := 0 to |crcs|
      invariant calculated == Fold(crcs[..index])
    {
      assert crcs[..index + 1][..index] == crcs[..index];
      calculated := (2 * calculated + crcs[index]) % 0x1_0000_0000;
    }
    assert crcs[..|crcs|] == crcs;
  }

  /** The buffer of encodeChecksum, 4 bytes per CRC and 4 more: the CRCs, then the low 16 bits
      of their fold. */
  method WriteManifest(crcs: seq<u32>) returns (manifest: seq<byte>)
    ensures manifest == Manifest(crcs)
  {
    var n := |crcs|;
    var buffer := new byte[4 * n + 4](_ => 0);
    WriteCrcs(buffer, crcs);
    var calculated := FoldCrcs(crcs);
    WriteBytes(buffer, 4 * n, CrcBytes(crcs), U16(calculated));
    return buffer[..];
  }

  /** The putInt of every CRC into the manifest buffer, which has room for one more int. */
  method WriteCrcs(buffer: array<byte>, crcs: seq<u32>)
    requires buffer.Length == 4 * |crcs| + 4 && buffer[..] == Zeros(buffer.Length)
    modifies buffer
    ensures buffer[..] == CrcBytes(crcs) + Zeros(4)
  {
    assert buffer[..] == CrcBytes([]) + Zeros(buffer.Length);
    for i := 0 to |crcs|
      invariant buffer[..] == CrcBytes(crcs[..i]) + Zeros(buffer.Length - 4 * i)
    {
      WriteBytes(buffer, 4 * i, CrcBytes(crcs[..i]), I32(crcs[i]));
      assert crcs[..i + 1][..i] == crcs[..i];
    }
    assert crcs[..|crcs|] == crcs;
  }

  /** The count, the table and the payloads, written behind the header into a buffer that
      has exactly the reserved room for them. */
  method WriteRegion(buffer: array<byte>, pos: nat, ghost header: seq<byte>, es: seq<Entry>) returns (fits: bool)
    requires pos == |header| && buffer.Length == pos + 2 + 10 * |es| + PayloadSize(es)
    requires buffer[..] == header + Zeros(buffer.Length - pos)
    modifies buffer
    ensures fits <==> Blob(es).Ok?
    ensures fits ==> buffer[..] == header + Blob(es).value
  {
    WriteBytes(buffer, pos, header, U16(|es|));
    WriteTable(buffer, pos + 2, header + U16(|es|), es);
    fits := WritePayloads(buffer, pos + 2 + 10 * |es|, header + U16(|es|) + Table(es), es);
    if fits {
      assert buffer[..] == header + Blob(es).value;
    }
  }

  /** The extracted branch of encode: the whole region compressed behind its raw and
      compressed lengths, refused when compression leaves the length unchanged. */
  method Compress(unzipped: seq<byte>, z: Compressor) returns (r: Result<seq<byte>, Error>)
    ensures var zipped := z.bzip2(unzipped);
      r == if |zipped| == |unzipped| then Err(CompressionFailure)
           else Ok(U24(|unzipped|) + U24(|zipped|) + zipped)
  {
    var zipped := z.bzip2(unzipped);
    if |unzipped| == |zipped| {
      return Err(CompressionFailure);
    }
    var out := new byte[|zipped| + 6](_ => 0);
    assert out[..] == [] + Zeros(out.Length);
    WriteBytes(out, 0, [], U24(|unzipped|));
    WriteBytes(out, 3, U24(|unzipped|), U24(|zipped|));
    WriteBytes(out, 6, U24(|unzipped|) + U24(|zipped|), zipped);
    assert out[..] == U24(|unzipped|) + U24(|zipped|) + zipped by {
      assert U24(|unzipped|) + U24(|zipped|) + zipped + Zeros(0) == U24(|unzipped|) + U24(|zipped|) + zipped;
    }
    return Ok(out[..]);
  }

  /** The third loop of encode: every entry's data, in map order; false when a put overflows
      the buffer because the data is longer than the reserved room. */
  method WritePayloads(buffer: array<byte>, pos: nat, ghost written: seq<byte>, es: seq<Entry>) returns (fits: bool)
    requires pos == |written| <= buffer.Length
    requires buffer[..] == written + Zeros(buffer.Length - pos)
    modifies buffer
    ensures fits <==> pos + |Payload(es)| <= buffer.Length
    ensures fits ==> buffer[..] == written + Payload(es) + Zeros(buffer.Length - pos - |Payload(es)|)
  {
    var d: nat := pos;
    for i := 0 to |es|
      invariant d == pos + |PayloadUpTo(es, i)| <= buffer.Length
      invariant buffer[..] == written + PayloadUpTo(es, i) + Zeros(buffer.Length - d)
    {
      if d + |es[i].data| > buffer.Length {
        PayloadGrows(es, i + 1, |es|);
        return false;
      }
      WriteBytes(buffer, d, written + PayloadUpTo(es, i), es[i].data);
      d := d + |es[i].data|;
    }
    return true;
  }

  /** ByteBuffer.put (and putInt, putShort, write24Int) at the position right after what has
      been written so far, in a buffer that ByteBuffer.allocate filled with zeros. */
  method WriteBytes(buffer: array<byte>, pos: nat, ghost written: seq<byte>, src: seq<byte>)
    requires pos == |written| && pos + |src| <= buffer.Length
    requires buffer[..] == written + Zeros(buffer.Length - pos)
    modifies buffer
    ensures buffer[..] == written + src + Zeros(buffer.Length - pos - |src|)
  {
    for j := 0 to |src|
      invariant buffer[..] == written + src[..j] + Zeros(buffer.Length - pos - j)
    {
      buffer[pos + j] := src[j];
      assert buffer[..] == written + src[..j + 1] + Zeros(buffer.Length - pos - j - 1);
    }
    assert src[..|src|] == src;
  }
}
