/** The archive container byte format (Archive.encode / Archive.decode) and the checksum
    manifest (Archive.encodeChecksum) as functions on byte sequences, with their layout and
    round-trip properties. The methods of module Archives are proved against these. */
module ArchiveFormat {
  import opened Wrappers
  import opened Bytes
  import opened EntryMap

  /** The exceptions the codec can raise, and the not-found of the entry lookups. */
  datatype Error =
    | BufferUnderflow     // a ByteBuffer read past its limit
    | BufferOverflow      // a ByteBuffer write past its capacity
    | IllegalArgument     // ByteBuffer.position set past the limit
    | CompressionFailure  // encode: the bzip2 output is as long as its input
    | FileNotFound        // readFile / getEntry: no such entry

  /** CompressionUtil.bzip2 and CompressionUtil.debzip2, which are not part of this model:
      debzip2(c, n) stands for the n-byte array that debzip2 fills from the compressed bytes c
      (FillsLength states that length; only the lemmas that speak of it require it). */
  datatype Compressor = Compressor(bzip2: seq<byte> -> seq<byte>, debzip2: (seq<byte>, nat) -> seq<byte>)

  /** debzip2 fills an array of the length it is given, so what it returns has that length. */
  ghost predicate FillsLength(z: Compressor) {
    forall c, n :: |z.debzip2(c, n)| == n
  }

  /** The one thing the codec relies on: decompressing to the original length undoes compression. */
  ghost predicate Reverses(z: Compressor) {
    forall x :: z.debzip2(z.bzip2(x), |x|) == x
  }

  /** What decode reads before it builds the Archive object: the entries in table order and
      the extracted flag. */
  datatype Decoded = Decoded(entries: seq<Entry>, extracted: bool)

  // =======================================================================================
  // Encoding

  /** One 10-byte record of the entry table: hash, uncompressed size, compressed size. */
  function Record(e: Entry): (r: seq<byte>)
    ensures |r| == 10
  {
    I32(e.hash) + U24(e.uncompressedSize) + U24(e.compressedSize)
  }

  /** The first k records of the entry table, in map order. */
  function TableUpTo(es: seq<Entry>, k: nat): (r: seq<byte>)
    requires k <= |es|
    ensures |r| == 10 * k
  {
    if k == 0 then [] else TableUpTo(es, k - 1) + Record(es[k - 1])
  }

  /** The entry table: every record, in map order. */
  function Table(es: seq<Entry>): (r: seq<byte>)
    ensures |r| == 10 * |es|
  {
    TableUpTo(es, |es|)
  }

  /** The data of the first k entries, in map order. */
  function PayloadUpTo(es: seq<Entry>, k: nat): seq<byte>
    requires k <= |es|
  {
    if k == 0 then [] else PayloadUpTo(es, k - 1) + es[k - 1].data
  }

  /** The payload region: every entry's data, in map order. */
  function Payload(es: seq<Entry>): seq<byte> {
    PayloadUpTo(es, |es|)
  }

  /** The sum of the compressed sizes of the first k entries: where entry k's data starts. */
  function Offset(es: seq<Entry>, k: nat): nat
    requires k <= |es|
  {
    if k == 0 then 0 else Offset(es, k - 1) + es[k - 1].compressedSize
  }

  /** The room encode reserves for the payloads: the sum of the compressed sizes. */
  function PayloadSize(es: seq<Entry>): nat {
    Offset(es, |es|)
  }

  /** Every entry's data is exactly as long as its compressed size says. */
  ghost predicate SizesMatch(es: seq<Entry>) {
    forall i :: 0 <= i < |es| ==> |es[i].data| == es[i].compressedSize
  }

  /** Every entry fits the format: sizes in 24 bits and data as long as the compressed size. */
  ghost predicate Encodable(es: seq<Entry>) {
    && |es| < 0x1_0000
    && SizesMatch(es)
    && SizesFit(es)
  }

  /** The table and payload region that encode builds in a buffer of 2 + 10n + PayloadSize
      bytes: the 16-bit count, the records, the payloads, and zeros for whatever the payloads
      do not fill. The buffer overflows when the payloads are longer than the sizes say. */
  function Blob(es: seq<Entry>): Result<seq<byte>, Error> {
    if |Payload(es)| > PayloadSize(es) then Err(BufferOverflow)
    else Ok(U16(|es|) + Table(es) + Payload(es) + Zeros(PayloadSize(es) - |Payload(es)|))
  }

  /** Archive.encode. Not extracted: the raw region behind two equal 24-bit lengths.
      Extracted: the region is compressed and must shrink (or change length), and the output
      is the raw length, the compressed length and the compressed bytes. */
  function Encoding(es: seq<Entry>, extracted: bool, z: Compressor): Result<seq<byte>, Error> {
    match Blob(es)
    case Err(e) => Err(e)
    case Ok(blob) =>
      if !extracted then Ok(U24(|blob|) + U24(|blob|) + blob)
      else
        var zipped := z.bzip2(blob);
        if |zipped| == |blob| then Err(CompressionFailure)
        else Ok(U24(|blob|) + U24(|zipped|) + zipped)
  }

  // =======================================================================================
  // Decoding

  /** Sum of the compressed-size fields of the first k records of the table at ts. */
  function DataOffset(b: seq<byte>, ts: nat, k: nat): nat
    requires ts + 10 * k <= |b|
  {
    if k == 0 then 0 else DataOffset(b, ts, k - 1) + ReadU24(b, ts + 10 * (k - 1) + 7)
  }

  lemma {:induction false} DataOffsetMono(b: seq<byte>, ts: nat, j: nat, k: nat)
    requires j <= k && ts + 10 * k <= |b|
    ensures DataOffset(b, ts, j) <= DataOffset(b, ts, k)
  {
    if j < k {
      DataOffsetMono(b, ts, j, k - 1);
    }
  }

  /** Entry i of the table at ts with n records: its record, and the data the second cursor
      reads for it, which starts right after the data of the entries before it. */
  function EntryAt(b: seq<byte>, ts: nat, n: nat, i: nat): Entry
    requires i < n && ts + 10 * n <= |b| && ts + 10 * n + DataOffset(b, ts, i + 1) <= |b|
  {
    var q := ts + 10 * i;
    var ds := ts + 10 * n;
    Entry(ReadI32(b, q), ReadU24(b, q + 4), ReadU24(b, q + 7),
          b[ds + DataOffset(b, ts, i) .. ds + DataOffset(b, ts, i + 1)])
  }

  /** The first k of the n entries of the table at ts, in table order. */
  function Entries(b: seq<byte>, ts: nat, n: nat, k: nat): (r: seq<Entry>)
    requires k <= n && ts + 10 * n <= |b| && ts + 10 * n + DataOffset(b, ts, k) <= |b|
    ensures |r| == k
  {
    seq(k, i requires 0 <= i < k => DataOffsetMono(b, ts, i + 1, k); EntryAt(b, ts, n, i))
  }

  /** Reading one more record appends it. */
  lemma EntriesNext(b: seq<byte>, ts: nat, n: nat, k: nat)
    requires k < n && ts + 10 * n <= |b| && ts + 10 * n + DataOffset(b, ts, k + 1) <= |b|
    ensures ts + 10 * n + DataOffset(b, ts, k) <= |b|
    ensures Entries(b, ts, n, k + 1) == Entries(b, ts, n, k) + [EntryAt(b, ts, n, k)]
  {
    DataOffsetMono(b, ts, k, k + 1);
    var r := Entries(b, ts, n, k + 1);
    forall i | 0 <= i < k
      ensures r[i] == Entries(b, ts, n, k)[i]
    {
      EntriesAt(b, ts, n, k + 1, i);
      EntriesAt(b, ts, n, k, i);
    }
    EntriesAt(b, ts, n, k + 1, k);
  }

  /** The table and payload region starting at position p of buffer b: a 16-bit count n, n
      records, and the payloads behind them. */
  function ParseTable(b: seq<byte>, p: nat): Result<seq<Entry>, Error> {
    if p + 2 > |b| then Err(BufferUnderflow)
    else
      var n := ReadU16(b, p);
      var ts := p + 2;
      if ts + 10 * n > |b| then Err(IllegalArgument)
      else if ts + 10 * n + DataOffset(b, ts, n) > |b| then Err(BufferUnderflow)
      else Ok(Entries(b, ts, n, n))
  }

  /** Archive.decode (before the entries go into the map). Two different lengths mean a
      compressed container, which is decompressed and parsed from its start; two equal
      lengths mean the rest of the buffer is the raw region. */
  function Decoding(b: seq<byte>, z: Compressor): Result<Decoded, Error> {
    if |b| < 6 then Err(BufferUnderflow)
    else
      var uncompressedLength := ReadU24(b, 0);
      var compressedLength := ReadU24(b, 3);
      if uncompressedLength != compressedLength then
        if 6 + compressedLength > |b| then Err(BufferUnderflow)
        else
          match ParseTable(z.debzip2(b[6..6 + compressedLength], uncompressedLength), 0)
          case Err(e) => Err(e)
          case Ok(es) => Ok(Decoded(es, true))
      else
        match ParseTable(b, 6)
        case Err(e) => Err(e)
        case Ok(es) => Ok(Decoded(es, false))
  }

  // =======================================================================================
  // Checksum manifest

  /** The scrambled checksum: seeded at 1234, then acc := (acc << 1) + crc in Java int
      arithmetic, kept here as the unsigned value of its 32 bits. */
  function Fold(crcs: seq<u32>): u32 {
    if crcs == [] then 1234
    else (2 * Fold(crcs[..|crcs| - 1]) + crcs[|crcs| - 1]) % 0x1_0000_0000
  }

  /** The CRCs, each as a big-endian int. */
  function CrcBytes(crcs: seq<u32>): (r: seq<byte>)
    ensures |r| == 4 * |crcs|
  {
    if crcs == [] then [] else CrcBytes(crcs[..|crcs| - 1]) + I32(crcs[|crcs| - 1])
  }

  /** The manifest buffer of 4n + 4 bytes: the CRCs, the low 16 bits of the fold, and the
      two bytes of the allocation that nothing writes. */
  function Manifest(crcs: seq<u32>): seq<byte> {
    CrcBytes(crcs) + U16(Fold(crcs)) + Zeros(2)
  }

  // =======================================================================================
  // Properties of the encoding

  lemma {:induction false} TableAt(es: seq<Entry>, k: nat, i: nat)
    requires i < k <= |es|
    ensures TableUpTo(es, k)[10 * i .. 10 * i + 10] == Record(es[i])
  {
    if i < k - 1 {
      TableAt(es, k - 1, i);
      var t := TableUpTo(es, k - 1);
      assert TableUpTo(es, k)[10 * i .. 10 * i + 10] == t[10 * i .. 10 * i + 10];
    }
  }

  lemma {:induction false} OffsetMono(es: seq<Entry>, i: nat, k: nat)
    requires i <= k <= |es|
    ensures Offset(es, i) <= Offset(es, k)
  {
    if i < k {
      OffsetMono(es, i, k - 1);
    }
  }

  lemma {:induction false} PayloadLength(es: seq<Entry>, k: nat)
    requires k <= |es| && SizesMatch(es)
    ensures |PayloadUpTo(es, k)| == Offset(es, k)
  {
    if k > 0 {
      PayloadLength(es, k - 1);
    }
  }

  /** The data written so far only grows. */
  lemma {:induction false} PayloadGrows(es: seq<Entry>, j: nat, k: nat)
    requires j <= k <= |es|
    ensures |PayloadUpTo(es, j)| <= |PayloadUpTo(es, k)|
  {
    if j < k {
      PayloadGrows(es, j, k - 1);
    }
  }

  /** Entry i's data sits in the payload region between Offset(es, i) and Offset(es, i + 1). */
  lemma {:induction false} PayloadAt(es: seq<Entry>, k: nat, i: nat)
    requires i < k <= |es| && SizesMatch(es)
    ensures Offset(es, i + 1) <= |PayloadUpTo(es, k)|
    ensures PayloadUpTo(es, k)[Offset(es, i) .. Offset(es, i + 1)] == es[i].data
  {
    PayloadLength(es, k - 1);
    PayloadLength(es, k);
    if i < k - 1 {
      PayloadAt(es, k - 1, i);
      var ps := PayloadUpTo(es, k - 1);
      assert PayloadUpTo(es, k) == ps + es[k - 1].data;
      PrefixSlice(ps, es[k - 1].data, Offset(es, i), Offset(es, i + 1));
    }
  }

  lemma PrefixSlice(a: seq<byte>, c: seq<byte>, lo: nat, hi: nat)
    requires lo <= hi <= |a|
    ensures (a + c)[lo .. hi] == a[lo .. hi]
  {
  }

  /** The size encode computes and writes into both header fields when not extracted. */
  lemma BlobLength(es: seq<Entry>)
    requires Blob(es).Ok?
    ensures |Blob(es).value| == 2 + 10 * |es| + PayloadSize(es)
  {
  }

  /** encode with extracted == false: 6 + S bytes, where S = 2 + 10n + the sum of the
      compressed sizes; both 24-bit header fields hold S; then the 16-bit count. It fails only
      when the payloads are longer than their sizes. */
  lemma RawEncodingHeader(es: seq<Entry>, z: Compressor)
    ensures Encoding(es, false, z).Ok? <==> |Payload(es)| <= PayloadSize(es)
    ensures Encoding(es, false, z).Ok? ==>
      var r := Encoding(es, false, z).value;
      var s := 2 + 10 * |es| + PayloadSize(es);
      && |r| == 6 + s
      && ReadU24(r, 0) == s % 0x100_0000 && ReadU24(r, 3) == s % 0x100_0000
      && ReadU16(r, 6) == |es| % 0x1_0000
  {
    if Encoding(es, false, z).Ok? {
      var blob := Blob(es).value;
      var r := Encoding(es, false, z).value;
      var s := |blob|;
      var rest := Table(es) + Payload(es) + Zeros(PayloadSize(es) - |Payload(es)|);
      assert blob == U16(|es|) + rest;
      assert ReadU24(r, 0) == s % 0x100_0000 by {
        assert r == [] + U24(s) + (U24(s) + blob);
        U24RoundTrip(s, [], U24(s) + blob);
      }
      assert ReadU24(r, 3) == s % 0x100_0000 by {
        assert r == U24(s) + U24(s) + blob;
        U24RoundTrip(s, U24(s), blob);
      }
      assert ReadU16(r, 6) == |es| % 0x1_0000 by {
        assert r == (U24(s) + U24(s)) + U16(|es|) + rest;
        U16RoundTrip(|es|, U24(s) + U24(s), rest);
      }
    }
  }

  /** encode with extracted == false, after the header: record i at 8 + 10i, then the
      payloads in the same order, then zeros where the payloads fall short of their sizes. */
  lemma RawEncodingBody(es: seq<Entry>, z: Compressor)
    requires Encoding(es, false, z).Ok?
    ensures var r := Encoding(es, false, z).value;
      var ds := 8 + 10 * |es|;
      && ds + |Payload(es)| <= |r|
      && (forall i :: 0 <= i < |es| ==> r[8 + 10 * i .. 18 + 10 * i] == Record(es[i]))
      && r[ds .. ds + |Payload(es)|] == Payload(es)
      && (forall k :: ds + |Payload(es)| <= k < |r| ==> r[k] == 0)
  {
    var r := Encoding(es, false, z).value;
    var s := |Blob(es).value|;
    var pad := Zeros(PayloadSize(es) - |Payload(es)|);
    assert r == (U24(s) + U24(s) + U16(|es|)) + Table(es) + Payload(es) + pad;
    BodyLayout(r, U24(s) + U24(s) + U16(|es|), es, pad);
  }

  /** The records, the payloads and the zeros behind an 8-byte header. */
  lemma BodyLayout(r: seq<byte>, header: seq<byte>, es: seq<Entry>, pad: seq<byte>)
    requires |header| == 8 && r == header + Table(es) + Payload(es) + pad
    requires forall k :: 0 <= k < |pad| ==> pad[k] == 0
    ensures var ds := 8 + 10 * |es|;
      && ds + |Payload(es)| <= |r|
      && (forall i :: 0 <= i < |es| ==> r[8 + 10 * i .. 18 + 10 * i] == Record(es[i]))
      && r[ds .. ds + |Payload(es)|] == Payload(es)
      && (forall k :: ds + |Payload(es)| <= k < |r| ==> r[k] == 0)
  {
    forall i | 0 <= i < |es|
      ensures r[8 + 10 * i .. 18 + 10 * i] == Record(es[i])
    {
      TableRecordAt(r, 8, es, i);
    }
  }

  /** encode with extracted == true: the raw length and the compressed length in 24 bits, then
      the compressed bytes; it fails when compression leaves the length unchanged. */
  lemma CompressedEncodingLayout(es: seq<Entry>, z: Compressor)
    requires Blob(es).Ok?
    ensures var zipped := z.bzip2(Blob(es).value);
      && (Encoding(es, true, z).Ok? <==> |zipped| != |Blob(es).value|)
      && (Encoding(es, true, z).Ok? ==>
            var r := Encoding(es, true, z).value;
            && |r| == 6 + |zipped|
            && ReadU24(r, 0) == |Blob(es).value| % 0x100_0000
            && ReadU24(r, 3) == |zipped| % 0x100_0000
            && r[6..] == zipped)
  {
    var blob := Blob(es).value;
    var zipped := z.bzip2(blob);
    if |zipped| != |blob| {
      var r := Encoding(es, true, z).value;
      assert ReadU24(r, 0) == |blob| % 0x100_0000 by {
        assert r == [] + U24(|blob|) + (U24(|zipped|) + zipped);
        U24RoundTrip(|blob|, [], U24(|zipped|) + zipped);
      }
      assert ReadU24(r, 3) == |zipped| % 0x100_0000 by {
        U24RoundTrip(|zipped|, U24(|blob|), zipped);
      }
    }
  }

  // =======================================================================================
  // Properties of the decoding

  /** A slice of a region of b is the same slice of what the region holds. */
  lemma SubSlice(b: seq<byte>, x: nat, t: seq<byte>, i: nat, j: nat)
    requires x + |t| <= |b| && b[x .. x + |t|] == t && i <= j <= |t|
    ensures b[x + i .. x + j] == t[i .. j]
  {
    forall m | x + i <= m < x + j ensures b[m] == t[m - x] {
      assert b[x .. x + |t|][m - x] == b[m];
    }
  }

  /** Reading a record back: the three fields of an entry whose sizes fit in 24 bits. */
  lemma RecordRead(b: seq<byte>, q: nat, e: Entry)
    requires q + 10 <= |b| && b[q..q + 10] == Record(e)
    requires e.uncompressedSize < 0x100_0000 && e.compressedSize < 0x100_0000
    ensures ReadI32(b, q) == e.hash
    ensures ReadU24(b, q + 4) == e.uncompressedSize
    ensures ReadU24(b, q + 7) == e.compressedSize
  {
    var r := Record(e);
    assert ReadI32(b, q) == e.hash by {
      SubSlice(b, q, r, 0, 4);
      assert r[0..4] == I32(e.hash);
      ReadI32At(b, q, e.hash);
    }
    assert ReadU24(b, q + 4) == e.uncompressedSize by {
      SubSlice(b, q, r, 4, 7);
      assert r[4..7] == U24(e.uncompressedSize);
      ReadU24At(b, q + 4, e.uncompressedSize);
    }
    assert ReadU24(b, q + 7) == e.compressedSize by {
      SubSlice(b, q, r, 7, 10);
      assert r[7..10] == U24(e.compressedSize);
      ReadU24At(b, q + 7, e.compressedSize);
    }
  }

  /** Every size fits in 24 bits. */
  ghost predicate SizesFit(es: seq<Entry>) {
    forall i :: 0 <= i < |es| ==> es[i].uncompressedSize < 0x100_0000 && es[i].compressedSize < 0x100_0000
  }

  /** Record i of a table placed at ts sits at ts + 10i. */
  lemma TableRecordAt(b: seq<byte>, ts: nat, es: seq<Entry>, i: nat)
    requires i < |es| && ts + 10 * |es| <= |b|
    requires b[ts .. ts + 10 * |es|] == Table(es)
    ensures b[ts + 10 * i .. ts + 10 * i + 10] == Record(es[i])
  {
    assert b[ts + 10 * i .. ts + 10 * i + 10] == Table(es)[10 * i .. 10 * i + 10] by {
      SubSlice(b, ts, Table(es), 10 * i, 10 * i + 10);
    }
    TableAt(es, |es|, i);
  }

  /** The fields of record i, read where the table of es was placed. */
  lemma TableFields(b: seq<byte>, ts: nat, es: seq<Entry>, i: nat)
    requires SizesFit(es) && i < |es|
    requires ts + 10 * |es| <= |b|
    requires b[ts .. ts + 10 * |es|] == Table(es)
    ensures ReadI32(b, ts + 10 * i) == es[i].hash
    ensures ReadU24(b, ts + 10 * i + 4) == es[i].uncompressedSize
    ensures ReadU24(b, ts + 10 * i + 7) == es[i].compressedSize
  {
    TableRecordAt(b, ts, es, i);
    RecordRead(b, ts + 10 * i, es[i]);
  }

  /** Where the records of es sit in b, DataOffset adds up their compressed sizes. */
  lemma {:induction false} DataOffsetOfTable(b: seq<byte>, ts: nat, es: seq<Entry>, k: nat)
    requires k <= |es| && ts + 10 * |es| <= |b| && b[ts .. ts + 10 * |es|] == Table(es)
    requires SizesFit(es)
    ensures DataOffset(b, ts, k) == Offset(es, k)
  {
    if k > 0 {
      DataOffsetOfTable(b, ts, es, k - 1);
      TableFields(b, ts, es, k - 1);
    }
  }

  /** Entry i's data, where the payloads of es were placed at ds. */
  lemma TableData(b: seq<byte>, ds: nat, es: seq<Entry>, i: nat)
    requires SizesMatch(es) && i < |es|
    requires ds + |Payload(es)| <= |b|
    requires b[ds .. ds + |Payload(es)|] == Payload(es)
    ensures Offset(es, i + 1) <= |Payload(es)|
    ensures b[ds + Offset(es, i) .. ds + Offset(es, i + 1)] == es[i].data
  {
    PayloadAt(es, |es|, i);
    SubSlice(b, ds, Payload(es), Offset(es, i), Offset(es, i + 1));
  }

  /** Entry i read from a buffer that holds the table and payloads of es is es[i]. */
  lemma TableEntry(b: seq<byte>, ts: nat, es: seq<Entry>, i: nat)
    requires SizesFit(es) && SizesMatch(es) && i < |es|
    requires ts + 10 * |es| + |Payload(es)| <= |b|
    requires b[ts .. ts + 10 * |es|] == Table(es)
    requires b[ts + 10 * |es| .. ts + 10 * |es| + |Payload(es)|] == Payload(es)
    ensures ts + 10 * |es| + DataOffset(b, ts, |es|) <= |b|
    ensures ts + 10 * |es| + DataOffset(b, ts, i + 1) <= |b|
    ensures EntryAt(b, ts, |es|, i) == es[i]
  {
    TableOffsets(b, ts, es, i);
    TableFields(b, ts, es, i);
    TableData(b, ts + 10 * |es|, es, i);
  }

  /** Where the table of es was placed, DataOffset finds the offsets of es up to the end. */
  lemma TableOffsets(b: seq<byte>, ts: nat, es: seq<Entry>, i: nat)
    requires SizesFit(es) && SizesMatch(es) && i < |es|
    requires ts + 10 * |es| + |Payload(es)| <= |b|
    requires b[ts .. ts + 10 * |es|] == Table(es)
    ensures DataOffset(b, ts, |es|) == |Payload(es)|
    ensures DataOffset(b, ts, i) == Offset(es, i) && DataOffset(b, ts, i + 1) == Offset(es, i + 1)
  {
    PayloadLength(es, |es|);
    DataOffsetOfTable(b, ts, es, |es|);
    DataOffsetOfTable(b, ts, es, i);
    DataOffsetOfTable(b, ts, es, i + 1);
  }

  /** The table and payload region that encode builds parses back to the same entries, in the
      same order, wherever it starts in the buffer. */
  lemma BlobParses(pre: seq<byte>, es: seq<Entry>)
    requires Encodable(es)
    ensures Blob(es).Ok? && ParseTable(pre + Blob(es).value, |pre|) == Ok(es)
  {
    BlobLayout(pre, es);
    TableEntries(pre + Blob(es).value, |pre| + 2, es);
  }

  /** Where the parts of the region sit once it is placed after pre. */
  lemma BlobLayout(pre: seq<byte>, es: seq<Entry>)
    requires Encodable(es)
    ensures Blob(es).Ok?
    ensures var b, ts := pre + Blob(es).value, |pre| + 2;
      && |b| == ts + 10 * |es| + |Payload(es)|
      && ReadU16(b, |pre|) == |es|
      && b[ts .. ts + 10 * |es|] == Table(es)
      && b[ts + 10 * |es| .. ts + 10 * |es| + |Payload(es)|] == Payload(es)
  {
    PayloadLength(es, |es|);
    var n := |es|;
    var tb, ps := Table(es), Payload(es);
    var b := pre + U16(n) + tb + ps;
    assert pre + Blob(es).value == b by {
      assert Zeros(0) == [];
    }
    assert ReadU16(b, |pre|) == n by {
      assert b == pre + U16(n) + (tb + ps);
      U16RoundTrip(n, pre, tb + ps);
    }
    assert b[|pre| + 2 .. |pre| + 2 + 10 * n] == tb by {
      Middle(pre + U16(n), tb, ps);
    }
    assert b[|pre| + 2 + 10 * n .. |pre| + 2 + 10 * n + |ps|] == ps by {
      Middle(pre + U16(n) + tb, ps, []);
      assert b == b + [];
    }
  }

  /** A buffer holding the table and payloads of es at ts yields es back. */
  lemma TableEntries(b: seq<byte>, ts: nat, es: seq<Entry>)
    requires SizesFit(es) && SizesMatch(es)
    requires ts + 10 * |es| + |Payload(es)| <= |b|
    requires b[ts .. ts + 10 * |es|] == Table(es)
    requires b[ts + 10 * |es| .. ts + 10 * |es| + |Payload(es)|] == Payload(es)
    ensures ts + 10 * |es| + DataOffset(b, ts, |es|) <= |b|
    ensures Entries(b, ts, |es|, |es|) == es
  {
    var n := |es|;
    assert ts + 10 * n + DataOffset(b, ts, n) <= |b| by {
      PayloadLength(es, n);
      DataOffsetOfTable(b, ts, es, n);
    }
    forall i | 0 <= i < n ensures Entries(b, ts, n, n)[i] == es[i] {
      TableEntry(b, ts, es, i);
      EntriesAt(b, ts, n, n, i);
    }
  }

  /** decode(encode(a)) for an archive that is not extracted: the same entries in the same
      table order, and extracted still false. */
  lemma RawRoundTrip(es: seq<Entry>, z: Compressor)
    requires Encodable(es)
    ensures Encoding(es, false, z).Ok?
    ensures Decoding(Encoding(es, false, z).value, z) == Ok(Decoded(es, false))
  {
    BlobParses([], es);
    var blob := Blob(es).value;
    var b := Encoding(es, false, z).value;
    assert ReadU24(b, 0) == |blob| % 0x100_0000 by {
      assert b == [] + U24(|blob|) + (U24(|blob|) + blob);
      U24RoundTrip(|blob|, [], U24(|blob|) + blob);
    }
    assert ReadU24(b, 3) == |blob| % 0x100_0000 by {
      assert b == U24(|blob|) + U24(|blob|) + blob;
      U24RoundTrip(|blob|, U24(|blob|), blob);
    }
    assert ParseTable(b, 6) == Ok(es) by {
      assert b == (U24(|blob|) + U24(|blob|)) + blob;
      BlobParses(U24(|blob|) + U24(|blob|), es);
    }
  }

  /** decode(encode(a)) for an extracted archive: given a compressor that decompression
      reverses, and both lengths within 24 bits so that they still differ once written, the
      same entries come back with extracted still true. */
  lemma CompressedRoundTrip(es: seq<Entry>, z: Compressor)
    requires Encodable(es) && Reverses(z)
    requires Encoding(es, true, z).Ok?
    requires 2 + 10 * |es| + PayloadSize(es) < 0x100_0000
    requires |z.bzip2(Blob(es).value)| < 0x100_0000
    ensures Decoding(Encoding(es, true, z).value, z) == Ok(Decoded(es, true))
  {
    var blob := Blob(es).value;
    assert ParseTable(blob, 0) == Ok(es) by {
      BlobParses([], es);
      assert [] + blob == blob;
    }
    BlobLength(es);
    ContainerDecodes(blob, z);
  }

  /** A region bzip2 shrinks or grows, placed behind its two lengths, inflates back to itself
      and parses as the region alone does. */
  lemma ContainerDecodes(blob: seq<byte>, z: Compressor)
    requires Reverses(z) && ParseTable(blob, 0).Ok?
    requires |blob| < 0x100_0000 && |z.bzip2(blob)| < 0x100_0000 && |z.bzip2(blob)| != |blob|
    ensures Decoding(U24(|blob|) + U24(|z.bzip2(blob)|) + z.bzip2(blob), z)
      == Ok(Decoded(ParseTable(blob, 0).value, true))
  {
    var zipped := z.bzip2(blob);
    var b := U24(|blob|) + U24(|zipped|) + zipped;
    ContainerFields(|blob|, zipped);
    Decompresses(z, blob);
    DecodingCompressed(b, z, blob);
  }

  /** The two length fields and the bytes behind them, read back from a compressed container. */
  lemma ContainerFields(size: nat, zipped: seq<byte>)
    requires size < 0x100_0000 && |zipped| < 0x100_0000
    ensures var b := U24(size) + U24(|zipped|) + zipped;
      ReadU24(b, 0) == size && ReadU24(b, 3) == |zipped| && b[6 .. 6 + |zipped|] == zipped
  {
    var b := U24(size) + U24(|zipped|) + zipped;
    assert ReadU24(b, 0) == size by {
      Middle([], U24(size), U24(|zipped|) + zipped);
      assert b == [] + U24(size) + (U24(|zipped|) + zipped);
      ReadU24At(b, 0, size);
      Mod24Small(size);
    }
    assert ReadU24(b, 3) == |zipped| by {
      Middle(U24(size), U24(|zipped|), zipped);
      ReadU24At(b, 3, |zipped|);
      Mod24Small(|zipped|);
    }
    assert b[6 .. 6 + |zipped|] == zipped by {
      Middle(U24(size) + U24(|zipped|), zipped, []);
      assert b == b + [];
    }
  }

  /** decode of a container whose two lengths differ: the region the compressed bytes
      decompress to, parsed from its start, with extracted set. */
  lemma DecodingCompressed(b: seq<byte>, z: Compressor, inflated: seq<byte>)
    requires |b| >= 6 && ReadU24(b, 0) != ReadU24(b, 3) && 6 + ReadU24(b, 3) <= |b|
    requires z.debzip2(b[6 .. 6 + ReadU24(b, 3)], ReadU24(b, 0)) == inflated
    requires ParseTable(inflated, 0).Ok?
    ensures Decoding(b, z) == Ok(Decoded(ParseTable(inflated, 0).value, true))
  {
  }

  lemma Mod24Small(x: nat)
    requires x < 0x100_0000
    ensures x % 0x100_0000 == x
  {
  }

  lemma Decompresses(z: Compressor, x: seq<byte>)
    requires Reverses(z)
    ensures z.debzip2(z.bzip2(x), |x|) == x
  {
  }

  lemma EntriesAt(b: seq<byte>, ts: nat, n: nat, k: nat, i: nat)
    requires i < k <= n && ts + 10 * n <= |b| && ts + 10 * n + DataOffset(b, ts, k) <= |b|
    ensures ts + 10 * n + DataOffset(b, ts, i + 1) <= |b|
    ensures Entries(b, ts, n, k)[i] == EntryAt(b, ts, n, i)
  {
    DataOffsetMono(b, ts, i + 1, k);
  }

  /** Entry i of a parsed table is the one EntryAt reads. */
  lemma ParsedAt(b: seq<byte>, p: nat, es: seq<Entry>, i: nat)
    requires ParseTable(b, p) == Ok(es) && i < |es|
    ensures p + 2 + 10 * |es| + DataOffset(b, p + 2, |es|) <= |b|
    ensures p + 2 + 10 * |es| + DataOffset(b, p + 2, i + 1) <= |b|
    ensures es[i] == EntryAt(b, p + 2, |es|, i)
  {
    EntriesAt(b, p + 2, |es|, |es|, i);
  }

  /** Entries whose compressed sizes are the ones recorded in the table at ts: their offsets
      are the offsets the second cursor uses. */
  lemma {:induction false} RecordedOffset(b: seq<byte>, ts: nat, es: seq<Entry>, k: nat)
    requires ts + 10 * |es| <= |b| && k <= |es|
    requires forall i :: 0 <= i < |es| ==> es[i].compressedSize == ReadU24(b, ts + 10 * i + 7)
    ensures Offset(es, k) == DataOffset(b, ts, k)
  {
    if k > 0 {
      RecordedOffset(b, ts, es, k - 1);
    }
  }

  /** What decode reads: n is the 16-bit count at p, and entry i is the one read from record i
      at p + 2 + 10i together with its slice of the data region behind the table. */
  lemma ParseLayout(b: seq<byte>, p: nat, es: seq<Entry>)
    requires ParseTable(b, p) == Ok(es)
    ensures |es| == ReadU16(b, p)
    ensures p + 2 + 10 * |es| + DataOffset(b, p + 2, |es|) <= |b|
    ensures forall j, k {:trigger DataOffset(b, p + 2, j), DataOffset(b, p + 2, k)} ::
      0 <= j <= k <= |es| ==> DataOffset(b, p + 2, j) <= DataOffset(b, p + 2, k)
    ensures forall i :: 0 <= i < |es| ==> es[i] == EntryAt(b, p + 2, |es|, i)
  {
    forall j, k {:trigger DataOffset(b, p + 2, j), DataOffset(b, p + 2, k)} | 0 <= j <= k <= |es|
      ensures DataOffset(b, p + 2, j) <= DataOffset(b, p + 2, k)
    {
      DataOffsetMono(b, p + 2, j, k);
    }
    forall i | 0 <= i < |es| ensures es[i] == EntryAt(b, p + 2, |es|, i) {
      ParsedAt(b, p, es, i);
    }
  }

  /** Every decoded entry's data is exactly its compressed size long, and the sizes add up to
      the data region the second cursor walked. */
  lemma ParsedSizes(b: seq<byte>, p: nat, es: seq<Entry>)
    requires ParseTable(b, p) == Ok(es)
    ensures SizesMatch(es)
    ensures PayloadSize(es) == DataOffset(b, p + 2, |es|)
  {
    forall i | 0 <= i < |es|
      ensures es[i].compressedSize == ReadU24(b, p + 2 + 10 * i + 7)
      ensures |es[i].data| == es[i].compressedSize
    {
      ParsedAt(b, p, es, i);
      EntryAtSize(b, p + 2, |es|, i);
    }
    RecordedOffset(b, p + 2, es, |es|);
  }

  /** The data EntryAt reads is as long as the compressed size in its record. */
  lemma EntryAtSize(b: seq<byte>, ts: nat, n: nat, i: nat)
    requires i < n && ts + 10 * n <= |b| && ts + 10 * n + DataOffset(b, ts, n) <= |b|
    ensures ts + 10 * n + DataOffset(b, ts, i + 1) <= |b|
    ensures EntryAt(b, ts, n, i).compressedSize == ReadU24(b, ts + 10 * i + 7)
    ensures |EntryAt(b, ts, n, i).data| == EntryAt(b, ts, n, i).compressedSize
  {
    DataOffsetMono(b, ts, i + 1, n);
    assert DataOffset(b, ts, i + 1) == DataOffset(b, ts, i) + ReadU24(b, ts + 10 * i + 7);
  }

  // =======================================================================================
  // Properties of the manifest

  function Pow2(n: nat): nat {
    if n == 0 then 1 else 2 * Pow2(n - 1)
  }

  /** The CRCs weighted by their distance from the end: sum of crcs[i] * 2^(n-1-i). */
  function Weighted(crcs: seq<u32>): nat {
    if crcs == [] then 0 else 2 * Weighted(crcs[..|crcs| - 1]) + crcs[|crcs| - 1]
  }

  /** The fold wraps only at the end: it is 1234 * 2^n + sum of crc_i * 2^(n-1-i), modulo 2^32.
      Bit j of CRC i lands on bit j + n-1-i, so only the low 32-(n-1-i) bits of CRC i reach the
      fold, and only its low 16-(n-1-i) bits reach the 16 bits the manifest stores: with more
      than 16 CRCs the earlier ones do not reach the stored value at all (TrailerOfLast16). */
  lemma {:induction false} FoldClosedForm(crcs: seq<u32>)
    ensures Fold(crcs) == (1234 * Pow2(|crcs|) + Weighted(crcs)) % 0x1_0000_0000
  {
    if crcs != [] {
      var pre := crcs[..|crcs| - 1];
      var c := crcs[|crcs| - 1];
      FoldClosedForm(pre);
      var a := 1234 * Pow2(|pre|) + Weighted(pre);
      ModDouble(a, c);
      assert 2 * a + c == 1234 * Pow2(|crcs|) + Weighted(crcs);
    }
  }

  lemma ModDouble(a: int, c: int)
    ensures (2 * (a % 0x1_0000_0000) + c) % 0x1_0000_0000 == (2 * a + c) % 0x1_0000_0000
  {
    var y := 2 * (a % 0x1_0000_0000) + c;
    var k := y / 0x1_0000_0000 + 2 * (a / 0x1_0000_0000);
    var m := y % 0x1_0000_0000;
    assert 2 * a + c == k * 0x1_0000_0000 + m by {
      assert a == (a / 0x1_0000_0000) * 0x1_0000_0000 + a % 0x1_0000_0000;
      assert y == (y / 0x1_0000_0000) * 0x1_0000_0000 + m;
    }
    Mod32Of(2 * a + c, k, m);
  }

  /** The remainder modulo 2^32 of k * 2^32 + m, for m in range, is m. */
  lemma Mod32Of(x: int, k: int, m: int)
    requires 0 <= m < 0x1_0000_0000 && x == k * 0x1_0000_0000 + m
    ensures x % 0x1_0000_0000 == m
  {
  }

  /** The remainder modulo 2^16 of k * 2^16 + m, for m in range, is m. */
  lemma Mod16Of(x: int, k: int, m: int)
    requires 0 <= m < 0x1_0000 && x == k * 0x1_0000 + m
    ensures x % 0x1_0000 == m
  {
  }

  /** The manifest: 4n + 4 bytes; bytes 4i..4i+3 are CRC i, big-endian; bytes 4n and 4n+1 are
      the low 16 bits of the fold; the last two bytes are zero. */
  lemma {:induction false} ManifestLayout(crcs: seq<u32>)
    ensures var m := Manifest(crcs);
      && |m| == 4 * |crcs| + 4
      && (forall i :: 0 <= i < |crcs| ==> m[4 * i .. 4 * i + 4] == I32(crcs[i]))
      && ReadU16(m, 4 * |crcs|) == Fold(crcs) % 0x1_0000
      && m[4 * |crcs| + 2] == 0 && m[4 * |crcs| + 3] == 0
  {
    var m := Manifest(crcs);
    forall i | 0 <= i < |crcs| ensures m[4 * i .. 4 * i + 4] == I32(crcs[i]) {
      CrcBytesAt(crcs, i);
    }
    U16RoundTrip(Fold(crcs), CrcBytes(crcs), Zeros(2));
  }

  lemma {:induction false} CrcBytesAt(crcs: seq<u32>, i: nat)
    requires i < |crcs|
    ensures CrcBytes(crcs)[4 * i .. 4 * i + 4] == I32(crcs[i])
  {
    var n := |crcs| - 1;
    if i < n {
      CrcBytesAt(crcs[..n], i);
      assert CrcBytes(crcs) == CrcBytes(crcs[..n]) + I32(crcs[n]);
    }
  }

  /** The trailing value tells apart two manifests whose last CRCs differ in their low 16 bits,
      and only those: the high 16 bits of the last CRC never reach it (ManifestTrailer: the
      trailing value is the fold's low 16 bits). */
  lemma ManifestSeesLastCrc(crcs: seq<u32>, a: u32, b: u32)
    ensures Fold(crcs + [a]) % 0x1_0000 == Fold(crcs + [b]) % 0x1_0000 <==> a % 0x1_0000 == b % 0x1_0000
  {
    FoldLow(crcs, a);
    FoldLow(crcs, b);
    if a % 0x1_0000 == b % 0x1_0000 {
      SameLow(2 * Fold(crcs), a, b);
    } else {
      ShiftLow(2 * Fold(crcs), a, b);
    }
  }

  /** Adding the same x to two values with the same low 16 bits keeps them the same. */
  lemma SameLow(x: int, a: int, b: int)
    requires a % 0x1_0000 == b % 0x1_0000
    ensures (x + a) % 0x1_0000 == (x + b) % 0x1_0000
  {
    var r := x % 0x1_0000 + a % 0x1_0000;
    assert x == (x / 0x1_0000) * 0x1_0000 + x % 0x1_0000;
    assert a == (a / 0x1_0000) * 0x1_0000 + a % 0x1_0000;
    assert b == (b / 0x1_0000) * 0x1_0000 + b % 0x1_0000;
    assert r == (r / 0x1_0000) * 0x1_0000 + r % 0x1_0000;
    Mod16Of(x + a, x / 0x1_0000 + a / 0x1_0000 + r / 0x1_0000, r % 0x1_0000);
    Mod16Of(x + b, x / 0x1_0000 + b / 0x1_0000 + r / 0x1_0000, r % 0x1_0000);
  }

  /** The stored 16 bits depend only on the last 16 CRCs: whatever precedes them, they are the
      low 16 bits of those CRCs weighted by their distance from the end. */
  lemma TrailerOfLast16(s: seq<u32>, rest: seq<u32>)
    requires |rest| >= 16
    ensures Fold(s + rest) % 0x1_0000 == Weighted(rest) % 0x1_0000
  {
    var k := |rest|;
    FoldClosedForm(s + rest);
    WeightedAppend(s, rest);
    Pow2Add(|s|, k);
    Pow2Split(k);
    var a := 1234 * Pow2(|s|) + Weighted(s);
    Factor(Pow2(|s|), Pow2(k), Weighted(s));
    LowOfShifted(Pow2(k - 16), a, Weighted(rest));
  }

  /** 1234 * (p * pk) + w * pk, with pk factored out. */
  lemma Factor(p: int, pk: int, w: int)
    ensures 1234 * (p * pk) + w * pk == pk * (1234 * p + w)
  {
  }

  /** A value that is w plus a multiple of 2^16, taken modulo 2^32, keeps the low 16 bits of w. */
  lemma LowOfShifted(m: int, a: int, w: int)
    ensures ((0x1_0000 * m) * a + w) % 0x1_0000_0000 % 0x1_0000 == w % 0x1_0000
  {
    var q := m * a;
    var x := (0x1_0000 * m) * a + w;
    assert x == 0x1_0000 * q + w;
    ModLow(x);
    assert w == (w / 0x1_0000) * 0x1_0000 + w % 0x1_0000;
    Mod16Of(x, q + w / 0x1_0000, w % 0x1_0000);
  }

  /** Two CRC lists that end in the same 16 CRCs get the same stored value in their manifests,
      however the CRCs before differ. */
  lemma ManifestMissesEarlyCrcs(s: seq<u32>, t: seq<u32>, rest: seq<u32>)
    requires |rest| >= 16
    ensures ReadU16(Manifest(s + rest), 4 * |s + rest|) == ReadU16(Manifest(t + rest), 4 * |t + rest|)
  {
    ManifestTrailer(s + rest);
    ManifestTrailer(t + rest);
    TrailerOfLast16(s, rest);
    TrailerOfLast16(t, rest);
  }

  lemma {:induction false} WeightedAppend(s: seq<u32>, rest: seq<u32>)
    ensures Weighted(s + rest) == Weighted(s) * Pow2(|rest|) + Weighted(rest)
  {
    if rest == [] {
      assert s + rest == s;
    } else {
      var pre := rest[..|rest| - 1];
      var c := rest[|rest| - 1];
      WeightedAppend(s, pre);
      assert (s + rest)[..|s + rest| - 1] == s + pre;
      var w := Weighted(s);
      var p := Pow2(|pre|);
      assert Weighted(s + rest) == 2 * (w * p + Weighted(pre)) + c;
      assert 2 * (w * p) == w * (2 * p);
    }
  }

  lemma {:induction false} Pow2Add(a: nat, b: nat)
    ensures Pow2(a + b) == Pow2(a) * Pow2(b)
  {
    if b > 0 {
      Pow2Add(a, b - 1);
      var x := Pow2(a);
      var y := Pow2(b - 1);
      assert Pow2(a + b) == 2 * (x * y);
      assert 2 * (x * y) == x * (2 * y);
    }
  }

  lemma Pow2Split(k: nat)
    requires k >= 16
    ensures Pow2(k) == 0x1_0000 * Pow2(k - 16)
  {
    Pow2Add(16, k - 16);
    Pow2Add(8, 8);
    Pow2Add(4, 4);
    Pow2Add(2, 2);
    assert Pow2(2) == 4;
  }

  /** Adding the same x keeps apart two values whose low 16 bits differ. */
  lemma ShiftLow(x: int, a: int, b: int)
    requires a % 0x1_0000 != b % 0x1_0000
    ensures (x + a) % 0x1_0000 != (x + b) % 0x1_0000
  {
    if (x + a) % 0x1_0000 == (x + b) % 0x1_0000 {
      var d := (x + a) / 0x1_0000 - (x + b) / 0x1_0000;
      assert a == (b / 0x1_0000 + d) * 0x1_0000 + b % 0x1_0000 by {
        assert x + a == ((x + a) / 0x1_0000) * 0x1_0000 + (x + a) % 0x1_0000;
        assert x + b == ((x + b) / 0x1_0000) * 0x1_0000 + (x + b) % 0x1_0000;
        assert b == (b / 0x1_0000) * 0x1_0000 + b % 0x1_0000;
      }
      Mod16Of(a, b / 0x1_0000 + d, b % 0x1_0000);
      assert false;
    }
  }

  lemma FoldLow(crcs: seq<u32>, a: u32)
    ensures Fold(crcs + [a]) % 0x1_0000 == (2 * Fold(crcs) + a) % 0x1_0000
  {
    assert (crcs + [a])[..|crcs|] == crcs;
    ModLow(2 * Fold(crcs) + a);
  }

  /** The two bytes after the CRCs read back as the low 16 bits of the fold. */
  lemma ManifestTrailer(crcs: seq<u32>)
    ensures |Manifest(crcs)| == 4 * |crcs| + 4
    ensures ReadU16(Manifest(crcs), 4 * |crcs|) == Fold(crcs) % 0x1_0000
  {
    U16RoundTrip(Fold(crcs), CrcBytes(crcs), Zeros(2));
  }

  /** The manifest the comment in encodeChecksum describes: the fold stored as a whole int
      (putInt) in the four bytes after the CRCs, instead of its low 16 bits (putShort). */
  function IntManifest(crcs: seq<u32>): (r: seq<byte>)
    ensures |r| == 4 * |crcs| + 4
  {
    CrcBytes(crcs) + I32(Fold(crcs))
  }

  /** The int after the CRCs of IntManifest reads back as the whole fold. */
  lemma IntManifestTrailer(crcs: seq<u32>)
    ensures IntManifest(crcs)[..4 * |crcs|] == CrcBytes(crcs)
    ensures ReadI32(IntManifest(crcs), 4 * |crcs|) % 0x1_0000_0000 == Fold(crcs)
  {
    U32Trailer(CrcBytes(crcs), Fold(crcs));
  }

  /** putInt of an unsigned 32-bit value reads back, through getInt, as the same 32 bits. */
  lemma U32Trailer(pre: seq<byte>, u: u32)
    ensures (pre + I32(u))[..|pre|] == pre
    ensures ReadI32(pre + I32(u), |pre|) % 0x1_0000_0000 == u
  {
    var v := AsI32(u);
    assert I32(v) == I32(u) by {
      Mod32Of(u, 0, u);
    }
    I32RoundTrip(v, pre, []);
    assert pre + I32(u) == pre + I32(v) + [];
  }

  /** The Java int with the same 32 bits as u. */
  function AsI32(u: u32): (v: i32)
    ensures v % 0x1_0000_0000 == u
  {
    if u < 0x8000_0000 then u else u - 0x1_0000_0000
  }

  /** With the whole fold stored, any change of the last CRC shows in the trailing int. */
  lemma IntManifestSeesLastCrc(crcs: seq<u32>, a: u32, b: u32)
    requires a != b
    ensures ReadI32(IntManifest(crcs + [a]), 4 * |crcs| + 4) != ReadI32(IntManifest(crcs + [b]), 4 * |crcs| + 4)
  {
    IntManifestTrailer(crcs + [a]);
    IntManifestTrailer(crcs + [b]);
    assert (crcs + [a])[..|crcs|] == crcs;
    assert (crcs + [b])[..|crcs|] == crcs;
    ShiftDistinct(2 * Fold(crcs), a, b);
  }

  /** Adding the same x to two different 32-bit values keeps them apart modulo 2^32. */
  lemma ShiftDistinct(x: int, a: u32, b: u32)
    requires a != b
    ensures (x + a) % 0x1_0000_0000 != (x + b) % 0x1_0000_0000
  {
    var r := x % 0x1_0000_0000;
    var k := x / 0x1_0000_0000;
    assert x == k * 0x1_0000_0000 + r;
    if r + a < 0x1_0000_0000 {
      Mod32Of(x + a, k, r + a);
    } else {
      Mod32Of(x + a, k + 1, r + a - 0x1_0000_0000);
    }
    if r + b < 0x1_0000_0000 {
      Mod32Of(x + b, k, r + b);
    } else {
      Mod32Of(x + b, k + 1, r + b - 0x1_0000_0000);
    }
  }

  /** As written, the four bytes after the CRCs do not hold the fold as an int: with no
      archives the fold is 1234, but those bytes read as the int 1234 * 2^16. */
  lemma ManifestTrailerNotInt()
    ensures Fold([]) == 1234
    ensures ReadI32(Manifest([]), 0) == 1234 * 0x1_0000
    ensures ReadI32(IntManifest([]), 0) == 1234
  {
    assert U16(1234) == [4, 210] by {
      BigEndian2(1234);
    }
    assert Manifest([]) == [4, 210, 0, 0];
    IntManifestTrailer([]);
  }

  lemma ModLow(x: int)
    ensures (x % 0x1_0000_0000) % 0x1_0000 == x % 0x1_0000
  {
    var r := x % 0x1_0000_0000;
    var q := x / 0x1_0000_0000;
    var m := r % 0x1_0000;
    var q2 := r / 0x1_0000;
    assert x == (q * 0x1_0000 + q2) * 0x1_0000 + m by {
      assert x == q * 0x1_0000_0000 + r;
      assert r == q2 * 0x1_0000 + m;
    }
    Mod16Of(x, q * 0x1_0000 + q2, m);
  }
}
