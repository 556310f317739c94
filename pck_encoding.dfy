/** An encoder for PCK archives, written from the layout the decoder reads,
    and the round trip: decoding the encoding of a well-formed archive gives
    back exactly the object state the archive describes, wherever the
    encoding sits at the front of the buffer. */
module PckEncoding {
  import opened Results
  import opened Bytes
  import opened InputStreams
  import opened PckFormat

  /* Archives as written. */

  /** A property as stored: the meta index of its key, and its value. */
  datatype PropertyRecord = PropertyRecord(index: int32, value: String16)

  /** The data block of one file as stored: its properties and its payload. */
  datatype FileRecord = FileRecord(properties: seq<PropertyRecord>, payload: seq<byte>)

  /** A whole archive as stored. `xmlVersion` is written only when some meta
      entry is named "XMLVERSION". */
  datatype Archive = Archive(
    pckType: int32,
    meta: seq<MetaEntry>,
    xmlVersion: int32,
    entries: seq<PCKFileEntry>,
    records: seq<FileRecord>)

  /** A count that an int32 can hold. */
  predicate Fits(n: nat) {
    n < 0x8000_0000
  }

  /** The bytes of the reserved field written after every meta entry, file
      entry and property. The decoder reads them and does not use their
      value. */
  const Reserved: seq<byte> := [0, 0, 0, 0]

  /* Encoders. */

  /** The elements of `xs` from index `j` on, encoded one after another. */
  function FlattenFrom<S>(enc: S --> seq<byte>, xs: seq<S>, j: nat): seq<byte>
    requires j <= |xs|
    requires forall i :: 0 <= i < |xs| ==> enc.requires(xs[i])
    decreases |xs| - j
  {
    if j == |xs| then [] else enc(xs[j]) + FlattenFrom(enc, xs, j + 1)
  }

  /** The elements of `xs` encoded one after another. */
  function Flatten<S>(enc: S --> seq<byte>, xs: seq<S>): seq<byte>
    requires forall i :: 0 <= i < |xs| ==> enc.requires(xs[i])
  {
    FlattenFrom(enc, xs, 0)
  }

  /** The elements of `xs`, each mapped by `dec`. */
  function MapSeq<S, T>(dec: S --> T, xs: seq<S>): (ys: seq<T>)
    requires forall i :: 0 <= i < |xs| ==> dec.requires(xs[i])
    ensures |ys| == |xs|
  {
    seq(|xs|, i requires 0 <= i < |xs| => dec(xs[i]))
  }

  /** A string: its code-unit count, then its code units in big-endian
      order. */
  function EncodeString(s: String16): (b: seq<byte>)
    requires Fits(|s|)
    ensures |b| == 4 + 2 * |s|
  {
    EncodeInt32(|s|) + EncodeUnits(s)
  }

  function EncodeMetaEntry(e: MetaEntry): seq<byte>
    requires Fits(|e.name|)
  {
    EncodeInt32(e.index) + EncodeString(e.name) + Reserved
  }

  function EncodeFileEntry(e: PCKFileEntry): seq<byte>
    requires Fits(|e.name|)
  {
    EncodeInt32(e.size) + EncodeInt32(e.fileType) + EncodeString(e.name) + Reserved
  }

  function EncodeProperty(p: PropertyRecord): seq<byte>
    requires Fits(|p.value|)
  {
    EncodeInt32(p.index) + EncodeString(p.value) + Reserved
  }

  /** Every count and string length of a data block fits an int32. */
  predicate RecordEncodable(r: FileRecord) {
    Fits(|r.properties|) && forall i :: 0 <= i < |r.properties| ==> Fits(|r.properties[i].value|)
  }

  function EncodeRecord(r: FileRecord): seq<byte>
    requires RecordEncodable(r)
  {
    EncodeInt32(|r.properties|) + Flatten(EncodeProperty, r.properties) + r.payload
  }

  /** Every count and string length of the archive fits an int32. */
  predicate Encodable(a: Archive) {
    && Fits(|a.meta|) && (forall i :: 0 <= i < |a.meta| ==> Fits(|a.meta[i].name|))
    && Fits(|a.entries|) && (forall i :: 0 <= i < |a.entries| ==> Fits(|a.entries[i].name|))
    && (forall i :: 0 <= i < |a.records| ==> RecordEncodable(a.records[i]))
  }

  /** The meta section: the entry count, the entries, and the version int32
      if and only if some entry is named "XMLVERSION". */
  function EncodeMetaSection(meta: seq<MetaEntry>, xmlVersion: int32): seq<byte>
    requires Fits(|meta|) && forall i :: 0 <= i < |meta| ==> Fits(|meta[i].name|)
  {
    EncodeInt32(|meta|) + Flatten(EncodeMetaEntry, meta) + (if HasXmlVersion(meta) then EncodeInt32(xmlVersion) else [])
  }

  /** The file-entry section: the entry count, then the entries. */
  function EncodeFileEntrySection(entries: seq<PCKFileEntry>): seq<byte>
    requires Fits(|entries|) && forall i :: 0 <= i < |entries| ==> Fits(|entries[i].name|)
  {
    EncodeInt32(|entries|) + Flatten(EncodeFileEntry, entries)
  }

  /** The whole archive: type, meta section, file-entry section, then the
      data blocks. */
  function Encode(a: Archive): seq<byte>
    requires Encodable(a)
  {
    EncodeInt32(a.pckType) + EncodeMetaSection(a.meta, a.xmlVersion)
      + EncodeFileEntrySection(a.entries) + Flatten(EncodeRecord, a.records)
  }

  /* What a decoder should make of an archive. */

  /** The meta table a fresh object ends up with. */
  function Table(a: Archive): map<int32, String16> {
    ApplyMeta(Fresh.meta, a.meta)
  }

  /** A stored property with its key looked up in `table`. */
  function Resolve(table: map<int32, String16>, p: PropertyRecord): Property
    requires p.index in table
  {
    Property(table[p.index], p.value)
  }

  /** Key lookup as a function on stored properties, defined where the
      index is in `table`. */
  function Resolver(table: map<int32, String16>): (f: PropertyRecord --> Property)
    ensures forall p: PropertyRecord | p.index in table :: f.requires(p)
    ensures forall p: PropertyRecord | p.index in table :: f(p) == Resolve(table, p)
  {
    (p: PropertyRecord) requires p.index in table => Resolve(table, p)
  }

  /** Every property of `r` names an index that `table` holds. */
  predicate Resolvable(table: map<int32, String16>, r: FileRecord) {
    forall i :: 0 <= i < |r.properties| ==> r.properties[i].index in table
  }

  /** The decoded file for file entry `entry` and its stored block `r`. */
  function DecodedRecord(table: map<int32, String16>, entry: PCKFileEntry, r: FileRecord): PCKFileData
    requires Resolvable(table, r)
  {
    PCKFileData(entry, r.payload, MapSeq(Resolver(table), r.properties))
  }

  /** The decoded files for file entries `entries` and their blocks
      `records`, pairwise. */
  function DecodedRecords(table: map<int32, String16>, entries: seq<PCKFileEntry>, records: seq<FileRecord>): (ds: seq<PCKFileData>)
    requires |records| == |entries|
    requires forall i :: 0 <= i < |records| ==> Resolvable(table, records[i])
    ensures |ds| == |entries|
  {
    seq(|entries|, i requires 0 <= i < |entries| => DecodedRecord(table, entries[i], records[i]))
  }

  /** One data block per file entry, each with exactly the payload length
      that entry declares. */
  predicate Consistent(a: Archive) {
    && |a.records| == |a.entries|
    && forall i :: 0 <= i < |a.entries| ==> 0 <= a.entries[i].size && |a.records[i].payload| == a.entries[i].size
  }

  /** An archive the decoder accepts: encodable, consistent, and every
      property key in the meta table. */
  predicate WellFormed(a: Archive) {
    Encodable(a) && Consistent(a) && forall i :: 0 <= i < |a.records| ==> Resolvable(Table(a), a.records[i])
  }

  /** The object state a fresh PCKFile should have after parsing `a`. */
  function Expected(a: Archive): PckState
    requires WellFormed(a)
  {
    PckState(a.pckType, Table(a), a.entries, DecodedRecords(Table(a), a.entries, a.records))
  }

  /* Reading back from a window. */

  /** The bytes `w` occur in `data` at `pos`: a read of their length there
      returns them. */
  ghost predicate Window(data: seq<byte>, pos: nat, w: seq<byte>) {
    Take(data, pos, |w|) == Success(w)
  }

  /** A window of `a + b` is a window of `a` followed by a window of `b`. */
  lemma WindowSplit(data: seq<byte>, pos: nat, a: seq<byte>, b: seq<byte>)
    requires Window(data, pos, a + b)
    ensures Window(data, pos, a) && Window(data, pos + |a|, b)
  {
    TakeConsecutive(data, pos, |a|, |b|);
    var x := Take(data, pos, |a|).value;
    var y := Take(data, pos + |a|, |b|).value;
    assert x + y == a + b;
    assert x == (x + y)[..|a|] == (a + b)[..|a|] == a;
    assert y == (x + y)[|a|..] == (a + b)[|a|..] == b;
  }

  /** readInt of an encoded int32 gives it back. */
  lemma IntAtEncoded(data: seq<byte>, pos: nat, v: int32)
    requires Window(data, pos, EncodeInt32(v))
    ensures IntAt(data, pos) == Success(Parsed(v, pos + 4))
  {
    DecodeEncodeInt32(v);
  }

  /** readString of an encoded string gives it back. */
  lemma StringAtEncoded(data: seq<byte>, pos: nat, s: String16)
    requires Fits(|s|)
    requires Window(data, pos, EncodeString(s))
    ensures StringAt(data, pos) == Success(Parsed(s, pos + |EncodeString(s)|))
  {
    WindowSplit(data, pos, EncodeInt32(|s|), EncodeUnits(s));
    IntAtEncoded(data, pos, |s|);
    DecodeEncodeUnits(s);
  }

  /** `item` reads every element of `xs` back from its encoding, as `dec` of
      that element. */
  ghost predicate ReadsBack<S, T>(item: (seq<byte>, nat) -> Result<Parsed<T>>, enc: S --> seq<byte>, dec: S --> T,
                                  data: seq<byte>, xs: seq<S>)
  {
    forall i, p: nat :: 0 <= i < |xs| && enc.requires(xs[i]) && dec.requires(xs[i]) && Window(data, p, enc(xs[i])) ==>
      item(data, p) == Success(Parsed(dec(xs[i]), p + |enc(xs[i])|))
  }

  /** A loop over an item reader that reads every element back reads the
      elements from index `j` on back from their encodings laid end to
      end. */
  lemma {:induction false} RepeatEncodedFrom<S, T>(item: (seq<byte>, nat) -> Result<Parsed<T>>, enc: S --> seq<byte>, dec: S --> T,
                                                   data: seq<byte>, xs: seq<S>, j: nat, pos: nat, acc: seq<T>)
    requires j <= |xs|
    requires forall i :: 0 <= i < |xs| ==> enc.requires(xs[i]) && dec.requires(xs[i])
    requires ReadsBack(item, enc, dec, data, xs)
    requires Window(data, pos, FlattenFrom(enc, xs, j))
    ensures Repeat(item, data, pos, |xs| - j, acc) == Success(Parsed(acc + MapSeq(dec, xs)[j..], pos + |FlattenFrom(enc, xs, j)|))
    decreases |xs| - j
  {
    if j == |xs| {
      assert acc + MapSeq(dec, xs)[j..] == acc;
    } else {
      var first := enc(xs[j]);
      var rest := FlattenFrom(enc, xs, j + 1);
      WindowSplit(data, pos, first, rest);
      assert item(data, pos) == Success(Parsed(dec(xs[j]), pos + |first|));
      RepeatStep(item, data, pos, |xs| - j, acc);
      RepeatEncodedFrom(item, enc, dec, data, xs, j + 1, pos + |first|, acc + [dec(xs[j])]);
      assert MapSeq(dec, xs)[j..] == [dec(xs[j])] + MapSeq(dec, xs)[j + 1..];
      assert acc + [dec(xs[j])] + MapSeq(dec, xs)[j + 1..] == acc + MapSeq(dec, xs)[j..];
    }
  }

  /** A loop over an item reader that reads every element back reads the
      whole sequence back from the elements' encodings laid end to end. */
  lemma RepeatEncoded<S, T>(item: (seq<byte>, nat) -> Result<Parsed<T>>, enc: S --> seq<byte>, dec: S --> T,
                            data: seq<byte>, xs: seq<S>, pos: nat, acc: seq<T>)
    requires forall i :: 0 <= i < |xs| ==> enc.requires(xs[i]) && dec.requires(xs[i])
    requires ReadsBack(item, enc, dec, data, xs)
    requires Window(data, pos, Flatten(enc, xs))
    ensures Repeat(item, data, pos, |xs|, acc) == Success(Parsed(acc + MapSeq(dec, xs), pos + |Flatten(enc, xs)|))
  {
    RepeatEncodedFrom(item, enc, dec, data, xs, 0, pos, acc);
    assert MapSeq(dec, xs)[0..] == MapSeq(dec, xs);
  }

  /** A meta entry reads back from its encoding. */
  lemma MetaEntryAtEncoded(data: seq<byte>, pos: nat, e: MetaEntry)
    requires Fits(|e.name|)
    requires Window(data, pos, EncodeMetaEntry(e))
    ensures MetaEntryAt(data, pos) == Success(Parsed(e, pos + |EncodeMetaEntry(e)|))
  {
    WindowSplit(data, pos, EncodeInt32(e.index) + EncodeString(e.name), Reserved);
    WindowSplit(data, pos, EncodeInt32(e.index), EncodeString(e.name));
    IntAtEncoded(data, pos, e.index);
    StringAtEncoded(data, pos + 4, e.name);
  }

  /** Eight bytes decode as the two int32 values of their halves. */
  lemma DecodeIntsPair(a: seq<byte>, b: seq<byte>)
    requires |a| == 4 && |b| == 4
    ensures DecodeInts(a + b) == [DecodeInt32(a), DecodeInt32(b)]
  {
    var w := a + b;
    assert w[0..4] == a && w[4..8] == b;
    assert DecodeInts(w)[0] == DecodeInt32(w[0..4]);
    assert DecodeInts(w)[1] == DecodeInt32(w[4..8]);
  }

  /** readInts(2) of two encoded int32 values gives them back. */
  lemma IntPairEncoded(data: seq<byte>, pos: nat, x: int32, y: int32)
    requires Window(data, pos, EncodeInt32(x) + EncodeInt32(y))
    ensures IntsAt(data, pos, 2) == Success(Parsed([x, y], pos + 8))
  {
    DecodeIntsPair(EncodeInt32(x), EncodeInt32(y));
    DecodeEncodeInt32(x);
    DecodeEncodeInt32(y);
  }

  /** A file entry reads back from its encoding. */
  lemma FileEntryAtEncoded(data: seq<byte>, pos: nat, e: PCKFileEntry)
    requires Fits(|e.name|)
    requires Window(data, pos, EncodeFileEntry(e))
    ensures FileEntryAt(data, pos) == Success(Parsed(e, pos + |EncodeFileEntry(e)|))
  {
    var ints := EncodeInt32(e.size) + EncodeInt32(e.fileType);
    assert EncodeFileEntry(e) == ints + EncodeString(e.name) + Reserved;
    WindowSplit(data, pos, ints + EncodeString(e.name), Reserved);
    WindowSplit(data, pos, ints, EncodeString(e.name));
    IntPairEncoded(data, pos, e.size, e.fileType);
    StringAtEncoded(data, pos + 8, e.name);
  }

  /** A property whose index the table holds reads back from its encoding,
      with its key looked up. */
  lemma PropertyAtEncoded(data: seq<byte>, pos: nat, table: map<int32, String16>, p: PropertyRecord)
    requires Fits(|p.value|) && p.index in table
    requires Window(data, pos, EncodeProperty(p))
    ensures PropertyAt(data, pos, table) == Success(Parsed(Resolve(table, p), pos + |EncodeProperty(p)|))
  {
    WindowSplit(data, pos, EncodeInt32(p.index) + EncodeString(p.value), Reserved);
    WindowSplit(data, pos, EncodeInt32(p.index), EncodeString(p.value));
    IntAtEncoded(data, pos, p.index);
    StringAtEncoded(data, pos + 4, p.value);
  }

  /** A property whose index the table does not hold fails with that index
      when read from its encoding. */
  lemma PropertyAtUnknown(data: seq<byte>, pos: nat, table: map<int32, String16>, p: PropertyRecord)
    requires Fits(|p.value|) && p.index !in table
    requires Window(data, pos, EncodeProperty(p))
    ensures PropertyAt(data, pos, table) == Failure(UnknownMetaIndex(p.index))
  {
    WindowSplit(data, pos, EncodeInt32(p.index) + EncodeString(p.value), Reserved);
    WindowSplit(data, pos, EncodeInt32(p.index), EncodeString(p.value));
    IntAtEncoded(data, pos, p.index);
    StringAtEncoded(data, pos + 4, p.value);
  }


  /* Counted sequences. */

  /** A count followed by that many elements, each of which `item` reads
      back: the count reads back, and so do the elements after it. */
  lemma CountedEncoded<S, T>(item: (seq<byte>, nat) -> Result<Parsed<T>>, enc: S --> seq<byte>, dec: S --> T,
                             data: seq<byte>, pos: nat, xs: seq<S>, acc: seq<T>)
    requires Fits(|xs|)
    requires forall i :: 0 <= i < |xs| ==> enc.requires(xs[i]) && dec.requires(xs[i])
    requires ReadsBack(item, enc, dec, data, xs)
    requires Window(data, pos, EncodeInt32(|xs|) + Flatten(enc, xs))
    ensures IntAt(data, pos) == Success(Parsed(|xs|, pos + 4))
    ensures Repeat(item, data, pos + 4, |xs|, acc) == Success(Parsed(acc + MapSeq(dec, xs), pos + 4 + |Flatten(enc, xs)|))
  {
    WindowSplit(data, pos, EncodeInt32(|xs|), Flatten(enc, xs));
    IntAtEncoded(data, pos, |xs|);
    RepeatEncoded(item, enc, dec, data, xs, pos + 4, acc);
  }

  /** The identity, as the decoding of an entry that is read back as it was
      written. It is a named function rather than a lambda so that every
      lemma mentioning it refers to one and the same function value. */
  function Same<T>(x: T): T {
    x
  }

  /* The meta section.

     The read-back lemmas from here on take the entry reader `item` and the
     entry encoder `enc` as parameters, tied to the concrete functions by a
     requires clause. That only keeps the verifier from unfolding the
     concrete definitions inside the loop proofs, which keeps them cheap; the
     lemmas about the concrete functions follow by instantiation. */

  /** `enc` is the meta-entry encoder wherever that is defined. */
  ghost predicate MetaEntryEncoder(enc: MetaEntry --> seq<byte>) {
    forall e: MetaEntry {:trigger EncodeMetaEntry(e)} :: Fits(|e.name|) ==> enc.requires(e) && enc(e) == EncodeMetaEntry(e)
  }

  /** A meta entry read back through the abstract reader and encoder. */
  lemma MetaEntryReadsBack(item: (seq<byte>, nat) -> Result<Parsed<MetaEntry>>, enc: MetaEntry --> seq<byte>,
                           data: seq<byte>, pos: nat, e: MetaEntry)
    requires forall d, p {:trigger MetaEntryAt(d, p)} :: item(d, p) == MetaEntryAt(d, p)
    requires MetaEntryEncoder(enc)
    requires Fits(|e.name|) && enc.requires(e)
    requires Window(data, pos, enc(e))
    ensures item(data, pos) == Success(Parsed(e, pos + |enc(e)|))
  {
    assert enc(e) == EncodeMetaEntry(e);
    MetaEntryAtEncoded(data, pos, e);
  }

  /** Every meta entry reads back from its encoding, wherever it lies. */
  lemma MetaEntriesReadBack(item: (seq<byte>, nat) -> Result<Parsed<MetaEntry>>, enc: MetaEntry --> seq<byte>,
                            data: seq<byte>, meta: seq<MetaEntry>)
    requires forall d, p {:trigger MetaEntryAt(d, p)} :: item(d, p) == MetaEntryAt(d, p)
    requires MetaEntryEncoder(enc)
    requires forall i :: 0 <= i < |meta| ==> Fits(|meta[i].name|)
    ensures ReadsBack(item, enc, Same, data, meta)
  {
    forall i, p: nat | 0 <= i < |meta| && enc.requires(meta[i]) && Window(data, p, enc(meta[i]))
      ensures item(data, p) == Success(Parsed(Same(meta[i]), p + |enc(meta[i])|))
    {
      MetaEntryReadsBack(item, enc, data, p, meta[i]);
    }
  }

  /** What the parts of a meta section read: the count, `f` bytes of
      entries read by `item`, and the version when there is one. */
  ghost predicate MetaPartsRead(item: (seq<byte>, nat) -> Result<Parsed<MetaEntry>>, data: seq<byte>, pos: nat,
                                meta: seq<MetaEntry>, version: int32, f: nat)
    requires Fits(|meta|)
  {
    && IntAt(data, pos) == Success(Parsed(|meta|, pos + 4))
    && Repeat(item, data, pos + 4, |meta|, []) == Success(Parsed(meta, pos + 4 + f))
    && (HasXmlVersion(meta) ==> IntAt(data, pos + 4 + f) == Success(Parsed(version, pos + 8 + f)))
  }

  /** The meta section as the decoder reads it, from its count `n`, the
      `k` entries read after it, and where its version ends. */
  lemma MetaSectionSteps(data: seq<byte>, pos: nat, table: map<int32, String16>, n: int32, k: nat,
                         meta: seq<MetaEntry>, q: nat, version: int32, next: nat)
    requires IntAt(data, pos) == Success(Parsed(n, pos + 4)) && k == Iterations(n)
    requires Repeat(MetaEntryAt, data, pos + 4, k, []) == Success(Parsed(meta, q))
    requires HasXmlVersion(meta) ==> IntAt(data, q) == Success(Parsed(version, q + 4))
    requires next == if HasXmlVersion(meta) then q + 4 else q
    ensures MetaSection(data, pos, table) == Success(Parsed(ApplyMeta(table, meta), next))
  {
  }

  /** The meta section as the decoder reads it, from the results of its
      parts. */
  lemma MetaSectionOf(data: seq<byte>, pos: nat, table: map<int32, String16>, meta: seq<MetaEntry>, version: int32, f: nat)
    requires Fits(|meta|) && MetaPartsRead(MetaEntryAt, data, pos, meta, version, f)
    ensures MetaSection(data, pos, table) ==
              Success(Parsed(ApplyMeta(table, meta), pos + 4 + f + (if HasXmlVersion(meta) then 4 else 0)))
  {
    MetaSectionSteps(data, pos, table, |meta|, |meta|, meta, pos + 4 + f, version,
                     pos + 4 + f + (if HasXmlVersion(meta) then 4 else 0));
  }

  /** The parts of an encoded meta section read back: the count, the
      entries, and the version when there is one. */
  lemma MetaSectionParts(item: (seq<byte>, nat) -> Result<Parsed<MetaEntry>>, enc: MetaEntry --> seq<byte>,
                         data: seq<byte>, pos: nat, meta: seq<MetaEntry>, version: int32)
    requires forall d, p {:trigger MetaEntryAt(d, p)} :: item(d, p) == MetaEntryAt(d, p)
    requires MetaEntryEncoder(enc)
    requires Fits(|meta|) && forall i :: 0 <= i < |meta| ==> Fits(|meta[i].name|) && enc.requires(meta[i])
    requires Window(data, pos, EncodeInt32(|meta|) + Flatten(enc, meta) + (if HasXmlVersion(meta) then EncodeInt32(version) else []))
    ensures MetaPartsRead(item, data, pos, meta, version, |Flatten(enc, meta)|)
  {
    var body := EncodeInt32(|meta|) + Flatten(enc, meta);
    WindowSplit(data, pos, body, if HasXmlVersion(meta) then EncodeInt32(version) else []);
    MetaEntriesReadBack(item, enc, data, meta);
    CountedEncoded(item, enc, Same, data, pos, meta, []);
    assert [] + MapSeq(Same, meta) == meta;
    if HasXmlVersion(meta) {
      IntAtEncoded(data, pos + |body|, version);
    }
  }

  /** The meta section reads back from its encoding: the entries are stored
      into `table` in order, and the version int32 is consumed exactly when
      some entry is named "XMLVERSION". */
  lemma MetaSectionEncoded(enc: MetaEntry --> seq<byte>, data: seq<byte>, pos: nat, table: map<int32, String16>,
                           meta: seq<MetaEntry>, version: int32)
    requires MetaEntryEncoder(enc)
    requires Fits(|meta|) && forall i :: 0 <= i < |meta| ==> Fits(|meta[i].name|) && enc.requires(meta[i])
    requires Window(data, pos, EncodeInt32(|meta|) + Flatten(enc, meta) + (if HasXmlVersion(meta) then EncodeInt32(version) else []))
    ensures MetaSection(data, pos, table) ==
              Success(Parsed(ApplyMeta(table, meta), pos + 4 + |Flatten(enc, meta)| + (if HasXmlVersion(meta) then 4 else 0)))
  {
    MetaSectionParts(MetaEntryAt, enc, data, pos, meta, version);
    MetaSectionOf(data, pos, table, meta, version, |Flatten(enc, meta)|);
  }

  /* The file-entry section. */

  /** `enc` is the file-entry encoder wherever that is defined. */
  ghost predicate FileEntryEncoder(enc: PCKFileEntry --> seq<byte>) {
    forall e: PCKFileEntry {:trigger EncodeFileEntry(e)} :: Fits(|e.name|) ==> enc.requires(e) && enc(e) == EncodeFileEntry(e)
  }

  /** A file entry read back through the abstract reader and encoder. */
  lemma FileEntryReadsBack(item: (seq<byte>, nat) -> Result<Parsed<PCKFileEntry>>, enc: PCKFileEntry --> seq<byte>,
                           data: seq<byte>, pos: nat, e: PCKFileEntry)
    requires forall d, p {:trigger FileEntryAt(d, p)} :: item(d, p) == FileEntryAt(d, p)
    requires FileEntryEncoder(enc)
    requires Fits(|e.name|) && enc.requires(e)
    requires Window(data, pos, enc(e))
    ensures item(data, pos) == Success(Parsed(e, pos + |enc(e)|))
  {
    assert enc(e) == EncodeFileEntry(e);
    FileEntryAtEncoded(data, pos, e);
  }

  /** Every file entry reads back from its encoding, wherever it lies. */
  lemma FileEntriesReadBack(item: (seq<byte>, nat) -> Result<Parsed<PCKFileEntry>>, enc: PCKFileEntry --> seq<byte>,
                            data: seq<byte>, entries: seq<PCKFileEntry>)
    requires forall d, p {:trigger FileEntryAt(d, p)} :: item(d, p) == FileEntryAt(d, p)
    requires FileEntryEncoder(enc)
    requires forall i :: 0 <= i < |entries| ==> Fits(|entries[i].name|)
    ensures ReadsBack(item, enc, Same, data, entries)
  {
    forall i, p: nat | 0 <= i < |entries| && enc.requires(entries[i]) && Window(data, p, enc(entries[i]))
      ensures item(data, p) == Success(Parsed(Same(entries[i]), p + |enc(entries[i])|))
    {
      FileEntryReadsBack(item, enc, data, p, entries[i]);
    }
  }

  /** The file-entry section as the decoder reads it, from the results of
      its parts. */
  lemma FileEntrySectionOf(data: seq<byte>, pos: nat, held: seq<PCKFileEntry>, n: int32, k: nat, r: Result<Parsed<seq<PCKFileEntry>>>)
    requires IntAt(data, pos) == Success(Parsed(n, pos + 4)) && k == Iterations(n)
    requires Repeat(FileEntryAt, data, pos + 4, k, held) == r
    ensures FileEntrySection(data, pos, held) == r
  {
  }

  /** The parts of an encoded file-entry section read back: the count and
      the entries. */
  lemma FileEntrySectionParts(item: (seq<byte>, nat) -> Result<Parsed<PCKFileEntry>>, enc: PCKFileEntry --> seq<byte>,
                              data: seq<byte>, pos: nat, held: seq<PCKFileEntry>, entries: seq<PCKFileEntry>)
    requires forall d, p {:trigger FileEntryAt(d, p)} :: item(d, p) == FileEntryAt(d, p)
    requires FileEntryEncoder(enc)
    requires Fits(|entries|) && forall i :: 0 <= i < |entries| ==> Fits(|entries[i].name|) && enc.requires(entries[i])
    requires Window(data, pos, EncodeInt32(|entries|) + Flatten(enc, entries))
    ensures IntAt(data, pos) == Success(Parsed(|entries|, pos + 4))
    ensures Repeat(item, data, pos + 4, |entries|, held) == Success(Parsed(held + entries, pos + 4 + |Flatten(enc, entries)|))
  {
    FileEntriesReadBack(item, enc, data, entries);
    CountedEncoded(item, enc, Same, data, pos, entries, held);
    assert MapSeq(Same, entries) == entries;
  }

  /** The file-entry section reads back from its encoding, after the entries
      already held. */
  lemma FileEntrySectionEncoded(enc: PCKFileEntry --> seq<byte>, data: seq<byte>, pos: nat, held: seq<PCKFileEntry>, entries: seq<PCKFileEntry>)
    requires FileEntryEncoder(enc)
    requires Fits(|entries|) && forall i :: 0 <= i < |entries| ==> Fits(|entries[i].name|) && enc.requires(entries[i])
    requires Window(data, pos, EncodeInt32(|entries|) + Flatten(enc, entries))
    ensures FileEntrySection(data, pos, held) == Success(Parsed(held + entries, pos + 4 + |Flatten(enc, entries)|))
  {
    FileEntrySectionParts(FileEntryAt, enc, data, pos, held, entries);
    FileEntrySectionOf(data, pos, held, |entries|, |entries|, Success(Parsed(held + entries, pos + 4 + |Flatten(enc, entries)|)));
  }

  /* Data blocks. */

  /** `enc` is the property encoder wherever that is defined. */
  ghost predicate PropertyEncoder(enc: PropertyRecord --> seq<byte>) {
    forall p: PropertyRecord {:trigger EncodeProperty(p)} :: Fits(|p.value|) ==> enc.requires(p) && enc(p) == EncodeProperty(p)
  }

  /** A property read back through the abstract reader and encoder. */
  lemma PropertyReadsBack(item: (seq<byte>, nat) -> Result<Parsed<Property>>, enc: PropertyRecord --> seq<byte>,
                          data: seq<byte>, pos: nat, table: map<int32, String16>, p: PropertyRecord)
    requires forall d, q {:trigger PropertyAt(d, q, table)} :: item(d, q) == PropertyAt(d, q, table)
    requires PropertyEncoder(enc)
    requires Fits(|p.value|) && p.index in table && enc.requires(p)
    requires Window(data, pos, enc(p))
    ensures item(data, pos) == Success(Parsed(Resolver(table)(p), pos + |enc(p)|))
  {
    assert enc(p) == EncodeProperty(p);
    PropertyAtEncoded(data, pos, table, p);
  }

  /** Every property whose index `table` holds reads back from its encoding,
      with its key looked up, wherever it lies. */
  lemma PropertiesReadBack(item: (seq<byte>, nat) -> Result<Parsed<Property>>, enc: PropertyRecord --> seq<byte>,
                           data: seq<byte>, table: map<int32, String16>, r: FileRecord)
    requires forall d, q {:trigger PropertyAt(d, q, table)} :: item(d, q) == PropertyAt(d, q, table)
    requires PropertyEncoder(enc)
    requires RecordEncodable(r) && Resolvable(table, r)
    ensures ReadsBack(item, enc, Resolver(table), data, r.properties)
  {
    var props := r.properties;
    forall i, p: nat | 0 <= i < |props| && enc.requires(props[i]) && Resolver(table).requires(props[i]) && Window(data, p, enc(props[i]))
      ensures item(data, p) == Success(Parsed(Resolver(table)(props[i]), p + |enc(props[i])|))
    {
      PropertyReadsBack(item, enc, data, p, table, props[i]);
    }
  }

  /** A data block as the decoder reads it, from the results of its parts. */
  lemma RecordAtOf(data: seq<byte>, pos: nat, table: map<int32, String16>, entry: PCKFileEntry, n: int32, k: nat,
                   props: seq<Property>, q: nat, payload: seq<byte>)
    requires IntAt(data, pos) == Success(Parsed(n, pos + 4)) && k == Iterations(n)
    requires Repeat(PropertyItem(table), data, pos + 4, k, []) == Success(Parsed(props, q))
    requires 0 <= entry.size && Take(data, q, entry.size) == Success(payload)
    ensures RecordAt(data, pos, table, entry) == Success(Parsed(PCKFileData(entry, payload, props), q + entry.size))
  {
  }

  /** The parts of an encoded data block read back: the count, the
      properties with their keys looked up, and the payload. */
  lemma RecordParts(item: (seq<byte>, nat) -> Result<Parsed<Property>>, enc: PropertyRecord --> seq<byte>,
                    data: seq<byte>, pos: nat, table: map<int32, String16>, r: FileRecord)
    requires forall d, q {:trigger PropertyAt(d, q, table)} :: item(d, q) == PropertyAt(d, q, table)
    requires PropertyEncoder(enc)
    requires RecordEncodable(r) && Resolvable(table, r)
    requires forall i :: 0 <= i < |r.properties| ==> enc.requires(r.properties[i])
    requires Window(data, pos, EncodeInt32(|r.properties|) + Flatten(enc, r.properties) + r.payload)
    ensures IntAt(data, pos) == Success(Parsed(|r.properties|, pos + 4))
    ensures Repeat(item, data, pos + 4, |r.properties|, []) ==
              Success(Parsed(MapSeq(Resolver(table), r.properties), pos + 4 + |Flatten(enc, r.properties)|))
    ensures Window(data, pos + 4 + |Flatten(enc, r.properties)|, r.payload)
  {
    var head := EncodeInt32(|r.properties|) + Flatten(enc, r.properties);
    WindowSplit(data, pos, head, r.payload);
    PropertiesReadBack(item, enc, data, table, r);
    CountedEncoded(item, enc, Resolver(table), data, pos, r.properties, []);
    assert [] + MapSeq(Resolver(table), r.properties) == MapSeq(Resolver(table), r.properties);
  }

  /** A data block reads back from its encoding, for a file entry that
      declares its payload length. */
  lemma RecordAtEncoded(enc: PropertyRecord --> seq<byte>, data: seq<byte>, pos: nat, table: map<int32, String16>,
                        entry: PCKFileEntry, r: FileRecord)
    requires PropertyEncoder(enc)
    requires RecordEncodable(r) && Resolvable(table, r)
    requires forall i :: 0 <= i < |r.properties| ==> enc.requires(r.properties[i])
    requires 0 <= entry.size && |r.payload| == entry.size
    requires Window(data, pos, EncodeInt32(|r.properties|) + Flatten(enc, r.properties) + r.payload)
    ensures RecordAt(data, pos, table, entry) ==
              Success(Parsed(DecodedRecord(table, entry, r), pos + 4 + |Flatten(enc, r.properties)| + |r.payload|))
  {
    RecordParts(PropertyItem(table), enc, data, pos, table, r);
    RecordAtOf(data, pos, table, entry, |r.properties|, |r.properties|, MapSeq(Resolver(table), r.properties),
               pos + 4 + |Flatten(enc, r.properties)|, r.payload);
  }

  /** `enc` is the data-block encoder wherever that is defined. */
  ghost predicate RecordEncoder(enc: FileRecord --> seq<byte>) {
    forall r: FileRecord {:trigger EncodeRecord(r)} :: RecordEncodable(r) ==> enc.requires(r) && enc(r) == EncodeRecord(r)
  }

  /** A data block read back through the abstract reader and encoder. */
  lemma RecordReadsBack(record: (seq<byte>, nat, PCKFileEntry) -> Result<Parsed<PCKFileData>>, enc: FileRecord --> seq<byte>,
                        data: seq<byte>, pos: nat, table: map<int32, String16>, entry: PCKFileEntry, r: FileRecord)
    requires forall d, p, e {:trigger RecordAt(d, p, table, e)} :: record(d, p, e) == RecordAt(d, p, table, e)
    requires RecordEncoder(enc)
    requires RecordEncodable(r) && Resolvable(table, r) && enc.requires(r)
    requires 0 <= entry.size && |r.payload| == entry.size
    requires Window(data, pos, enc(r))
    ensures record(data, pos, entry) == Success(Parsed(DecodedRecord(table, entry, r), pos + |enc(r)|))
  {
    assert enc(r) == EncodeRecord(r);
    RecordAtEncoded(EncodeProperty, data, pos, table, entry, r);
  }

  /** Every block can be encoded, has its keys in `table`, and carries the
      payload length its file entry declares. */
  predicate BlocksMatch(table: map<int32, String16>, entries: seq<PCKFileEntry>, records: seq<FileRecord>) {
    && |records| == |entries|
    && forall j :: 0 <= j < |records| ==>
         && RecordEncodable(records[j]) && Resolvable(table, records[j])
         && 0 <= entries[j].size && |records[j].payload| == entries[j].size
  }

  /** The record loop from entry `i` on reads the blocks from `i` on back
      from their encodings laid end to end. */
  lemma {:induction false} RecordLoopEncodedFrom(record: (seq<byte>, nat, PCKFileEntry) -> Result<Parsed<PCKFileData>>,
                                                 enc: FileRecord --> seq<byte>, data: seq<byte>, pos: nat, table: map<int32, String16>,
                                                 entries: seq<PCKFileEntry>, records: seq<FileRecord>, i: nat, acc: seq<PCKFileData>)
    requires forall d, p, e {:trigger RecordAt(d, p, table, e)} :: record(d, p, e) == RecordAt(d, p, table, e)
    requires RecordEncoder(enc)
    requires BlocksMatch(table, entries, records) && i <= |entries|
    requires forall j :: 0 <= j < |records| ==> enc.requires(records[j])
    requires Window(data, pos, FlattenFrom(enc, records, i))
    ensures RecordLoop(record, data, pos, entries, i, acc) ==
              Success(Parsed(acc + DecodedRecords(table, entries, records)[i..], pos + |FlattenFrom(enc, records, i)|))
    decreases |entries| - i
  {
    var ds := DecodedRecords(table, entries, records);
    if i == |entries| {
      assert acc + ds[i..] == acc;
    } else {
      var first := enc(records[i]);
      var rest := FlattenFrom(enc, records, i + 1);
      WindowSplit(data, pos, first, rest);
      RecordReadsBack(record, enc, data, pos, table, entries[i], records[i]);
      RecordLoopStep(record, data, pos, entries, i, acc);
      RecordLoopEncodedFrom(record, enc, data, pos + |first|, table, entries, records, i + 1, acc + [ds[i]]);
      assert ds[i..] == [ds[i]] + ds[i + 1..];
      assert acc + [ds[i]] + ds[i + 1..] == acc + ds[i..];
    }
  }

  /** The record loop reads every block back from the blocks' encodings laid
      end to end, each paired with its file entry. */
  lemma RecordLoopEncoded(record: (seq<byte>, nat, PCKFileEntry) -> Result<Parsed<PCKFileData>>,
                          enc: FileRecord --> seq<byte>, data: seq<byte>, pos: nat, table: map<int32, String16>,
                          entries: seq<PCKFileEntry>, records: seq<FileRecord>, acc: seq<PCKFileData>)
    requires forall d, p, e {:trigger RecordAt(d, p, table, e)} :: record(d, p, e) == RecordAt(d, p, table, e)
    requires RecordEncoder(enc)
    requires BlocksMatch(table, entries, records)
    requires forall j :: 0 <= j < |records| ==> enc.requires(records[j])
    requires Window(data, pos, Flatten(enc, records))
    ensures RecordLoop(record, data, pos, entries, 0, acc) ==
              Success(Parsed(acc + DecodedRecords(table, entries, records), pos + |Flatten(enc, records)|))
  {
    RecordLoopEncodedFrom(record, enc, data, pos, table, entries, records, 0, acc);
    assert DecodedRecords(table, entries, records)[0..] == DecodedRecords(table, entries, records);
  }

  /* The whole archive. */

  /** The sections of an archive laid out one after another from `pos`:
      type `t`, meta table `m` ending at `p2`, file entries `es` ending at
      `p3`, and decoded files `ds` ending at `p4`. */
  ghost predicate SectionsRead(data: seq<byte>, pos: nat, t: int32, m: map<int32, String16>, p2: nat,
                               es: seq<PCKFileEntry>, p3: nat, ds: seq<PCKFileData>, p4: nat)
  {
    && IntAt(data, pos) == Success(Parsed(t, pos + 4))
    && MetaSection(data, pos + 4, Fresh.meta) == Success(Parsed(m, p2))
    && FileEntrySection(data, p2, Fresh.fileEntries) == Success(Parsed(es, p3))
    && RecordLoop(RecordItem(m), data, p3, es, 0, Fresh.data) == Success(Parsed(ds, p4))
  }

  /** A fresh parse as the decoder performs it, from the results of its
      sections. */
  lemma ParseAtOf(data: seq<byte>, pos: nat, t: int32, m: map<int32, String16>, p2: nat,
                  es: seq<PCKFileEntry>, p3: nat, ds: seq<PCKFileData>, p4: nat)
    requires SectionsRead(data, pos, t, m, p2, es, p3, ds, p4)
    ensures ParseAt(data, pos, Fresh) == Success(Parsed(PckState(t, m, es, ds), p4))
  {
  }

  /** An encoded archive split into its sections, which end at `p2`, `p3`
      and `p4`. */
  lemma ArchiveLayout(data: seq<byte>, pos: nat, a: Archive) returns (p2: nat, p3: nat, p4: nat)
    requires Encodable(a)
    requires Window(data, pos, Encode(a))
    ensures Window(data, pos, EncodeInt32(a.pckType))
    ensures Window(data, pos + 4, EncodeMetaSection(a.meta, a.xmlVersion)) && p2 == pos + 4 + |EncodeMetaSection(a.meta, a.xmlVersion)|
    ensures Window(data, p2, EncodeFileEntrySection(a.entries)) && p3 == p2 + |EncodeFileEntrySection(a.entries)|
    ensures Window(data, p3, Flatten(EncodeRecord, a.records)) && p4 == p3 + |Flatten(EncodeRecord, a.records)|
    ensures p4 == pos + |Encode(a)|
  {
    var t := EncodeInt32(a.pckType);
    var m := EncodeMetaSection(a.meta, a.xmlVersion);
    var f := EncodeFileEntrySection(a.entries);
    WindowSplit(data, pos, t + m + f, Flatten(EncodeRecord, a.records));
    WindowSplit(data, pos, t + m, f);
    WindowSplit(data, pos, t, m);
    p2, p3, p4 := pos + 4 + |m|, pos + 4 + |m| + |f|, pos + |Encode(a)|;
  }

  /** The meta section of an encoded archive reads back as its meta table. */
  lemma ArchiveMeta(data: seq<byte>, pos: nat, a: Archive, p2: nat)
    requires Encodable(a)
    requires Window(data, pos + 4, EncodeMetaSection(a.meta, a.xmlVersion)) && p2 == pos + 4 + |EncodeMetaSection(a.meta, a.xmlVersion)|
    ensures MetaSection(data, pos + 4, Fresh.meta) == Success(Parsed(Table(a), p2))
  {
    MetaSectionEncoded(EncodeMetaEntry, data, pos + 4, Fresh.meta, a.meta, a.xmlVersion);
  }

  /** The file-entry section of an encoded archive reads back as its file
      entries. */
  lemma ArchiveEntries(data: seq<byte>, a: Archive, p2: nat, p3: nat)
    requires Encodable(a)
    requires Window(data, p2, EncodeFileEntrySection(a.entries)) && p3 == p2 + |EncodeFileEntrySection(a.entries)|
    ensures FileEntrySection(data, p2, Fresh.fileEntries) == Success(Parsed(a.entries, p3))
  {
    FileEntrySectionEncoded(EncodeFileEntry, data, p2, Fresh.fileEntries, a.entries);
    assert Fresh.fileEntries + a.entries == a.entries;
  }

  /** The data blocks of an encoded well-formed archive read back as its
      decoded files. */
  lemma ArchiveRecords(data: seq<byte>, a: Archive, p3: nat, p4: nat)
    requires WellFormed(a)
    requires Window(data, p3, Flatten(EncodeRecord, a.records)) && p4 == p3 + |Flatten(EncodeRecord, a.records)|
    ensures RecordLoop(RecordItem(Table(a)), data, p3, a.entries, 0, Fresh.data) ==
              Success(Parsed(DecodedRecords(Table(a), a.entries, a.records), p4))
  {
    RecordLoopEncoded(RecordItem(Table(a)), EncodeRecord, data, p3, Table(a), a.entries, a.records, Fresh.data);
    assert Fresh.data + DecodedRecords(Table(a), a.entries, a.records) == DecodedRecords(Table(a), a.entries, a.records);
  }

  /** The sections of an encoded well-formed archive read back one after
      another, the last ending where the encoding ends. */
  lemma ArchiveSections(data: seq<byte>, pos: nat, a: Archive) returns (p2: nat, p3: nat, p4: nat)
    requires WellFormed(a)
    requires Window(data, pos, Encode(a))
    ensures SectionsRead(data, pos, a.pckType, Table(a), p2, a.entries, p3, DecodedRecords(Table(a), a.entries, a.records), p4)
    ensures p4 == pos + |Encode(a)|
  {
    p2, p3, p4 := ArchiveLayout(data, pos, a);
    IntAtEncoded(data, pos, a.pckType);
    ArchiveMeta(data, pos, a, p2);
    ArchiveEntries(data, a, p2, p3);
    ArchiveRecords(data, a, p3, p4);
  }

  /** A fresh parse of an archive whose sections read back, ending at
      `p4`, yields the state the archive describes. */
  lemma ParseAtSections(data: seq<byte>, pos: nat, a: Archive, p2: nat, p3: nat, p4: nat)
    requires WellFormed(a)
    requires SectionsRead(data, pos, a.pckType, Table(a), p2, a.entries, p3, DecodedRecords(Table(a), a.entries, a.records), p4)
    ensures ParseAt(data, pos, Fresh) == Success(Parsed(Expected(a), p4))
  {
    ParseAtOf(data, pos, a.pckType, Table(a), p2, a.entries, p3, DecodedRecords(Table(a), a.entries, a.records), p4);
  }

  /** A fresh parse of a well-formed archive's encoding, wherever it lies in
      the buffer, ends exactly where the encoding ends and yields the state
      the archive describes. */
  lemma ParseAtEncoded(data: seq<byte>, pos: nat, a: Archive)
    requires WellFormed(a)
    requires Window(data, pos, Encode(a))
    ensures var r := ParseAt(data, pos, Fresh);
              r.Success? && r.value.value == Expected(a) && r.value.next == pos + |Encode(a)|
  {
    var p2, p3, p4 := ArchiveSections(data, pos, a);
    ParseAtSections(data, pos, a, p2, p3, p4);
  }

  /** A buffer starts with the bytes `w`: they form a window at 0. */
  lemma WindowAtStart(w: seq<byte>, more: seq<byte>)
    ensures Window(w + more, 0, w)
  {
    TakeIsSlice(w + more, 0, |w|);
    assert (w + more)[0..|w|] == w;
  }

  /** The round trip: decoding a buffer that starts with the encoding of a
      well-formed archive yields the state the archive describes, read up to
      the end of the encoding and not beyond, whatever bytes follow. */
  lemma DecodeEncoded(a: Archive, more: seq<byte>)
    requires WellFormed(a)
    ensures var r := Decode(Encode(a) + more);
              r.Success? && r.value.value == Expected(a) && r.value.next == |Encode(a)|
  {
    WindowAtStart(Encode(a), more);
    ParseAtEncoded(Encode(a) + more, 0, a);
  }
}
