/** The PCK archive layout as a pure decoder over a byte buffer. Each function
    reads one field or section starting at `pos` and returns what it decoded
    together with the position just after it, or the error that stopped it,
    exactly as the stream-driven decoder would. */
module PckFormat {
  import opened Results
  import opened Bytes
  import opened InputStreams

  /** One meta-table record: a numeric tag index and its name. */
  datatype MetaEntry = MetaEntry(index: int32, name: String16)

  /** One file descriptor: payload length, type code and relative path. */
  datatype PCKFileEntry = PCKFileEntry(size: int32, fileType: int32, name: String16)

  /** One resolved per-file property. */
  datatype Property = Property(key: String16, value: String16)

  /** One decoded file: its descriptor, its payload and its properties. */
  datatype PCKFileData = PCKFileData(info: PCKFileEntry, data: seq<byte>, properties: seq<Property>)

  /** The fields of a PCKFile: the archive type, the meta table, the file
      descriptors and the decoded files. */
  datatype PckState = PckState(
    pckType: int32,
    meta: map<int32, String16>,
    fileEntries: seq<PCKFileEntry>,
    data: seq<PCKFileData>)

  /** The fields of a newly constructed PCKFile. */
  const Fresh := PckState(-1, map[], [], [])

  /** The name whose presence in the meta table makes the decoder consume one
      extra int32 after it: "XMLVERSION" as UTF-16 code units. */
  const XmlVersionTag: String16 := [0x58, 0x4D, 0x4C, 0x56, 0x45, 0x52, 0x53, 0x49, 0x4F, 0x4E]

  /** Length of the opaque field that follows every meta entry, file entry and
      property, read and discarded. */
  const ReservedSize := 4

  /** The number of iterations of a loop `for _ in range(count)`. */
  function Iterations(count: int): (n: nat)
    ensures count <= 0 ==> n == 0
    ensures count > 0 ==> n == count
  {
    if count < 0 then 0 else count
  }

  /* Repetition. */

  /** `k` more items read one after another by `item`, starting at `pos` and
      appended to the ones already read in `acc`: the loop
      `for _ in range(count)` over one kind of record. */
  function Repeat<T>(item: (seq<byte>, nat) -> Result<Parsed<T>>, data: seq<byte>, pos: nat, k: nat, acc: seq<T>): (r: Result<Parsed<seq<T>>>)
    decreases k
  {
    if k == 0 then Success(Parsed(acc, pos))
    else
      var e :- item(data, pos);
      Repeat(item, data, e.next, k - 1, acc + [e.value])
  }

  /** One iteration: the loop stops with the item's error, or goes on after
      the item with the item appended. */
  lemma RepeatStep<T>(item: (seq<byte>, nat) -> Result<Parsed<T>>, data: seq<byte>, pos: nat, k: nat, acc: seq<T>)
    requires k > 0
    ensures var e := item(data, pos);
            Repeat(item, data, pos, k, acc) ==
              if e.Failure? then Failure(e.error) else Repeat(item, data, e.value.next, k - 1, acc + [e.value.value])
  {
  }

  /** The loop adds exactly `k` items after those in `acc`, the first of them
      the item at `pos`. */
  lemma {:induction false} RepeatShape<T>(item: (seq<byte>, nat) -> Result<Parsed<T>>, data: seq<byte>, pos: nat, k: nat, acc: seq<T>)
    requires Repeat(item, data, pos, k, acc).Success?
    ensures var r := Repeat(item, data, pos, k, acc).value;
              && |r.value| == |acc| + k && r.value[..|acc|] == acc
              && (k > 0 ==> r.value[|acc|] == item(data, pos).value.value)
    decreases k
  {
    if k > 0 {
      var e := item(data, pos).value;
      RepeatShape(item, data, e.next, k - 1, acc + [e.value]);
      var r := Repeat(item, data, pos, k, acc).value;
      assert r.value[..|acc|] == r.value[..|acc| + 1][..|acc|];
      assert r.value[|acc|] == r.value[..|acc| + 1][|acc|];
    }
  }

  /** An item reader that never moves backwards nor past the end of the
      buffer. */
  ghost predicate Advances<T>(item: (seq<byte>, nat) -> Result<Parsed<T>>) {
    forall data: seq<byte>, pos: nat :: item(data, pos).Success? ==> pos <= item(data, pos).value.next <= |data|
  }

  /** A loop over such an item reader does not move backwards; it does not
      pass the end of the buffer once it has read anything, nor when it
      started inside the buffer; and with nothing to read it stays put. */
  lemma {:induction false} RepeatBounds<T>(item: (seq<byte>, nat) -> Result<Parsed<T>>, data: seq<byte>, pos: nat, k: nat, acc: seq<T>)
    requires Advances(item)
    requires Repeat(item, data, pos, k, acc).Success?
    ensures var r := Repeat(item, data, pos, k, acc).value;
              && pos <= r.next
              && (k > 0 ==> r.next <= |data|)
              && (pos <= |data| ==> r.next <= |data|)
              && (k == 0 ==> r.next == pos)
    decreases k
  {
    if k > 0 {
      var e := item(data, pos).value;
      RepeatBounds(item, data, e.next, k - 1, acc + [e.value]);
    }
  }

  /* Fields. Each layout function returns the decoded value and the position
     just after it. Its own contract only bounds that position; what it
     decodes is stated by the lemma beside it. */

  /** readInts: `count` consecutive big-endian int32 values. */
  function IntsAt(data: seq<byte>, pos: nat, count: nat): (r: Result<Parsed<seq<int32>>>)
    ensures r.Success? <==> pos + 4 * count <= |data|
    ensures r.Failure? ==> r.error == EndOfStream(pos, 4 * count)
    ensures r.Success? ==> r.value.next == pos + 4 * count && |r.value.value| == count
  {
    var bytes :- Take(data, pos, 4 * count);
    Success(Parsed(DecodeInts(bytes), pos + 4 * count))
  }

  /** Value `i` of a successful readInts is the int32 in bytes `4 * i` to
      `4 * i + 4` after the cursor. */
  lemma IntsAtValues(data: seq<byte>, pos: nat, count: nat)
    requires pos + 4 * count <= |data|
    ensures forall i :: 0 <= i < count ==>
              IntsAt(data, pos, count).value.value[i] == DecodeInt32(data[pos + 4 * i .. pos + 4 * i + 4])
  {
    var bytes := Take(data, pos, 4 * count).value;
    forall i | 0 <= i < count
      ensures IntsAt(data, pos, count).value.value[i] == DecodeInt32(data[pos + 4 * i .. pos + 4 * i + 4])
    {
      assert bytes[4 * i .. 4 * i + 4] == data[pos + 4 * i .. pos + 4 * i + 4];
    }
  }

  /** readInt: one big-endian int32. */
  function IntAt(data: seq<byte>, pos: nat): (r: Result<Parsed<int32>>)
    ensures r.Success? <==> pos + 4 <= |data|
    ensures r.Failure? ==> r.error == EndOfStream(pos, 4)
    ensures r.Success? ==> r.value.next == pos + 4
  {
    var bytes :- Take(data, pos, 4);
    Success(Parsed(DecodeInt32(bytes), pos + 4))
  }

  /** A successful readInt yields the int32 in the four bytes at the cursor. */
  lemma IntAtValue(data: seq<byte>, pos: nat)
    requires pos + 4 <= |data|
    ensures IntAt(data, pos).value.value == DecodeInt32(data[pos..pos + 4])
  {
    TakeIsSlice(data, pos, 4);
  }

  /** readInt is readInts(1)[0]: the same success, the same error, the same
      next position, and the single value of the one-element read. */
  lemma IntAtIsSingleInts(data: seq<byte>, pos: nat)
    ensures IntAt(data, pos).Success? <==> IntsAt(data, pos, 1).Success?
    ensures IntAt(data, pos).Failure? ==> IntAt(data, pos).error == IntsAt(data, pos, 1).error
    ensures IntAt(data, pos).Success? ==>
              IntAt(data, pos).value == Parsed(IntsAt(data, pos, 1).value.value[0], IntsAt(data, pos, 1).value.next)
  {
    if pos + 4 <= |data| {
      var bytes := Take(data, pos, 4).value;
      assert bytes[0..4] == bytes;
    }
  }

  /** readString: an int32 count `n`, then `2 * n` bytes of big-endian UTF-16.
      The reserved field after it is not part of it. */
  function StringAt(data: seq<byte>, pos: nat): (r: Result<Parsed<String16>>)
    ensures r.Success? ==> pos + 4 <= r.value.next <= |data|
  {
    var n :- IntAt(data, pos);
    if n.value < 0 then Failure(NegativeLength(n.value))
    else
      var bytes :- Take(data, n.next, 2 * n.value);
      Success(Parsed(DecodeUnits(bytes), n.next + 2 * n.value))
  }

  /** A successful readString consumes exactly `4 + 2 * n` bytes, where `n`
      is the leading count, and yields the `n` code units in them. */
  lemma StringAtLayout(data: seq<byte>, pos: nat)
    requires StringAt(data, pos).Success?
    ensures IntAt(data, pos).Success?
    ensures var n := IntAt(data, pos).value.value;
            var s := StringAt(data, pos).value;
              && 0 <= n && |s.value| == n
              && s.next == pos + 4 + 2 * n <= |data|
              && s.value == DecodeUnits(data[pos + 4 .. s.next])
  {
    var n: int := IntAt(data, pos).value.value;
    TakeIsSlice(data, pos + 4, 2 * n);
  }

  /** A meta entry: index, name and the reserved field. */
  function MetaEntryAt(data: seq<byte>, pos: nat): (r: Result<Parsed<MetaEntry>>)
    ensures r.Success? ==> pos <= r.value.next <= |data|
  {
    var index :- IntAt(data, pos);
    var name :- StringAt(data, index.next);
    var reserved :- Take(data, name.next, ReservedSize);
    Success(Parsed(MetaEntry(index.value, name.value), name.next + ReservedSize))
  }

  /** A meta entry consumes `4 + (4 + 2 * |name|) + 4` bytes: its index, its
      name, and the reserved field. */
  lemma MetaEntryAtLayout(data: seq<byte>, pos: nat)
    requires MetaEntryAt(data, pos).Success?
    ensures var e := MetaEntryAt(data, pos).value;
              && IntAt(data, pos).Success? && e.value.index == IntAt(data, pos).value.value
              && StringAt(data, pos + 4).Success? && e.value.name == StringAt(data, pos + 4).value.value
              && e.next == pos + 4 + (4 + 2 * |e.value.name|) + ReservedSize <= |data|
  {
    StringAtLayout(data, pos + 4);
  }

  /* The meta section. */

  /** Stores meta entries into a table in order, each overwriting any earlier
      entry with the same index. */
  function ApplyMeta(meta: map<int32, String16>, entries: seq<MetaEntry>): (m: map<int32, String16>)
    decreases |entries|
  {
    if entries == [] then meta
    else
      var e := entries[|entries| - 1];
      ApplyMeta(meta, entries[..|entries| - 1])[e.index := e.name]
  }

  /** Storing one more meta entry is the same as storing it after the
      others. */
  lemma ApplyMetaAppend(meta: map<int32, String16>, entries: seq<MetaEntry>, e: MetaEntry)
    ensures ApplyMeta(meta, entries + [e]) == ApplyMeta(meta, entries)[e.index := e.name]
  {
    assert (entries + [e])[..|entries|] == entries;
  }

  /** The last entry with index `key` is at position `i`. */
  predicate LastWith(entries: seq<MetaEntry>, key: int32, i: int) {
    0 <= i < |entries| && entries[i].index == key &&
    forall j :: i < j < |entries| ==> entries[j].index != key
  }

  /** Last write wins: after storing `entries` into `meta`, an index holds the
      name of the last entry with that index; an index no entry mentions keeps
      what `meta` held, and no other index appears. */
  lemma {:induction false} ApplyMetaLastWins(meta: map<int32, String16>, entries: seq<MetaEntry>, key: int32)
    ensures key in ApplyMeta(meta, entries) <==>
              key in meta || exists i :: 0 <= i < |entries| && entries[i].index == key
    ensures forall i :: LastWith(entries, key, i) ==> ApplyMeta(meta, entries)[key] == entries[i].name
    ensures (forall i :: 0 <= i < |entries| ==> entries[i].index != key) && key in meta ==>
              ApplyMeta(meta, entries)[key] == meta[key]
    decreases |entries|
  {
    if entries != [] {
      var init, e := entries[..|entries| - 1], entries[|entries| - 1];
      assert entries == init + [e];
      ApplyMetaAppend(meta, init, e);
      ApplyMetaLastWins(meta, init, key);
      forall i | LastWith(entries, key, i)
        ensures ApplyMeta(meta, entries)[key] == entries[i].name
      {
        if i < |init| {
          assert e.index != key;
          assert LastWith(init, key, i);
        }
      }
      if exists i :: 0 <= i < |entries| && entries[i].index == key {
        var i :| 0 <= i < |entries| && entries[i].index == key;
        if i < |init| {
          assert init[i].index == key;
        }
      }
    }
  }

  /** Some entry is named "XMLVERSION". */
  predicate HasXmlVersion(entries: seq<MetaEntry>) {
    exists i :: 0 <= i < |entries| && entries[i].name == XmlVersionTag
  }

  /** The flag readMetaEntries keeps is set once an entry named "XMLVERSION"
      has been read, and stays set. */
  lemma HasXmlVersionAppend(entries: seq<MetaEntry>, e: MetaEntry)
    ensures HasXmlVersion(entries + [e]) <==> HasXmlVersion(entries) || e.name == XmlVersionTag
  {
    if HasXmlVersion(entries) {
      var i :| 0 <= i < |entries| && entries[i].name == XmlVersionTag;
      assert (entries + [e])[i] == entries[i];
    }
    if e.name == XmlVersionTag {
      assert (entries + [e])[|entries|] == e;
    }
  }

  /** One more iteration of the meta loop: the entry is stored last into the
      table, and the flag is set if it is named "XMLVERSION". */
  lemma MetaEntryAppend(meta: map<int32, String16>, entries: seq<MetaEntry>, e: MetaEntry)
    ensures ApplyMeta(meta, entries + [e]) == ApplyMeta(meta, entries)[e.index := e.name]
    ensures HasXmlVersion(entries + [e]) <==> HasXmlVersion(entries) || e.name == XmlVersionTag
  {
    ApplyMetaAppend(meta, entries, e);
    HasXmlVersionAppend(entries, e);
  }

  /** readMetaEntries: a count, that many entries merged into `meta`, and one
      extra int32 when some entry is named "XMLVERSION". */
  function MetaSection(data: seq<byte>, pos: nat, meta: map<int32, String16>): (r: Result<Parsed<map<int32, String16>>>)
  {
    var count :- IntAt(data, pos);
    var entries :- Repeat(MetaEntryAt, data, count.next, Iterations(count.value), []);
    MetaSectionTail(data, meta, entries)
  }

  /** What follows the meta entries: they are merged into `meta`, and the
      version int32 is consumed when some entry is named "XMLVERSION". */
  function MetaSectionTail(data: seq<byte>, meta: map<int32, String16>, entries: Parsed<seq<MetaEntry>>): (r: Result<Parsed<map<int32, String16>>>)
    ensures r.Success? ==> entries.next <= r.value.next && (r.value.next == entries.next || r.value.next <= |data|)
  {
    var table := ApplyMeta(meta, entries.value);
    if HasXmlVersion(entries.value) then
      var version :- IntAt(data, entries.next);
      Success(Parsed(table, version.next))
    else
      Success(Parsed(table, entries.next))
  }

  /** A successful meta section holds `max(count, 0)` entries; the table is
      `meta` with them stored in order; and exactly one int32 follows them
      if and only if one of them is named "XMLVERSION". */
  lemma MetaSectionShape(data: seq<byte>, pos: nat, meta: map<int32, String16>)
    requires MetaSection(data, pos, meta).Success?
    ensures IntAt(data, pos).Success?
    ensures var entries := Repeat(MetaEntryAt, data, pos + 4, Iterations(IntAt(data, pos).value.value), []);
            var r := MetaSection(data, pos, meta).value;
              && entries.Success?
              && |entries.value.value| == Iterations(IntAt(data, pos).value.value)
              && r.value == ApplyMeta(meta, entries.value.value)
              && r.next == entries.value.next + (if HasXmlVersion(entries.value.value) then 4 else 0)
  {
    var count := IntAt(data, pos).value;
    RepeatShape(MetaEntryAt, data, count.next, Iterations(count.value), []);
  }

  /* The file-entry section. */

  /** A file entry: size and type, name and the reserved field. */
  function FileEntryAt(data: seq<byte>, pos: nat): (r: Result<Parsed<PCKFileEntry>>)
    ensures r.Success? ==> pos <= r.value.next <= |data|
  {
    var sizeAndType :- IntsAt(data, pos, 2);
    var name :- StringAt(data, sizeAndType.next);
    var reserved :- Take(data, name.next, ReservedSize);
    Success(Parsed(PCKFileEntry(sizeAndType.value[0], sizeAndType.value[1], name.value), name.next + ReservedSize))
  }

  /** A file entry carries the size, type and name read at its position, and
      consumes `8 + (4 + 2 * |name|) + 4` bytes. */
  lemma FileEntryAtLayout(data: seq<byte>, pos: nat)
    requires FileEntryAt(data, pos).Success?
    ensures var e := FileEntryAt(data, pos).value;
              && pos + 8 <= |data|
              && e.value.size == DecodeInt32(data[pos..pos + 4])
              && e.value.fileType == DecodeInt32(data[pos + 4..pos + 8])
              && StringAt(data, pos + 8).Success? && e.value.name == StringAt(data, pos + 8).value.value
              && e.next == pos + 8 + (4 + 2 * |e.value.name|) + ReservedSize <= |data|
  {
    IntsAtValues(data, pos, 2);
    StringAtLayout(data, pos + 8);
  }

  /** readFileEntries: a count and that many entries appended to
      `entries`. */
  function FileEntrySection(data: seq<byte>, pos: nat, entries: seq<PCKFileEntry>): (r: Result<Parsed<seq<PCKFileEntry>>>)
  {
    var count :- IntAt(data, pos);
    Repeat(FileEntryAt, data, count.next, Iterations(count.value), entries)
  }

  /** A successful file-entry section appends exactly `max(count, 0)` entries
      after the ones already held; a count that is not positive appends
      none. */
  lemma FileEntrySectionShape(data: seq<byte>, pos: nat, entries: seq<PCKFileEntry>)
    requires FileEntrySection(data, pos, entries).Success?
    ensures IntAt(data, pos).Success?
    ensures var r := FileEntrySection(data, pos, entries).value;
              && |r.value| == |entries| + Iterations(IntAt(data, pos).value.value)
              && r.value[..|entries|] == entries
  {
    var count := IntAt(data, pos).value;
    RepeatShape(FileEntryAt, data, count.next, Iterations(count.value), entries);
  }

  /* The data blocks. */

  /** getEntryNameFromIndex: the name stored under `index`, or the lookup
      failure when there is none. */
  function EntryName(meta: map<int32, String16>, index: int32): (r: Result<String16>)
    ensures r.Success? <==> index in meta
    ensures r.Success? ==> r.value == meta[index]
    ensures r.Failure? ==> r.error == UnknownMetaIndex(index)
  {
    if index in meta then Success(meta[index]) else Failure(UnknownMetaIndex(index))
  }

  /** A property: meta index, value, the reserved field, then the key looked
      up in the meta table. */
  function PropertyAt(data: seq<byte>, pos: nat, meta: map<int32, String16>): (r: Result<Parsed<Property>>)
    ensures r.Success? ==> pos <= r.value.next <= |data|
  {
    var index :- IntAt(data, pos);
    var value :- StringAt(data, index.next);
    var reserved :- Take(data, value.next, ReservedSize);
    var key :- EntryName(meta, index.value);
    Success(Parsed(Property(key, value.value), value.next + ReservedSize))
  }

  /** A property's key is the meta name stored under the index read first,
      and its value the string after it. If all three fields are present but
      the index is not in the meta table, the property fails with that
      index; and it fails with an unknown index only in that case. */
  lemma PropertyAtLayout(data: seq<byte>, pos: nat, meta: map<int32, String16>)
    ensures PropertyAt(data, pos, meta).Success? ==>
              && IntAt(data, pos).Success? && IntAt(data, pos).value.value in meta
              && StringAt(data, pos + 4).Success?
              && PropertyAt(data, pos, meta).value.value ==
                   Property(meta[IntAt(data, pos).value.value], StringAt(data, pos + 4).value.value)
              && PropertyAt(data, pos, meta).value.next == StringAt(data, pos + 4).value.next + ReservedSize <= |data|
    ensures && IntAt(data, pos).Success?
            && StringAt(data, pos + 4).Success?
            && Take(data, StringAt(data, pos + 4).value.next, ReservedSize).Success?
            && IntAt(data, pos).value.value !in meta ==>
              PropertyAt(data, pos, meta) == Failure(UnknownMetaIndex(IntAt(data, pos).value.value))
    ensures PropertyAt(data, pos, meta).Failure? && PropertyAt(data, pos, meta).error.UnknownMetaIndex? ==>
              && IntAt(data, pos).Success? && IntAt(data, pos).value.value !in meta
              && PropertyAt(data, pos, meta).error.index == IntAt(data, pos).value.value
  {
  }

  /** The property reader under meta table `meta`. */
  function PropertyItem(meta: map<int32, String16>): (item: (seq<byte>, nat) -> Result<Parsed<Property>>)
    ensures forall data, pos :: item(data, pos) == PropertyAt(data, pos, meta)
  {
    (data: seq<byte>, pos: nat) => PropertyAt(data, pos, meta)
  }

  /** The data block of one file: a property count, that many properties, and
      exactly `entry.size` payload bytes. */
  function RecordAt(data: seq<byte>, pos: nat, meta: map<int32, String16>, entry: PCKFileEntry): (r: Result<Parsed<PCKFileData>>)
  {
    var count :- IntAt(data, pos);
    var props :- Repeat(PropertyItem(meta), data, count.next, Iterations(count.value), []);
    RecordTail(data, entry, props)
  }

  /** What follows the properties of a file: exactly `entry.size` payload
      bytes, which must not be a negative count. */
  function RecordTail(data: seq<byte>, entry: PCKFileEntry, props: Parsed<seq<Property>>): (r: Result<Parsed<PCKFileData>>)
    ensures r.Success? ==> props.next <= r.value.next && (r.value.next == props.next || r.value.next <= |data|)
  {
    if entry.size < 0 then Failure(NegativeLength(entry.size))
    else
      var payload :- Take(data, props.next, entry.size);
      Success(Parsed(PCKFileData(entry, payload, props.value), props.next + entry.size))
  }

  /** A data block pairs with the file entry it was read for, holds the
      `max(count, 0)` properties read for it in stream order, and a payload of
      exactly `entry.size` bytes: the ones right after the properties. */
  lemma RecordAtShape(data: seq<byte>, pos: nat, meta: map<int32, String16>, entry: PCKFileEntry)
    requires RecordAt(data, pos, meta, entry).Success?
    ensures IntAt(data, pos).Success?
    ensures var props := Repeat(PropertyItem(meta), data, pos + 4, Iterations(IntAt(data, pos).value.value), []);
            var r := RecordAt(data, pos, meta, entry).value;
              && props.Success?
              && |props.value.value| == Iterations(IntAt(data, pos).value.value)
              && r.value.info == entry
              && r.value.properties == props.value.value
              && 0 <= entry.size && |r.value.data| == entry.size
              && r.next == props.value.next + entry.size <= |data|
  {
    RecordAtParts(data, pos, meta, entry);
    var count := IntAt(data, pos).value;
    var props := Repeat(PropertyItem(meta), data, count.next, Iterations(count.value), []);
    RecordTailShape(data, entry, props.value);
    RepeatShape(PropertyItem(meta), data, count.next, Iterations(count.value), []);
  }

  /** A successful data block is its property count, its property loop and
      its tail, each successful. */
  lemma RecordAtParts(data: seq<byte>, pos: nat, meta: map<int32, String16>, entry: PCKFileEntry)
    requires RecordAt(data, pos, meta, entry).Success?
    ensures IntAt(data, pos).Success?
    ensures var props := Repeat(PropertyItem(meta), data, pos + 4, Iterations(IntAt(data, pos).value.value), []);
              props.Success? && RecordAt(data, pos, meta, entry) == RecordTail(data, entry, props.value)
  {
  }

  /** The tail of a data block holds the entry, the properties and a payload
      of exactly `entry.size` bytes right after them. */
  lemma RecordTailShape(data: seq<byte>, entry: PCKFileEntry, props: Parsed<seq<Property>>)
    requires RecordTail(data, entry, props).Success?
    ensures var r := RecordTail(data, entry, props).value;
              && r.value.info == entry && r.value.properties == props.value
              && 0 <= entry.size && |r.value.data| == entry.size
              && r.next == props.next + entry.size <= |data|
  {
  }

  /** The payload of a data block is the `entry.size` bytes that end where the
      block ends. */
  lemma RecordAtPayload(data: seq<byte>, pos: nat, meta: map<int32, String16>, entry: PCKFileEntry)
    requires RecordAt(data, pos, meta, entry).Success?
    ensures var r := RecordAt(data, pos, meta, entry).value;
              && entry.size <= r.next <= |data|
              && r.value.data == data[r.next - entry.size..r.next]
  {
    var count := IntAt(data, pos).value;
    var props := Repeat(PropertyItem(meta), data, count.next, Iterations(count.value), []).value;
    TakeIsSlice(data, props.next, entry.size);
  }

  /** The data block reader under meta table `meta`. */
  function RecordItem(meta: map<int32, String16>): (record: (seq<byte>, nat, PCKFileEntry) -> Result<Parsed<PCKFileData>>)
    ensures forall data, pos, entry :: record(data, pos, entry) == RecordAt(data, pos, meta, entry)
  {
    (data: seq<byte>, pos: nat, entry: PCKFileEntry) => RecordAt(data, pos, meta, entry)
  }

  /** The data blocks of `entries[i..]`, in order, appended to `acc`, each
      read by `record` for its file entry. */
  function RecordLoop(record: (seq<byte>, nat, PCKFileEntry) -> Result<Parsed<PCKFileData>>, data: seq<byte>, pos: nat,
                      entries: seq<PCKFileEntry>, i: nat, acc: seq<PCKFileData>): (r: Result<Parsed<seq<PCKFileData>>>)
    requires i <= |entries|
    decreases |entries| - i
  {
    if i == |entries| then Success(Parsed(acc, pos))
    else
      var rec :- record(data, pos, entries[i]);
      RecordLoop(record, data, rec.next, entries, i + 1, acc + [rec.value])
  }

  /** One iteration of the record loop: it stops with the record's error,
      or goes on after the record with the record appended. */
  lemma RecordLoopStep(record: (seq<byte>, nat, PCKFileEntry) -> Result<Parsed<PCKFileData>>, data: seq<byte>, pos: nat,
                       entries: seq<PCKFileEntry>, i: nat, acc: seq<PCKFileData>)
    requires i < |entries|
    ensures var rec := record(data, pos, entries[i]);
            RecordLoop(record, data, pos, entries, i, acc) ==
              if rec.Failure? then Failure(rec.error) else RecordLoop(record, data, rec.value.next, entries, i + 1, acc + [rec.value.value])
  {
  }

  /** The record loop adds one data block per remaining file entry, after
      those in `acc`. */
  lemma {:induction false} RecordLoopShape(record: (seq<byte>, nat, PCKFileEntry) -> Result<Parsed<PCKFileData>>, data: seq<byte>, pos: nat,
                                           entries: seq<PCKFileEntry>, i: nat, acc: seq<PCKFileData>)
    requires i <= |entries|
    requires RecordLoop(record, data, pos, entries, i, acc).Success?
    ensures var r := RecordLoop(record, data, pos, entries, i, acc).value;
              |r.value| == |acc| + |entries| - i && r.value[..|acc|] == acc
    decreases |entries| - i
  {
    if i < |entries| {
      var rec := record(data, pos, entries[i]).value;
      RecordLoopShape(record, data, rec.next, entries, i + 1, acc + [rec.value]);
      var r := RecordLoop(record, data, pos, entries, i, acc).value;
      assert r.value[..|acc|] == r.value[..|acc| + 1][..|acc|];
    }
  }

  /** The block the record loop adds at index `k` is the one read for the
      file entry at the same offset, and holds a payload of that entry's
      declared size, when `record` reads data blocks under `meta`. */
  lemma {:induction false} RecordLoopPairs(record: (seq<byte>, nat, PCKFileEntry) -> Result<Parsed<PCKFileData>>, meta: map<int32, String16>,
                                           data: seq<byte>, pos: nat, entries: seq<PCKFileEntry>, i: nat, acc: seq<PCKFileData>, k: nat)
    requires forall d, p, e {:trigger RecordAt(d, p, meta, e)} :: record(d, p, e) == RecordAt(d, p, meta, e)
    requires i <= |entries|
    requires RecordLoop(record, data, pos, entries, i, acc).Success?
    requires |acc| <= k < |RecordLoop(record, data, pos, entries, i, acc).value.value|
    ensures var r := RecordLoop(record, data, pos, entries, i, acc).value;
              && k - |acc| + i < |entries|
              && r.value[k].info == entries[k - |acc| + i]
              && |r.value[k].data| == entries[k - |acc| + i].size
    decreases |entries| - i
  {
    RecordLoopShape(record, data, pos, entries, i, acc);
    RecordLoopStep(record, data, pos, entries, i, acc);
    var rec := record(data, pos, entries[i]).value;
    var r := RecordLoop(record, data, pos, entries, i, acc).value;
    assert r == RecordLoop(record, data, rec.next, entries, i + 1, acc + [rec.value]).value;
    if k == |acc| {
      assert record(data, pos, entries[i]) == RecordAt(data, pos, meta, entries[i]);
      RecordAtShape(data, pos, meta, entries[i]);
      RecordLoopShape(record, data, rec.next, entries, i + 1, acc + [rec.value]);
      assert r.value[k] == r.value[..|acc| + 1][k] == rec.value;
      assert rec.value.info == entries[i];
    } else {
      RecordLoopPairs(record, meta, data, rec.next, entries, i + 1, acc + [rec.value], k);
      assert k - |acc + [rec.value]| + (i + 1) == k - |acc| + i;
      assert r.value[k].info == entries[k - |acc| + i];
    }
  }

  /* The whole archive. */

  /** parse from state `st`: the archive type, the meta section, the
      file-entry section, then one data block for every file entry the object
      holds. */
  function ParseAt(data: seq<byte>, pos: nat, st: PckState): (r: Result<Parsed<PckState>>)
  {
    var pckType :- IntAt(data, pos);
    var meta :- MetaSection(data, pckType.next, st.meta);
    var entries :- FileEntrySection(data, meta.next, st.fileEntries);
    var records :- RecordLoop(RecordItem(meta.value), data, entries.next, entries.value, 0, st.data);
    Success(Parsed(PckState(pckType.value, meta.value, entries.value, records.value), records.next))
  }

  /** A successful parse is its archive type, meta section, file-entry
      section and record loop, each successful, in that order. */
  lemma ParseAtParts(data: seq<byte>, pos: nat, st: PckState)
    requires ParseAt(data, pos, st).Success?
    ensures IntAt(data, pos).Success?
    ensures var pckType := IntAt(data, pos).value;
            var meta := MetaSection(data, pckType.next, st.meta);
            && meta.Success?
            && var entries := FileEntrySection(data, meta.value.next, st.fileEntries);
            && entries.Success?
            && var records := RecordLoop(RecordItem(meta.value.value), data, entries.value.next, entries.value.value, 0, st.data);
            && records.Success?
            && ParseAt(data, pos, st).value ==
                 Parsed(PckState(pckType.value, meta.value.value, entries.value.value, records.value.value), records.value.next)
  {
  }

  /** What a successful parse leaves: the archive type read verbatim, the old
      file entries followed by the new ones, and the old decoded files
      followed by one per new file entry. */
  lemma ParseAtShape(data: seq<byte>, pos: nat, st: PckState)
    requires ParseAt(data, pos, st).Success?
    ensures IntAt(data, pos).Success?
    ensures var s := ParseAt(data, pos, st).value.value;
              && s.pckType == IntAt(data, pos).value.value
              && |st.fileEntries| <= |s.fileEntries| && s.fileEntries[..|st.fileEntries|] == st.fileEntries
              && |s.data| == |st.data| + |s.fileEntries| && s.data[..|st.data|] == st.data
  {
    ParseAtParts(data, pos, st);
    var pckType := IntAt(data, pos).value;
    var meta := MetaSection(data, pckType.next, st.meta).value;
    var entries := FileEntrySection(data, meta.next, st.fileEntries).value;
    FileEntrySectionShape(data, meta.next, st.fileEntries);
    RecordLoopShape(RecordItem(meta.value), data, entries.next, entries.value, 0, st.data);
  }

  /** After a successful parse, the decoded file at index `k` (past the ones
      held before) pairs with the file entry at the same offset, and its
      payload has the length that entry declares. */
  lemma ParseAtPairs(data: seq<byte>, pos: nat, st: PckState, k: nat)
    requires ParseAt(data, pos, st).Success?
    requires |st.data| <= k < |ParseAt(data, pos, st).value.value.data|
    ensures var s := ParseAt(data, pos, st).value.value;
              && k - |st.data| < |s.fileEntries|
              && s.data[k].info == s.fileEntries[k - |st.data|]
              && |s.data[k].data| == s.fileEntries[k - |st.data|].size
  {
    ParseAtParts(data, pos, st);
    var pckType := IntAt(data, pos).value;
    var meta := MetaSection(data, pckType.next, st.meta).value;
    var entries := FileEntrySection(data, meta.next, st.fileEntries).value;
    var records := RecordLoop(RecordItem(meta.value), data, entries.next, entries.value, 0, st.data).value;
    RecordLoopPairs(RecordItem(meta.value), meta.value, data, entries.next, entries.value, 0, st.data, k);
    assert records.value[k].info == entries.value[k - |st.data|];
  }

  /** Decoding a whole buffer with a fresh PCKFile. */
  function Decode(data: seq<byte>): (r: Result<Parsed<PckState>>)
  {
    ParseAt(data, 0, Fresh)
  }

  /** After a successful decode, every decoded file pairs with the file entry
      at the same position, and its payload has exactly the length that entry
      declares. */
  lemma DecodeShape(data: seq<byte>)
    requires Decode(data).Success?
    ensures var s := Decode(data).value.value;
              && |s.data| == |s.fileEntries|
              && forall j :: 0 <= j < |s.data| ==> s.data[j].info == s.fileEntries[j] && |s.data[j].data| == s.fileEntries[j].size
  {
    var s := ParseAt(data, 0, Fresh).value.value;
    assert Decode(data).value.value == s;
    ParseAtShape(data, 0, Fresh);
    forall j | 0 <= j < |s.data|
      ensures s.data[j].info == s.fileEntries[j] && |s.data[j].data| == s.fileEntries[j].size
    {
      ParseAtPairs(data, 0, Fresh, j);
    }
  }

  /* Where a successful read ends. */

  lemma MetaEntriesAdvance()
    ensures Advances(MetaEntryAt)
  {
  }

  lemma FileEntriesAdvance()
    ensures Advances(FileEntryAt)
  {
  }

  lemma PropertiesAdvance(meta: map<int32, String16>)
    ensures Advances(PropertyItem(meta))
  {
  }

  /** A successful meta section ends after its count and inside the
      buffer. */
  lemma MetaSectionBound(data: seq<byte>, pos: nat, meta: map<int32, String16>)
    requires MetaSection(data, pos, meta).Success?
    ensures pos + 4 <= MetaSection(data, pos, meta).value.next <= |data|
  {
    var count := IntAt(data, pos).value;
    MetaEntriesAdvance();
    RepeatBounds(MetaEntryAt, data, count.next, Iterations(count.value), []);
  }

  /** A successful file-entry section ends after its count and inside the
      buffer. */
  lemma FileEntrySectionBound(data: seq<byte>, pos: nat, entries: seq<PCKFileEntry>)
    requires FileEntrySection(data, pos, entries).Success?
    ensures pos + 4 <= FileEntrySection(data, pos, entries).value.next <= |data|
  {
    var count := IntAt(data, pos).value;
    FileEntriesAdvance();
    RepeatBounds(FileEntryAt, data, count.next, Iterations(count.value), entries);
  }

  /** A successful data block ends after its property count and inside the
      buffer. */
  lemma RecordAtBound(data: seq<byte>, pos: nat, meta: map<int32, String16>, entry: PCKFileEntry)
    requires RecordAt(data, pos, meta, entry).Success?
    ensures pos + 4 <= RecordAt(data, pos, meta, entry).value.next <= |data|
  {
    RecordAtParts(data, pos, meta, entry);
    var count := IntAt(data, pos).value;
    var props := Repeat(PropertyItem(meta), data, count.next, Iterations(count.value), []);
    PropertiesAdvance(meta);
    RepeatBounds(PropertyItem(meta), data, count.next, Iterations(count.value), []);
    RecordTailShape(data, entry, props.value);
  }

  /** The record loop, started inside the buffer, never moves backwards and
      ends inside the buffer. `record` is RecordAt under `meta`. */
  lemma {:induction false} RecordLoopBound(record: (seq<byte>, nat, PCKFileEntry) -> Result<Parsed<PCKFileData>>, meta: map<int32, String16>,
                                           data: seq<byte>, pos: nat, entries: seq<PCKFileEntry>, i: nat, acc: seq<PCKFileData>)
    requires forall d, p, e {:trigger RecordAt(d, p, meta, e)} :: record(d, p, e) == RecordAt(d, p, meta, e)
    requires i <= |entries| && pos <= |data|
    requires RecordLoop(record, data, pos, entries, i, acc).Success?
    ensures pos <= RecordLoop(record, data, pos, entries, i, acc).value.next <= |data|
    decreases |entries| - i
  {
    if i < |entries| {
      RecordLoopStep(record, data, pos, entries, i, acc);
      assert record(data, pos, entries[i]) == RecordAt(data, pos, meta, entries[i]);
      var rec := record(data, pos, entries[i]).value;
      RecordAtBound(data, pos, meta, entries[i]);
      RecordLoopBound(record, meta, data, rec.next, entries, i + 1, acc + [rec.value]);
    }
  }

  /** A successful parse consumes at least the archive type and the two
      section counts, and ends inside the buffer. */
  lemma ParseAtBound(data: seq<byte>, pos: nat, st: PckState)
    requires ParseAt(data, pos, st).Success?
    ensures pos + 12 <= ParseAt(data, pos, st).value.next <= |data|
  {
    ParseAtParts(data, pos, st);
    var pckType := IntAt(data, pos).value;
    MetaSectionBound(data, pckType.next, st.meta);
    var meta := MetaSection(data, pckType.next, st.meta).value;
    FileEntrySectionBound(data, meta.next, st.fileEntries);
    var entries := FileEntrySection(data, meta.next, st.fileEntries).value;
    RecordLoopBound(RecordItem(meta.value), meta.value, data, entries.next, entries.value, 0, st.data);
  }
}
