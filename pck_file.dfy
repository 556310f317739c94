/** PCKFile: the decoder object whose fields parse fills in, driven by an
    InputStream. Every method is proved to do exactly what the pure layout in
    PckFormat describes for the bytes at the stream's cursor. */
module PckFiles {
  import opened Results
  import opened Bytes
  import opened InputStreams
  import opened PckFormat

  /** A read method returned what the layout function decodes, and left the
      cursor just after it; or it failed with the layout function's error. */
  ghost predicate Agrees<T>(r: Result<T>, spec: Result<Parsed<T>>, pos: nat) {
    spec == if r.Success? then Success(Parsed(r.value, pos)) else Failure(r.error)
  }

  /** A state-changing method left `result` where the layout function says,
      and the cursor just after the section; or it failed with the layout
      function's error. */
  ghost predicate Completes<T>(r: Result<()>, spec: Result<Parsed<T>>, result: T, pos: nat) {
    spec == if r.Success? then Success(Parsed(result, pos)) else Failure(r.error)
  }

  class PCKFile {
    var pckType: int32
    var meta: map<int32, String16>
    var fileEntries: seq<PCKFileEntry>
    var data: seq<PCKFileData>

    /** The object's fields as one value. */
    function State(): PckState
      reads this
    {
      PckState(pckType, meta, fileEntries, data)
    }

    constructor ()
      ensures State() == Fresh
    {
      pckType := -1;
      meta := map[];
      fileEntries := [];
      data := [];
    }

    /** readInts: `count` big-endian int32 values read from the stream. */
    method ReadInts(stream: InputStream, count: nat) returns (r: Result<seq<int32>>)
      requires stream.Valid()
      modifies stream`pos
      ensures stream.Valid()
      ensures Agrees(r, IntsAt(stream.data, old(stream.pos), count), stream.pos)
      ensures r.Failure? ==> stream.pos == old(stream.pos)
    {
      var bytes :- stream.Read(4 * count);
      r := Success(DecodeInts(bytes));
    }

    /** readInt: one big-endian int32 read from the stream. */
    method ReadInt(stream: InputStream) returns (r: Result<int32>)
      requires stream.Valid()
      modifies stream`pos
      ensures stream.Valid()
      ensures Agrees(r, IntAt(stream.data, old(stream.pos)), stream.pos)
      ensures r.Failure? ==> stream.pos == old(stream.pos)
    {
      IntAtIsSingleInts(stream.data, stream.pos);
      var values :- ReadInts(stream, 1);
      r := Success(values[0]);
    }

    /** readString: a length-prefixed UTF-16BE string read from the stream. */
    method ReadString(stream: InputStream) returns (r: Result<String16>)
      requires stream.Valid()
      modifies stream`pos
      ensures stream.Valid()
      ensures Agrees(r, StringAt(stream.data, old(stream.pos)), stream.pos)
    {
      var count :- ReadInt(stream);
      if count < 0 {
        return Failure(NegativeLength(count));
      }
      var bytes :- stream.Read(2 * count as int);
      r := Success(DecodeUnits(bytes));
    }

    /* The loops below are proved for a ghost parameter that stands for the
       layout function of one iteration: each such method requires it to agree
       with that function everywhere, and is stated in its terms. The
       parameter only keeps the verifier from unfolding that function at
       every step of the loop proofs, which keeps them cheap; it changes
       nothing that is promised. */

    /** One iteration of the loop in readMetaEntries: index, name, the store
        into `meta`, then the reserved field. `item` is MetaEntryAt. */
    method ReadMetaEntry(stream: InputStream, ghost item: (seq<byte>, nat) -> Result<Parsed<MetaEntry>>)
      returns (r: Result<MetaEntry>)
      requires stream.Valid()
      requires forall d, p {:trigger MetaEntryAt(d, p)} :: item(d, p) == MetaEntryAt(d, p)
      modifies this`meta, stream`pos
      ensures stream.Valid()
      ensures Agrees(r, item(stream.data, old(stream.pos)), stream.pos)
      ensures r.Success? ==> meta == old(meta)[r.value.index := r.value.name]
    {
      assert item(stream.data, stream.pos) == MetaEntryAt(stream.data, stream.pos);
      var index :- ReadInt(stream);
      var name :- ReadString(stream);
      meta := meta[index := name];
      var reserved :- stream.Read(ReservedSize);
      r := Success(MetaEntry(index, name));
    }

    /** The loop of readMetaEntries: `n` meta entries, each stored into
        `meta` as it is read, and the flag that is set once an entry named
        "XMLVERSION" has been read. `entries` is the ghost record of what was
        read; `item` is MetaEntryAt. */
    method ReadMetaLoop(stream: InputStream, n: nat, ghost item: (seq<byte>, nat) -> Result<Parsed<MetaEntry>>)
      returns (r: Result<bool>, ghost entries: seq<MetaEntry>)
      requires stream.Valid()
      requires forall d, p {:trigger MetaEntryAt(d, p)} :: item(d, p) == MetaEntryAt(d, p)
      modifies this`meta, stream`pos
      ensures stream.Valid()
      ensures Repeat(item, stream.data, old(stream.pos), n, []) ==
                if r.Success? then Success(Parsed(entries, stream.pos)) else Failure(r.error)
      ensures r.Success? ==> meta == ApplyMeta(old(meta), entries) && r.value == HasXmlVersion(entries)
    {
      ghost var goal := Repeat(item, stream.data, stream.pos, n, []);
      var hasXmlVersionTag := false;
      entries := [];
      var i := 0;
      while i < n
        invariant stream.Valid() && 0 <= i <= n
        invariant goal == Repeat(item, stream.data, stream.pos, n - i, entries)
        invariant meta == ApplyMeta(old(meta), entries)
        invariant hasXmlVersionTag == HasXmlVersion(entries)
      {
        ghost var k: nat := n - i;
        ghost var entryStart := stream.pos;
        var e := ReadMetaEntry(stream, item);
        RepeatStep(item, stream.data, entryStart, k, entries);
        if e.Failure? {
          return Failure(e.error), entries;
        }
        if e.value.name == XmlVersionTag {
          hasXmlVersionTag := true;
        }
        MetaEntryAppend(old(meta), entries, e.value);
        entries := entries + [e.value];
        i := i + 1;
      }
      r := Success(hasXmlVersionTag);
    }

    /** readMetaEntries: the meta section, stored into `meta` entry by entry. */
    method ReadMetaEntries(stream: InputStream) returns (r: Result<()>)
      requires stream.Valid()
      modifies this`meta, stream`pos
      ensures stream.Valid()
      ensures Completes(r, MetaSection(stream.data, old(stream.pos), old(meta)), meta, stream.pos)
    {
      var count :- ReadInt(stream);
      var hasXmlVersionTag, entries := ReadMetaLoop(stream, Iterations(count), MetaEntryAt);
      if hasXmlVersionTag.Failure? {
        return Failure(hasXmlVersionTag.error);
      }
      assert MetaSection(stream.data, old(stream.pos), old(meta)) ==
               MetaSectionTail(stream.data, old(meta), Parsed(entries, stream.pos));
      if hasXmlVersionTag.value {
        // The value is only reported; it is read to keep the stream aligned.
        var version :- ReadInt(stream);
      }
      r := Success(());
    }

    /** One iteration of the loop in readFileEntries: size and type, name,
        the append to `fileEntries`, then the reserved field. `item` is
        FileEntryAt. */
    method ReadFileEntry(stream: InputStream, ghost item: (seq<byte>, nat) -> Result<Parsed<PCKFileEntry>>)
      returns (r: Result<PCKFileEntry>)
      requires stream.Valid()
      requires forall d, p {:trigger FileEntryAt(d, p)} :: item(d, p) == FileEntryAt(d, p)
      modifies this`fileEntries, stream`pos
      ensures stream.Valid()
      ensures Agrees(r, item(stream.data, old(stream.pos)), stream.pos)
      ensures r.Success? ==> fileEntries == old(fileEntries) + [r.value]
    {
      assert item(stream.data, stream.pos) == FileEntryAt(stream.data, stream.pos);
      var sizeAndType :- ReadInts(stream, 2);
      var name :- ReadString(stream);
      var entry := PCKFileEntry(sizeAndType[0], sizeAndType[1], name);
      fileEntries := fileEntries + [entry];
      var reserved :- stream.Read(ReservedSize);
      r := Success(entry);
    }

    /** The loop of readFileEntries: `n` file entries appended to
        `fileEntries`. `item` is FileEntryAt. */
    method ReadFileEntryLoop(stream: InputStream, n: nat, ghost item: (seq<byte>, nat) -> Result<Parsed<PCKFileEntry>>)
      returns (r: Result<()>)
      requires stream.Valid()
      requires forall d, p {:trigger FileEntryAt(d, p)} :: item(d, p) == FileEntryAt(d, p)
      modifies this`fileEntries, stream`pos
      ensures stream.Valid()
      ensures Completes(r, Repeat(item, stream.data, old(stream.pos), n, old(fileEntries)), fileEntries, stream.pos)
    {
      ghost var goal := Repeat(item, stream.data, stream.pos, n, fileEntries);
      var i := 0;
      while i < n
        invariant stream.Valid() && 0 <= i <= n
        invariant goal == Repeat(item, stream.data, stream.pos, n - i, fileEntries)
      {
        ghost var k: nat := n - i;
        ghost var entryStart, before := stream.pos, fileEntries;
        var e := ReadFileEntry(stream, item);
        RepeatStep(item, stream.data, entryStart, k, before);
        if e.Failure? {
          return Failure(e.error);
        }
        i := i + 1;
      }
      r := Success(());
    }

    /** readFileEntries: the file-entry section, appended to `fileEntries`. */
    method ReadFileEntries(stream: InputStream) returns (r: Result<()>)
      requires stream.Valid()
      modifies this`fileEntries, stream`pos
      ensures stream.Valid()
      ensures Completes(r, FileEntrySection(stream.data, old(stream.pos), old(fileEntries)), fileEntries, stream.pos)
    {
      var count :- ReadInt(stream);
      r := ReadFileEntryLoop(stream, Iterations(count), FileEntryAt);
    }

    /** One iteration of the property loop in parse: meta index, value, the
        reserved field, then the lookup of the key. `item` is PropertyAt
        under the current meta table. */
    method ReadProperty(stream: InputStream, ghost item: (seq<byte>, nat) -> Result<Parsed<Property>>)
      returns (r: Result<Property>)
      requires stream.Valid()
      requires forall d, p {:trigger PropertyAt(d, p, meta)} :: item(d, p) == PropertyAt(d, p, meta)
      modifies stream`pos
      ensures stream.Valid()
      ensures Agrees(r, item(stream.data, old(stream.pos)), stream.pos)
    {
      assert item(stream.data, stream.pos) == PropertyAt(stream.data, stream.pos, meta);
      var entryIndex :- ReadInt(stream);
      var value :- ReadString(stream);
      var reserved :- stream.Read(ReservedSize);
      var key :- EntryName(meta, entryIndex);
      r := Success(Property(key, value));
    }

    /** The property loop in parse: `n` properties, in stream order. `item`
        is PropertyAt under the current meta table. */
    method ReadProperties(stream: InputStream, n: nat, ghost item: (seq<byte>, nat) -> Result<Parsed<Property>>)
      returns (r: Result<seq<Property>>)
      requires stream.Valid()
      requires forall d, p {:trigger PropertyAt(d, p, meta)} :: item(d, p) == PropertyAt(d, p, meta)
      modifies stream`pos
      ensures stream.Valid()
      ensures Agrees(r, Repeat(item, stream.data, old(stream.pos), n, []), stream.pos)
    {
      ghost var goal := Repeat(item, stream.data, stream.pos, n, []);
      var properties: seq<Property> := [];
      var j := 0;
      while j < n
        invariant stream.Valid() && 0 <= j <= n
        invariant goal == Repeat(item, stream.data, stream.pos, n - j, properties)
      {
        ghost var k: nat := n - j;
        ghost var propertyStart := stream.pos;
        var p := ReadProperty(stream, item);
        RepeatStep(item, stream.data, propertyStart, k, properties);
        if p.Failure? {
          return Failure(p.error);
        }
        properties := properties + [p.value];
        j := j + 1;
      }
      r := Success(properties);
    }

    /** One iteration of the file loop in parse: the property count, that
        many properties, then the payload of `fileEntry.size` bytes.
        `record` is RecordAt under the current meta table. */
    method ReadRecord(stream: InputStream, fileEntry: PCKFileEntry,
                      ghost record: (seq<byte>, nat, PCKFileEntry) -> Result<Parsed<PCKFileData>>)
      returns (r: Result<PCKFileData>)
      requires stream.Valid()
      requires forall d, p, e {:trigger RecordAt(d, p, meta, e)} :: record(d, p, e) == RecordAt(d, p, meta, e)
      modifies stream`pos
      ensures stream.Valid()
      ensures Agrees(r, record(stream.data, old(stream.pos), fileEntry), stream.pos)
    {
      assert record(stream.data, stream.pos, fileEntry) == RecordAt(stream.data, stream.pos, meta, fileEntry);
      var propertyCount :- ReadInt(stream);
      var properties :- ReadProperties(stream, Iterations(propertyCount), PropertyItem(meta));
      if fileEntry.size < 0 {
        return Failure(NegativeLength(fileEntry.size));
      }
      var payload :- stream.Read(fileEntry.size);
      r := Success(PCKFileData(fileEntry, payload, properties));
    }

    /** The file loop in parse: one data block per file entry, appended to
        `data`. `record` is RecordAt under the current meta table. */
    method ReadRecords(stream: InputStream, ghost record: (seq<byte>, nat, PCKFileEntry) -> Result<Parsed<PCKFileData>>)
      returns (r: Result<()>)
      requires stream.Valid()
      requires forall d, p, e {:trigger RecordAt(d, p, meta, e)} :: record(d, p, e) == RecordAt(d, p, meta, e)
      modifies this`data, stream`pos
      ensures stream.Valid()
      ensures Completes(r, RecordLoop(record, stream.data, old(stream.pos), fileEntries, 0, old(data)), data, stream.pos)
    {
      ghost var goal := RecordLoop(record, stream.data, stream.pos, fileEntries, 0, data);
      var i := 0;
      while i < |fileEntries|
        invariant stream.Valid() && 0 <= i <= |fileEntries|
        invariant goal == RecordLoop(record, stream.data, stream.pos, fileEntries, i, data)
      {
        ghost var recordStart := stream.pos;
        var rec := ReadRecord(stream, fileEntries[i], record);
        RecordLoopStep(record, stream.data, recordStart, fileEntries, i, data);
        if rec.Failure? {
          return Failure(rec.error);
        }
        data := data + [rec.value];
        i := i + 1;
      }
      r := Success(());
    }

    /** parse: the whole archive, filling in every field of the object. */
    method Parse(stream: InputStream) returns (r: Result<()>)
      requires stream.Valid()
      modifies this, stream`pos
      ensures stream.Valid()
      ensures Completes(r, ParseAt(stream.data, old(stream.pos), old(State())), State(), stream.pos)
    {
      ghost var spec := ParseAt(stream.data, stream.pos, State());
      ghost var st0 := State();
      var archiveType :- ReadInt(stream);
      pckType := archiveType;
      ghost var metaStart := stream.pos;
      var metaRead := ReadMetaEntries(stream);
      if metaRead.Failure? {
        assert MetaSection(stream.data, metaStart, st0.meta) == Failure(metaRead.error);
        assert spec == Failure(metaRead.error);
        return Failure(metaRead.error);
      }
      ghost var entriesStart := stream.pos;
      var entriesRead := ReadFileEntries(stream);
      if entriesRead.Failure? {
        assert FileEntrySection(stream.data, entriesStart, st0.fileEntries) == Failure(entriesRead.error);
        assert spec == Failure(entriesRead.error);
        return Failure(entriesRead.error);
      }
      ghost var recordsStart := stream.pos;
      var recordsRead := ReadRecords(stream, RecordItem(meta));
      assert spec == (var records :- RecordLoop(RecordItem(meta), stream.data, recordsStart, fileEntries, 0, st0.data);
                      Success(Parsed(PckState(archiveType, meta, fileEntries, records.value), records.next)));
      r := recordsRead;
    }
  }
}
