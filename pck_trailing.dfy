/** The decoder depends on exactly the bytes it consumes. Whatever bytes
    follow them, every read that did not run out of input, up to a whole
    parse, has the same outcome; cutting the buffer right after a successful
    read leaves that read unchanged; and any cut inside an encoded archive
    runs out of input. */
module PckTrailing {
  import opened Results
  import opened Bytes
  import opened InputStreams
  import opened PckFormat
  import PckEncoding

  /** `item`'s outcome at any position that did not run out of `data` stays
      the same when `more` is appended to `data`. */
  ghost predicate Extends<T>(item: (seq<byte>, nat) -> Result<Parsed<T>>, data: seq<byte>, more: seq<byte>) {
    forall p: nat :: NotEndOfStream(item(data, p)) ==> item(data + more, p) == item(data, p)
  }

  /* Fields. */

  lemma IntsAtExtend(data: seq<byte>, more: seq<byte>, pos: nat, count: nat)
    requires NotEndOfStream(IntsAt(data, pos, count))
    ensures IntsAt(data + more, pos, count) == IntsAt(data, pos, count)
  {
    TakeExtend(data, more, pos, 4 * count);
  }

  lemma IntAtExtend(data: seq<byte>, more: seq<byte>, pos: nat)
    requires NotEndOfStream(IntAt(data, pos))
    ensures IntAt(data + more, pos) == IntAt(data, pos)
  {
    TakeExtend(data, more, pos, 4);
  }

  lemma StringAtExtend(data: seq<byte>, more: seq<byte>, pos: nat)
    requires NotEndOfStream(StringAt(data, pos))
    ensures StringAt(data + more, pos) == StringAt(data, pos)
  {
    IntAtExtend(data, more, pos);
    var n := IntAt(data, pos).value;
    if n.value >= 0 {
      TakeExtend(data, more, n.next, 2 * n.value as int);
    }
  }

  lemma MetaEntryAtExtend(data: seq<byte>, more: seq<byte>, pos: nat)
    requires NotEndOfStream(MetaEntryAt(data, pos))
    ensures MetaEntryAt(data + more, pos) == MetaEntryAt(data, pos)
  {
    IntAtExtend(data, more, pos);
    StringAtExtend(data, more, pos + 4);
    var name := StringAt(data, pos + 4);
    if name.Success? {
      TakeExtend(data, more, name.value.next, ReservedSize);
    }
  }

  lemma FileEntryAtExtend(data: seq<byte>, more: seq<byte>, pos: nat)
    requires NotEndOfStream(FileEntryAt(data, pos))
    ensures FileEntryAt(data + more, pos) == FileEntryAt(data, pos)
  {
    IntsAtExtend(data, more, pos, 2);
    StringAtExtend(data, more, pos + 8);
    var name := StringAt(data, pos + 8);
    if name.Success? {
      TakeExtend(data, more, name.value.next, ReservedSize);
    }
  }

  /** A property that failed on an unknown meta index fails on the same index
      whatever follows, since all three of its fields were present. */
  lemma PropertyAtExtend(data: seq<byte>, more: seq<byte>, pos: nat, meta: map<int32, String16>)
    requires NotEndOfStream(PropertyAt(data, pos, meta))
    ensures PropertyAt(data + more, pos, meta) == PropertyAt(data, pos, meta)
  {
    IntAtExtend(data, more, pos);
    StringAtExtend(data, more, pos + 4);
    var value := StringAt(data, pos + 4);
    if value.Success? {
      TakeExtend(data, more, value.value.next, ReservedSize);
    }
  }

  /* Loops. */

  /** A loop whose outcome did not run out of input has the same outcome on
      a longer buffer, when each of its items does. */
  lemma {:induction false} RepeatExtend<T>(item: (seq<byte>, nat) -> Result<Parsed<T>>, data: seq<byte>, more: seq<byte>,
                                           pos: nat, k: nat, acc: seq<T>)
    requires Extends(item, data, more)
    requires NotEndOfStream(Repeat(item, data, pos, k, acc))
    ensures Repeat(item, data + more, pos, k, acc) == Repeat(item, data, pos, k, acc)
    decreases k
  {
    if k > 0 {
      RepeatStep(item, data, pos, k, acc);
      RepeatStep(item, data + more, pos, k, acc);
      var e := item(data, pos);
      assert NotEndOfStream(e);
      if e.Success? {
        RepeatExtend(item, data, more, e.value.next, k - 1, acc + [e.value.value]);
      }
    }
  }

  lemma MetaEntriesExtend(data: seq<byte>, more: seq<byte>)
    ensures Extends(MetaEntryAt, data, more)
  {
    forall p: nat | NotEndOfStream(MetaEntryAt(data, p))
      ensures MetaEntryAt(data + more, p) == MetaEntryAt(data, p)
    {
      MetaEntryAtExtend(data, more, p);
    }
  }

  lemma FileEntriesExtend(data: seq<byte>, more: seq<byte>)
    ensures Extends(FileEntryAt, data, more)
  {
    forall p: nat | NotEndOfStream(FileEntryAt(data, p))
      ensures FileEntryAt(data + more, p) == FileEntryAt(data, p)
    {
      FileEntryAtExtend(data, more, p);
    }
  }

  lemma PropertiesExtend(data: seq<byte>, more: seq<byte>, meta: map<int32, String16>)
    ensures Extends(PropertyItem(meta), data, more)
  {
    forall p: nat | NotEndOfStream(PropertyItem(meta)(data, p))
      ensures PropertyItem(meta)(data + more, p) == PropertyItem(meta)(data, p)
    {
      PropertyAtExtend(data, more, p, meta);
    }
  }

  /* Sections. */

  lemma MetaSectionExtend(data: seq<byte>, more: seq<byte>, pos: nat, meta: map<int32, String16>)
    requires NotEndOfStream(MetaSection(data, pos, meta))
    ensures MetaSection(data + more, pos, meta) == MetaSection(data, pos, meta)
  {
    IntAtExtend(data, more, pos);
    var count := IntAt(data, pos).value;
    MetaEntriesExtend(data, more);
    RepeatExtend(MetaEntryAt, data, more, count.next, Iterations(count.value), []);
    var entries := Repeat(MetaEntryAt, data, count.next, Iterations(count.value), []);
    if entries.Success? && HasXmlVersion(entries.value.value) {
      IntAtExtend(data, more, entries.value.next);
    }
  }

  lemma FileEntrySectionExtend(data: seq<byte>, more: seq<byte>, pos: nat, entries: seq<PCKFileEntry>)
    requires NotEndOfStream(FileEntrySection(data, pos, entries))
    ensures FileEntrySection(data + more, pos, entries) == FileEntrySection(data, pos, entries)
  {
    IntAtExtend(data, more, pos);
    var count := IntAt(data, pos).value;
    FileEntriesExtend(data, more);
    RepeatExtend(FileEntryAt, data, more, count.next, Iterations(count.value), entries);
  }

  /** A data block whose outcome did not run out of input, including a
      negative payload size or an unknown meta index, has the same outcome on
      a longer buffer. */
  lemma RecordAtExtend(data: seq<byte>, more: seq<byte>, pos: nat, meta: map<int32, String16>, entry: PCKFileEntry)
    requires NotEndOfStream(RecordAt(data, pos, meta, entry))
    ensures RecordAt(data + more, pos, meta, entry) == RecordAt(data, pos, meta, entry)
  {
    IntAtExtend(data, more, pos);
    var count := IntAt(data, pos).value;
    PropertiesExtend(data, more, meta);
    RepeatExtend(PropertyItem(meta), data, more, count.next, Iterations(count.value), []);
    var props := Repeat(PropertyItem(meta), data, count.next, Iterations(count.value), []);
    if props.Success? {
      assert RecordAt(data, pos, meta, entry) == RecordTail(data, entry, props.value);
      assert RecordAt(data + more, pos, meta, entry) == RecordTail(data + more, entry, props.value);
      RecordTailExtend(data, more, entry, props.value);
    }
  }

  lemma RecordTailExtend(data: seq<byte>, more: seq<byte>, entry: PCKFileEntry, props: Parsed<seq<Property>>)
    requires NotEndOfStream(RecordTail(data, entry, props))
    ensures RecordTail(data + more, entry, props) == RecordTail(data, entry, props)
  {
    if entry.size >= 0 {
      TakeExtend(data, more, props.next, entry.size);
    }
  }

  /** The record loop's outcome, when it did not run out of input, is the
      same on a longer buffer. `record` is RecordAt under `meta`. */
  lemma {:induction false} RecordLoopExtend(record: (seq<byte>, nat, PCKFileEntry) -> Result<Parsed<PCKFileData>>, meta: map<int32, String16>,
                                            data: seq<byte>, more: seq<byte>, pos: nat,
                                            entries: seq<PCKFileEntry>, i: nat, acc: seq<PCKFileData>)
    requires forall d, p, e {:trigger RecordAt(d, p, meta, e)} :: record(d, p, e) == RecordAt(d, p, meta, e)
    requires i <= |entries|
    requires NotEndOfStream(RecordLoop(record, data, pos, entries, i, acc))
    ensures RecordLoop(record, data + more, pos, entries, i, acc) == RecordLoop(record, data, pos, entries, i, acc)
    decreases |entries| - i
  {
    if i < |entries| {
      RecordLoopStep(record, data, pos, entries, i, acc);
      RecordLoopStep(record, data + more, pos, entries, i, acc);
      assert record(data, pos, entries[i]) == RecordAt(data, pos, meta, entries[i]);
      assert record(data + more, pos, entries[i]) == RecordAt(data + more, pos, meta, entries[i]);
      var rec := record(data, pos, entries[i]);
      assert NotEndOfStream(rec);
      RecordAtExtend(data, more, pos, meta, entries[i]);
      if rec.Success? {
        RecordLoopExtend(record, meta, data, more, rec.value.next, entries, i + 1, acc + [rec.value.value]);
      }
    }
  }

  /* The whole archive. */

  /** A parse that did not run out of input, whether it succeeded or failed
      on a negative length or an unknown meta index, has the same outcome
      whatever bytes are appended: the parser never checks for the end of the
      buffer. */
  lemma ParseAtExtend(data: seq<byte>, more: seq<byte>, pos: nat, st: PckState)
    requires NotEndOfStream(ParseAt(data, pos, st))
    ensures ParseAt(data + more, pos, st) == ParseAt(data, pos, st)
  {
    IntAtExtend(data, more, pos);
    var pckType := IntAt(data, pos).value;
    MetaSectionExtend(data, more, pckType.next, st.meta);
    var meta := MetaSection(data, pckType.next, st.meta);
    if meta.Success? {
      FileEntrySectionExtend(data, more, meta.value.next, st.fileEntries);
      var entries := FileEntrySection(data, meta.value.next, st.fileEntries);
      if entries.Success? {
        RecordLoopExtend(RecordItem(meta.value.value), meta.value.value, data, more, entries.value.next, entries.value.value, 0, st.data);
      }
    }
  }

  /** Trailing bytes are ignored: appending bytes to a buffer that decodes
      does not change what it decodes to, nor where decoding stops. */
  lemma DecodeExtend(data: seq<byte>, more: seq<byte>)
    requires Decode(data).Success?
    ensures Decode(data + more) == Decode(data)
  {
    ParseAtExtend(data, more, 0, Fresh);
  }

  /* Cutting the buffer after what was read. */

  /** `item`'s successful reads from `data` that end by `m` read the same from
      the first `m` bytes of `data`. */
  ghost predicate Shrinks<T>(item: (seq<byte>, nat) -> Result<Parsed<T>>, data: seq<byte>, m: nat) {
    m <= |data| &&
    forall p: nat :: item(data, p).Success? && item(data, p).value.next <= m ==> item(data[..m], p) == item(data, p)
  }

  lemma TakeShrink(data: seq<byte>, m: nat, pos: nat, size: nat)
    requires pos + size <= m <= |data|
    ensures Take(data[..m], pos, size) == Take(data, pos, size)
  {
    assert Take(data[..m], pos, size).value == Take(data, pos, size).value;
  }

  lemma IntsAtShrink(data: seq<byte>, m: nat, pos: nat, count: nat)
    requires pos + 4 * count <= m <= |data|
    ensures IntsAt(data[..m], pos, count) == IntsAt(data, pos, count)
  {
    TakeShrink(data, m, pos, 4 * count);
  }

  lemma IntAtShrink(data: seq<byte>, m: nat, pos: nat)
    requires pos + 4 <= m <= |data|
    ensures IntAt(data[..m], pos) == IntAt(data, pos)
  {
    TakeShrink(data, m, pos, 4);
  }

  lemma StringAtShrink(data: seq<byte>, m: nat, pos: nat)
    requires StringAt(data, pos).Success? && StringAt(data, pos).value.next <= m <= |data|
    ensures StringAt(data[..m], pos) == StringAt(data, pos)
  {
    IntAtShrink(data, m, pos);
    var n := IntAt(data, pos).value;
    TakeShrink(data, m, n.next, 2 * n.value as int);
  }

  lemma MetaEntryAtShrink(data: seq<byte>, m: nat, pos: nat)
    requires MetaEntryAt(data, pos).Success? && MetaEntryAt(data, pos).value.next <= m <= |data|
    ensures MetaEntryAt(data[..m], pos) == MetaEntryAt(data, pos)
  {
    IntAtShrink(data, m, pos);
    StringAtShrink(data, m, pos + 4);
    TakeShrink(data, m, StringAt(data, pos + 4).value.next, ReservedSize);
  }

  lemma FileEntryAtShrink(data: seq<byte>, m: nat, pos: nat)
    requires FileEntryAt(data, pos).Success? && FileEntryAt(data, pos).value.next <= m <= |data|
    ensures FileEntryAt(data[..m], pos) == FileEntryAt(data, pos)
  {
    IntsAtShrink(data, m, pos, 2);
    StringAtShrink(data, m, pos + 8);
    TakeShrink(data, m, StringAt(data, pos + 8).value.next, ReservedSize);
  }

  lemma PropertyAtShrink(data: seq<byte>, m: nat, pos: nat, meta: map<int32, String16>)
    requires PropertyAt(data, pos, meta).Success? && PropertyAt(data, pos, meta).value.next <= m <= |data|
    ensures PropertyAt(data[..m], pos, meta) == PropertyAt(data, pos, meta)
  {
    IntAtShrink(data, m, pos);
    StringAtShrink(data, m, pos + 4);
    TakeShrink(data, m, StringAt(data, pos + 4).value.next, ReservedSize);
  }

  /** A successful loop that ends by `m` reads the same from the first `m`
      bytes, when each of its items does. */
  lemma {:induction false} RepeatShrink<T>(item: (seq<byte>, nat) -> Result<Parsed<T>>, data: seq<byte>, m: nat,
                                           pos: nat, k: nat, acc: seq<T>)
    requires Advances(item) && Shrinks(item, data, m)
    requires Repeat(item, data, pos, k, acc).Success? && Repeat(item, data, pos, k, acc).value.next <= m
    ensures Repeat(item, data[..m], pos, k, acc) == Repeat(item, data, pos, k, acc)
    decreases k
  {
    if k > 0 {
      RepeatStep(item, data, pos, k, acc);
      RepeatStep(item, data[..m], pos, k, acc);
      var e := item(data, pos).value;
      RepeatBounds(item, data, e.next, k - 1, acc + [e.value]);
      RepeatShrink(item, data, m, e.next, k - 1, acc + [e.value]);
    }
  }

  lemma MetaEntriesShrink(data: seq<byte>, m: nat)
    requires m <= |data|
    ensures Shrinks(MetaEntryAt, data, m)
  {
    forall p: nat | MetaEntryAt(data, p).Success? && MetaEntryAt(data, p).value.next <= m
      ensures MetaEntryAt(data[..m], p) == MetaEntryAt(data, p)
    {
      MetaEntryAtShrink(data, m, p);
    }
  }

  lemma FileEntriesShrink(data: seq<byte>, m: nat)
    requires m <= |data|
    ensures Shrinks(FileEntryAt, data, m)
  {
    forall p: nat | FileEntryAt(data, p).Success? && FileEntryAt(data, p).value.next <= m
      ensures FileEntryAt(data[..m], p) == FileEntryAt(data, p)
    {
      FileEntryAtShrink(data, m, p);
    }
  }

  lemma PropertiesShrink(data: seq<byte>, m: nat, meta: map<int32, String16>)
    requires m <= |data|
    ensures Shrinks(PropertyItem(meta), data, m)
  {
    forall p: nat | PropertyItem(meta)(data, p).Success? && PropertyItem(meta)(data, p).value.next <= m
      ensures PropertyItem(meta)(data[..m], p) == PropertyItem(meta)(data, p)
    {
      PropertyAtShrink(data, m, p, meta);
    }
  }

  lemma MetaSectionShrink(data: seq<byte>, m: nat, pos: nat, meta: map<int32, String16>)
    requires MetaSection(data, pos, meta).Success? && MetaSection(data, pos, meta).value.next <= m <= |data|
    ensures MetaSection(data[..m], pos, meta) == MetaSection(data, pos, meta)
  {
    var count := IntAt(data, pos).value;
    var entries := Repeat(MetaEntryAt, data, count.next, Iterations(count.value), []).value;
    MetaEntriesAdvance();
    RepeatBounds(MetaEntryAt, data, count.next, Iterations(count.value), []);
    IntAtShrink(data, m, pos);
    MetaEntriesShrink(data, m);
    RepeatShrink(MetaEntryAt, data, m, count.next, Iterations(count.value), []);
    if HasXmlVersion(entries.value) {
      IntAtShrink(data, m, entries.next);
    }
  }

  lemma FileEntrySectionShrink(data: seq<byte>, m: nat, pos: nat, entries: seq<PCKFileEntry>)
    requires FileEntrySection(data, pos, entries).Success? && FileEntrySection(data, pos, entries).value.next <= m <= |data|
    ensures FileEntrySection(data[..m], pos, entries) == FileEntrySection(data, pos, entries)
  {
    var count := IntAt(data, pos).value;
    FileEntriesAdvance();
    RepeatBounds(FileEntryAt, data, count.next, Iterations(count.value), entries);
    IntAtShrink(data, m, pos);
    FileEntriesShrink(data, m);
    RepeatShrink(FileEntryAt, data, m, count.next, Iterations(count.value), entries);
  }

  lemma RecordTailShrink(data: seq<byte>, m: nat, entry: PCKFileEntry, props: Parsed<seq<Property>>)
    requires RecordTail(data, entry, props).Success? && RecordTail(data, entry, props).value.next <= m <= |data|
    ensures RecordTail(data[..m], entry, props) == RecordTail(data, entry, props)
  {
    TakeShrink(data, m, props.next, entry.size as int);
  }

  lemma RecordAtShrink(data: seq<byte>, m: nat, pos: nat, meta: map<int32, String16>, entry: PCKFileEntry)
    requires RecordAt(data, pos, meta, entry).Success? && RecordAt(data, pos, meta, entry).value.next <= m <= |data|
    ensures RecordAt(data[..m], pos, meta, entry) == RecordAt(data, pos, meta, entry)
  {
    RecordAtParts(data, pos, meta, entry);
    var count := IntAt(data, pos).value;
    var props := Repeat(PropertyItem(meta), data, count.next, Iterations(count.value), []).value;
    PropertiesAdvance(meta);
    RepeatBounds(PropertyItem(meta), data, count.next, Iterations(count.value), []);
    RecordTailShape(data, entry, props);
    IntAtShrink(data, m, pos);
    PropertiesShrink(data, m, meta);
    RepeatShrink(PropertyItem(meta), data, m, count.next, Iterations(count.value), []);
    assert RecordAt(data[..m], pos, meta, entry) == RecordTail(data[..m], entry, props);
    RecordTailShrink(data, m, entry, props);
  }

  /** A successful record loop that ends by `m` reads the same from the first
      `m` bytes. `record` is RecordAt under `meta`. */
  lemma {:induction false} RecordLoopShrink(record: (seq<byte>, nat, PCKFileEntry) -> Result<Parsed<PCKFileData>>, meta: map<int32, String16>,
                                            data: seq<byte>, m: nat, pos: nat,
                                            entries: seq<PCKFileEntry>, i: nat, acc: seq<PCKFileData>)
    requires forall d, p, e {:trigger RecordAt(d, p, meta, e)} :: record(d, p, e) == RecordAt(d, p, meta, e)
    requires i <= |entries|
    requires RecordLoop(record, data, pos, entries, i, acc).Success?
    requires RecordLoop(record, data, pos, entries, i, acc).value.next <= m <= |data|
    ensures RecordLoop(record, data[..m], pos, entries, i, acc) == RecordLoop(record, data, pos, entries, i, acc)
    decreases |entries| - i
  {
    if i < |entries| {
      RecordLoopStep(record, data, pos, entries, i, acc);
      RecordLoopStep(record, data[..m], pos, entries, i, acc);
      assert record(data, pos, entries[i]) == RecordAt(data, pos, meta, entries[i]);
      assert record(data[..m], pos, entries[i]) == RecordAt(data[..m], pos, meta, entries[i]);
      var rec := record(data, pos, entries[i]).value;
      RecordAtBound(data, pos, meta, entries[i]);
      RecordLoopBound(record, meta, data, rec.next, entries, i + 1, acc + [rec.value]);
      RecordAtShrink(data, m, pos, meta, entries[i]);
      RecordLoopShrink(record, meta, data, m, rec.next, entries, i + 1, acc + [rec.value]);
    }
  }

  /** A successful parse that ends by `m` reads the same from the first `m`
      bytes. */
  lemma ParseAtShrink(data: seq<byte>, m: nat, pos: nat, st: PckState)
    requires ParseAt(data, pos, st).Success? && ParseAt(data, pos, st).value.next <= m <= |data|
    ensures ParseAt(data[..m], pos, st) == ParseAt(data, pos, st)
  {
    ParseAtParts(data, pos, st);
    var pckType := IntAt(data, pos).value;
    MetaSectionBound(data, pckType.next, st.meta);
    var meta := MetaSection(data, pckType.next, st.meta).value;
    FileEntrySectionBound(data, meta.next, st.fileEntries);
    var entries := FileEntrySection(data, meta.next, st.fileEntries).value;
    RecordLoopBound(RecordItem(meta.value), meta.value, data, entries.next, entries.value, 0, st.data);
    IntAtShrink(data, m, pos);
    MetaSectionShrink(data, m, pckType.next, st.meta);
    FileEntrySectionShrink(data, m, meta.next, st.fileEntries);
    RecordLoopShrink(RecordItem(meta.value), meta.value, data, m, entries.next, entries.value, 0, st.data);
  }

  /** A buffer that decodes decodes the same once cut right after the byte
      where decoding stopped: nothing past that byte was looked at. */
  lemma DecodeShrink(data: seq<byte>)
    requires Decode(data).Success?
    ensures Decode(data).value.next <= |data| && Decode(data[..Decode(data).value.next]) == Decode(data)
  {
    ParseAtBound(data, 0, Fresh);
    ParseAtShrink(data, Decode(data).value.next, 0, Fresh);
  }

  /** A buffer that decodes exactly to its end runs out of input once a
      non-empty suffix `more` is cut off: what is left neither decodes nor
      fails in any other way. */
  lemma DecodeCut(cut: seq<byte>, more: seq<byte>)
    requires Decode(cut + more).Success? && Decode(cut + more).value.next == |cut + more|
    requires |more| > 0
    ensures Decode(cut).Failure? && Decode(cut).error.EndOfStream?
  {
    if NotEndOfStream(Decode(cut)) {
      ParseAtExtend(cut, more, 0, Fresh);
      ParseAtBound(cut, 0, Fresh);
      assert false;
    }
  }

  /** The same for a cut at any position `k` short of the end, of a buffer
      that decodes exactly to its end even with nothing appended. */
  lemma DecodeCutAt(data: seq<byte>, k: nat)
    requires Decode(data + []).Success? && Decode(data + []).value.next == |data|
    requires k < |data|
    ensures Decode(data[..k]).Failure? && Decode(data[..k]).error.EndOfStream?
  {
    assert data + [] == data;
    assert data[..k] + data[k..] == data;
    DecodeCut(data[..k], data[k..]);
  }

  /** Cutting at least one byte off the end of an encoded archive makes
      decoding run out of input: it neither succeeds nor fails in any other
      way. */
  lemma DecodeTruncated(a: PckEncoding.Archive, k: nat)
    requires PckEncoding.WellFormed(a) && k < |PckEncoding.Encode(a)|
    ensures Decode(PckEncoding.Encode(a)[..k]).Failure? && Decode(PckEncoding.Encode(a)[..k]).error.EndOfStream?
  {
    PckEncoding.DecodeEncoded(a, []);
    DecodeCutAt(PckEncoding.Encode(a), k);
  }
}
