/** The bounded byte reader: an immutable buffer and a cursor that only moves
    forward, by reads that stay inside the buffer. */
module InputStreams {
  import opened Results
  import opened Bytes

  /** Reference semantics of every read: the `size` bytes of `data` that start
      at `pos`, or an end-of-stream error when they are not all there. */
  function Take(data: seq<byte>, pos: nat, size: nat): (r: Result<seq<byte>>)
    ensures r.Success? <==> pos + size <= |data|
    ensures r.Success? ==> |r.value| == size
    ensures r.Failure? ==> r.error == EndOfStream(pos, size)
  {
    if pos + size <= |data| then Success(seq(size, i requires 0 <= i < size => data[pos + i]))
    else Failure(EndOfStream(pos, size))
  }

  /** A successful read yields exactly the slice `data[pos .. pos + size]`. */
  lemma TakeIsSlice(data: seq<byte>, pos: nat, size: nat)
    requires pos + size <= |data|
    ensures Take(data, pos, size) == Success(data[pos..pos + size])
  {
    assert Take(data, pos, size).value == data[pos..pos + size];
  }

  /** Reading `m` and then `n` bytes succeeds exactly when reading `m + n`
      bytes at once does, and yields the same bytes, split at `m`. */
  lemma TakeConsecutive(data: seq<byte>, pos: nat, m: nat, n: nat)
    ensures Take(data, pos, m + n).Success? <==>
            Take(data, pos, m).Success? && Take(data, pos + m, n).Success?
    ensures Take(data, pos, m + n).Success? ==>
            Take(data, pos, m + n).value == Take(data, pos, m).value + Take(data, pos + m, n).value
  {
    if pos + m + n <= |data| {
      assert data[pos..pos + m + n] == data[pos..pos + m] + data[pos + m..pos + m + n];
    }
  }

  /** Which reads succeed and what they return does not change when more bytes
      are appended to the buffer, as long as the read succeeded before. */
  lemma TakeExtend(data: seq<byte>, more: seq<byte>, pos: nat, size: nat)
    requires Take(data, pos, size).Success?
    ensures Take(data + more, pos, size) == Take(data, pos, size)
  {
    assert Take(data + more, pos, size).value == Take(data, pos, size).value;
  }

  class InputStream {
    const data: seq<byte>
    const dataSize: int
    var pos: int

    /** The buffer's recorded size is its length, and the cursor lies inside
        the buffer or just past its last byte. */
    ghost predicate Valid()
      reads this
    {
      dataSize == |data| && 0 <= pos <= dataSize
    }

    constructor (data: seq<byte>)
      ensures Valid()
      ensures this.data == data && pos == 0
    {
      this.data := data;
      dataSize := |data|;
      pos := 0;
    }

    /** A position no further than the end of the buffer. Nothing bounds it
        from below. */
    predicate IsValidPosition(p: int)
      requires Valid()
      reads this
      ensures IsValidPosition(p) <==> p <= |data|
    {
      p <= dataSize
    }

    /** The bounds check of every read: `size` bytes from `p` end inside the
        buffer. For a position and a size that are not negative this is
        exactly when `Take` succeeds; a negative size always passes it from
        a position inside the buffer. */
    predicate HasEnoughSpace(p: int, size: int)
      requires Valid()
      reads this
      ensures HasEnoughSpace(p, size) <==> p + size <= |data|
      ensures p >= 0 && size >= 0 ==> (HasEnoughSpace(p, size) <==> Take(data, p, size).Success?)
      ensures p <= |data| && size <= 0 ==> HasEnoughSpace(p, size)
    {
      IsValidPosition(p + size)
    }

    /** Moves the cursor `amount` bytes forward if that stays inside the
        buffer; otherwise fails and leaves it where it was. */
    method Increment(amount: nat) returns (r: Result<()>)
      requires Valid()
      modifies this`pos
      ensures Valid()
      ensures r.Success? <==> old(pos) + amount <= |data|
      ensures r.Failure? ==> r.error == EndOfStream(old(pos), amount)
      ensures pos == if r.Success? then old(pos) + amount else old(pos)
    {
      if !HasEnoughSpace(pos, amount) {
        return Failure(EndOfStream(pos, amount));
      }
      pos := pos + amount;
      r := Success(());
    }

    /** The `size` bytes at position `p`, without moving the cursor. */
    function ReadWithPos(p: nat, size: nat): (r: Result<seq<byte>>)
      requires Valid()
      reads this
      ensures r == Take(data, p, size)
    {
      if !HasEnoughSpace(p, size) then Failure(EndOfStream(p, size))
      else
        TakeIsSlice(data, p, size);
        Success(data[p..p + size])
    }

    /** The `size` bytes at the cursor; on success the cursor moves past them,
        on failure it stays. */
    method Read(size: nat) returns (r: Result<seq<byte>>)
      requires Valid()
      modifies this`pos
      ensures Valid()
      ensures r == Take(data, old(pos), size)
      ensures pos == if r.Success? then old(pos) + size else old(pos)
    {
      var bytes :- ReadWithPos(pos, size);
      var moved := Increment(size);
      // The bounds check above already passed, so moving cannot fail.
      assert moved.Success?;
      r := Success(bytes);
    }

    /** Reads the next `size` bytes and wraps them in a new reader of its own
        whose cursor starts at 0. */
    method GetSubStream(size: nat) returns (r: Result<InputStream>)
      requires Valid()
      modifies this`pos
      ensures Valid()
      ensures r.Success? <==> Take(data, old(pos), size).Success?
      ensures r.Success? ==> fresh(r.value) && r.value.Valid() && r.value.pos == 0
      ensures r.Success? ==> r.value.data == Take(data, old(pos), size).value
      ensures r.Failure? ==> r.error == Take(data, old(pos), size).error
      ensures pos == if r.Success? then old(pos) + size else old(pos)
    {
      var bytes :- Read(size);
      var sub := new InputStream(bytes);
      r := Success(sub);
    }

    /** No further byte can be read. */
    predicate AtEnd()
      requires Valid()
      reads this
      ensures AtEnd() <==> pos >= |data|
      ensures AtEnd() <==> !HasNext()
    {
      !IsValidPosition(pos + 1)
    }

    /** At least one more byte can be read. */
    predicate HasNext()
      requires Valid()
      reads this
      ensures HasNext() <==> Take(data, pos, 1).Success?
    {
      HasEnoughSpace(pos, 1)
    }
  }
}
