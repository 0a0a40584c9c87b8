/** utility/receiving_buffer.hpp: a byte queue kept in one fixed array. */
module ReceivingBuffers {
  import opened Bytes

  class ReceivingBuffer {
    const data: array<byte>
    var readIndex: nat
    var writeIndex: nat
    /** Every byte ever committed, and every byte that left at the front, consumed or discarded. */
    ghost var committed: Bytes
    ghost var gone: Bytes

    ghost predicate Valid()
      reads this
    {
      readIndex <= writeIndex <= data.Length
    }

    /** What `get_data` spans. */
    ghost function Contents(): (b: Bytes)
      reads this, data
      requires Valid()
      ensures |b| == writeIndex - readIndex
    {
      data[readIndex..writeIndex]
    }

    /**
     * Bytes leave in the order in which they arrived and none is lost or changed. Every method
     * keeps this, so it holds after every sequence of calls unless someone else writes to the
     * buffered bytes.
     */
    ghost predicate Conserved()
      reads this, data
      requires Valid()
    {
      committed == gone + Contents()
    }

    constructor (capacity: nat)
      ensures Valid() && fresh(data) && data.Length == capacity
      ensures readIndex == writeIndex == 0 && Contents() == []
      ensures Conserved() && committed == gone == []
    {
      data := new byte[capacity];
      readIndex, writeIndex := 0, 0;
      committed, gone := [], [];
    }

    /** The size of the span `get_writable` returns. */
    function Writable(): nat
      reads this
      requires Valid()
    {
      data.Length - writeIndex
    }

    /** A driver fills the beginning of the writable span; the buffer does not know yet. */
    method Fill(chunk: Bytes)
      requires Valid() && |chunk| <= Writable()
      modifies data
      ensures Valid() && Contents() == old(Contents())
      ensures data[writeIndex..writeIndex + |chunk|] == chunk
      ensures old(Conserved()) ==> Conserved()
    {
      for i := 0 to |chunk|
        invariant data[..writeIndex] == old(data[..writeIndex])
        invariant data[writeIndex..writeIndex + i] == chunk[..i]
      {
        data[writeIndex + i] := chunk[i];
        assert data[writeIndex..writeIndex + i + 1] == data[writeIndex..writeIndex + i] + [chunk[i]];
      }
      assert data[readIndex..writeIndex] == data[..writeIndex][readIndex..];
      assert old(data[readIndex..writeIndex]) == old(data[..writeIndex])[readIndex..];
    }

    method Commit(amount: nat)
      requires Valid() && amount <= Writable()
      modifies this`writeIndex, this`committed
      ensures Valid() && writeIndex == old(writeIndex) + amount
      ensures Contents() == old(Contents()) + old(data[writeIndex..writeIndex + amount])
      ensures Contents() == After(old(Contents()), Committed(old(data[writeIndex..writeIndex + amount])))
      ensures committed == old(committed) + old(data[writeIndex..writeIndex + amount])
      ensures old(Conserved()) ==> Conserved()
    {
      committed := committed + data[writeIndex..writeIndex + amount];
      writeIndex := writeIndex + amount;
    }

    method Consume(amount: nat)
      requires Valid() && amount <= |Contents()|
      modifies this`readIndex, this`gone
      ensures Valid() && readIndex == old(readIndex) + amount
      ensures Contents() == old(Contents())[amount..]
      ensures Contents() == After(old(Contents()), Consumed(amount))
      ensures gone == old(gone) + old(Contents())[..amount]
      ensures old(Conserved()) ==> Conserved()
    {
      gone := gone + Contents()[..amount];
      assert Contents() == Contents()[..amount] + Contents()[amount..];
      readIndex := readIndex + amount;
    }

    method Reset()
      requires Valid()
      modifies this
      ensures Valid() && readIndex == writeIndex == 0 && Contents() == []
      ensures Contents() == After(old(Contents()), Discarded)
      ensures gone == old(gone) + old(Contents()) && committed == old(committed)
      ensures old(Conserved()) ==> Conserved()
    {
      gone := gone + Contents();
      readIndex := 0;
      writeIndex := 0;
    }

    /** The overlapping shift loses and reorders nothing. */
    method MoveDataToFront()
      requires Valid()
      modifies this`readIndex, this`writeIndex, data
      ensures Valid() && readIndex == 0
      ensures Contents() == old(Contents())
      ensures Contents() == After(old(Contents()), Moved)
      ensures old(Conserved()) ==> Conserved()
    {
      if readIndex > 0 {
        var n := writeIndex - readIndex;
        ghost var was := data[..];
        for i := 0 to n
          modifies data
          invariant data[..i] == was[readIndex..readIndex + i]
          invariant data[readIndex + i..] == was[readIndex + i..]
        {
          assert data[readIndex + i] == data[readIndex + i..][0] == was[readIndex + i];
          data[i] := data[readIndex + i];
          assert data[..i + 1] == data[..i] + [data[i]];
          assert data[readIndex + i + 1..] == was[readIndex + i + 1..];
        }
        writeIndex := writeIndex - readIndex;
        readIndex := 0;
      }
    }
  }

  // ---------- conservation over whole runs ----------

  /** The methods above, as steps of a byte queue. */
  datatype Operation = Committed(chunk: Bytes) | Consumed(amount: nat) | Moved | Discarded

  predicate Legal(contents: Bytes, op: Operation) {
    op.Consumed? ==> op.amount <= |contents|
  }

  function After(contents: Bytes, op: Operation): Bytes
    requires Legal(contents, op)
  {
    match op
    case Committed(chunk) => contents + chunk
    case Consumed(n) => contents[n..]
    case Moved => contents
    case Discarded => []
  }

  predicate LegalRun(contents: Bytes, ops: seq<Operation>)
    decreases |ops|
  {
    ops == [] || (Legal(contents, ops[0]) && LegalRun(After(contents, ops[0]), ops[1..]))
  }

  function AfterRun(contents: Bytes, ops: seq<Operation>): Bytes
    requires LegalRun(contents, ops)
    decreases |ops|
  {
    if ops == [] then contents else AfterRun(After(contents, ops[0]), ops[1..])
  }

  function AllCommitted(ops: seq<Operation>): Bytes {
    if ops == [] then []
    else (if ops[0].Committed? then ops[0].chunk else []) + AllCommitted(ops[1..])
  }

  function Leaving(contents: Bytes, op: Operation): Bytes
    requires Legal(contents, op)
  {
    match op
    case Consumed(n) => contents[..n]
    case Discarded => contents
    case _ => []
  }

  function AllGone(contents: Bytes, ops: seq<Operation>): Bytes
    requires LegalRun(contents, ops)
    decreases |ops|
  {
    if ops == [] then []
    else Leaving(contents, ops[0])
         + AllGone(After(contents, ops[0]), ops[1..])
  }

  /** Bytes leave in the order in which they arrived and none is lost. */
  lemma {:induction false} Conservation(contents: Bytes, ops: seq<Operation>)
    requires LegalRun(contents, ops)
    ensures contents + AllCommitted(ops) == AllGone(contents, ops) + AfterRun(contents, ops)
    decreases |ops|
  {
    if ops == [] {
      assert contents + [] == [] + contents;
    } else {
      var next := After(contents, ops[0]);
      Conservation(next, ops[1..]);
      var more, gone, rest := AllCommitted(ops[1..]), AllGone(next, ops[1..]), AfterRun(next, ops[1..]);
      match ops[0]
      case Committed(chunk) =>
        Associative(contents, chunk, more);
        assert [] + gone == gone;
      case Consumed(n) =>
        assert contents == contents[..n] + next;
        Associative(contents[..n], next, more);
        Associative(contents[..n], gone, rest);
        assert [] + more == more;
      case Moved =>
        assert [] + more == more && [] + gone == gone;
      case Discarded =>
        Associative(contents, gone, rest);
        assert [] + more == more;
    }
  }
}
