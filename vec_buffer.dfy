/** `VecBuffer` of src/buffer/vec.rs: a heap buffer that keeps its data in
    `buf[start..end]`, doubles when completely full and otherwise compacts the data to
    offset 0. The `Vec<u8>` is a sequence the methods reassign. */
module VecBackend {
  import opened Bytes
  import BufferContract

  class VecBuffer {
    var buf: seq<byte>
    // where the data resides within `buf`
    var start: nat
    var end: nat

    ghost predicate Valid()
      reads this
    {
      start <= end <= |buf|
    }

    /** `filled()`: the unconsumed bytes. */
    function Filled(): (r: seq<byte>)
      reads this
      requires Valid()
      ensures |r| == end - start
    {
      buf[start..end]
    }

    /** `len()`. */
    function Len(): (n: nat)
      reads this
      requires Valid()
      ensures n == |Filled()|
    {
      end - start
    }

    /** `appendable()`: the room right after `filled()`, up to the end of the store. */
    function Appendable(): (r: seq<byte>)
      reads this
      requires Valid()
      ensures Filled() + r == buf[start..]
    {
      buf[end..]
    }

    function Snapshot(): (s: BufferContract.Snapshot)
      reads this
      requires Valid()
      ensures BufferContract.WellFormed(s)
    {
      BufferContract.Snapshot(Filled(), Appendable(), |buf|)
    }

    /** `new(size)`: never fails, and allocates exactly `size` bytes. */
    constructor New(size: nat)
      ensures Valid()
      ensures |buf| == size && start == 0 && end == 0
      ensures BufferContract.NewOk(size, Snapshot())
    {
      buf := Uninit(size);
      start, end := 0, 0;
    }

    /** `enlarge()`: doubles a full buffer, otherwise moves the data to offset 0.
        Always `Ok(())`. */
    method Enlarge() returns (r: Outcome<()>)
      requires Valid()
      modifies this
      ensures Valid() && r == Pass
      ensures old(Len()) == old(|buf|) ==>
                |buf| == 2 * old(|buf|) && buf[..old(|buf|)] == old(buf) &&
                start == old(start) && end == old(end)
      ensures old(Len()) != old(|buf|) ==>
                buf == MoveToFront(old(buf), old(start), old(end)) &&
                start == 0 && end == old(Len())
      ensures Filled() == old(Filled())
      ensures BufferContract.EnlargeKeepsData(old(Snapshot()), Snapshot())
      ensures BufferContract.EnlargeMakesRoom(old(Snapshot()), Snapshot())
    {
      if Len() == |buf| {
        // already full: double it
        buf := buf + Uninit(|buf|);
      } else {
        ghost var was := buf;
        if end - start != 0 {
          buf := MoveToFront(buf, start, end);
        } else {
          assert buf == MoveToFront(was, start, end);
        }
        end := end - start;
        start := 0;
      }
      r := Pass;
    }

    /** `grow(amount)`, the implementation of `mark_appended`. */
    method Grow(amount: nat)
      requires Valid()
      requires amount <= |Appendable()|
      modifies this
      ensures Valid()
      ensures buf == old(buf) && start == old(start) && end == old(end) + amount
      ensures BufferContract.MarkAppendedOk(old(Snapshot()), amount, Snapshot())
    {
      end := end + amount;
    }

    /** `consume(amount)`: clamps `amount` to `len()` and moves only `start`. */
    method Consume(amount: nat) returns (out: seq<byte>)
      requires Valid()
      modifies this
      ensures Valid()
      ensures buf == old(buf) && end == old(end)
      ensures start == old(start) + Min(amount, old(Len()))
      ensures out == old(buf)[old(start)..start]
      ensures BufferContract.ConsumeOk(old(Snapshot()), amount, out, Snapshot())
    {
      var k := Min(amount, Len());
      var s := start;
      start := start + k;
      out := buf[s..s + k];
      assert old(Filled()) == out + Filled();
    }

    /** Writing `data` through the slice `appendable()` returns (the caller's side of
        `input.read(buf.appendable())`). */
    method WriteAppendable(data: seq<byte>)
      requires Valid()
      requires |data| <= |Appendable()|
      modifies this
      ensures Valid()
      ensures buf == old(buf)[..old(end)] + data + old(buf)[old(end) + |data|..]
      ensures start == old(start) && end == old(end)
      ensures BufferContract.WriteOk(old(Snapshot()), data, Snapshot())
    {
      buf := buf[..end] + data + buf[end + |data|..];
    }
  }

  /** A buffer of 2 bytes filled up, doubled by `enlarge`, drained by one byte and then
      compacted by a second `enlarge`. */
  method DoubleThenCompact() returns (sizes: seq<nat>, kept: seq<byte>, start: nat)
    ensures sizes == [2, 4, 4]
    ensures kept == [2]
    ensures start == 0
  {
    var b := new VecBuffer.New(2);
    b.WriteAppendable([1, 2]);
    b.Grow(2);
    assert b.Filled() == [1, 2];
    var s0 := |b.buf|;
    var r := b.Enlarge();
    assert b.Filled() == [1, 2];
    var s1 := |b.buf|;
    var out := b.Consume(1);
    assert b.Filled() == [2] && |b.buf| == 4;
    r := b.Enlarge();
    sizes, kept, start := [s0, s1, |b.buf|], b.Filled(), b.start;
  }
}
