/** `Buffer` of src/buffer.rs, the revision before the `Buffer` trait: the same heap
    buffer as `VecBuffer`, except that a full buffer grows by the fixed increment `incr`
    instead of doubling, and nothing returns a `Result`. */
module IncrementBuffer {
  import opened Bytes
  import BufferContract

  class Buffer {
    var buf: seq<byte>
    var incr: nat
    // where the data resides within `buf`
    var start: nat
    var end: nat

    ghost predicate Valid()
      reads this
    {
      start <= end <= |buf|
    }

    /** `filled()`: the unconsumed bytes. */
    function Filled(): (r: seq<byte>)
      reads this
      requires Valid()
      ensures |r| == end - start
    {
      buf[start..end]
    }

    /** `len()`. */
    function Len(): (n: nat)
      reads this
      requires Valid()
      ensures n == |Filled()|
    {
      end - start
    }

    /** `appendable()`: the room right after `filled()`, up to the end of the store. */
    function Appendable(): (r: seq<byte>)
      reads this
      requires Valid()
      ensures Filled() + r == buf[start..]
    {
      buf[end..]
    }

    function Snapshot(): (s: BufferContract.Snapshot)
      reads this
      requires Valid()
      ensures BufferContract.WellFormed(s)
    {
      BufferContract.Snapshot(Filled(), Appendable(), |buf|)
    }

    /** `new(size, incr)`: exactly `size` bytes, growing by `incr`. */
    constructor New(size: nat, incr: nat)
      ensures Valid()
      ensures |buf| == size && this.incr == incr && start == 0 && end == 0
      ensures BufferContract.NewOk(size, Snapshot())
    {
      buf := Uninit(size);
      this.incr := incr;
      start, end := 0, 0;
    }

    /** `enlarge()`: grows a full buffer by `incr`, otherwise moves the data to offset 0.
        Room is guaranteed afterwards only if `incr` is positive or the store is not full. */
    method Enlarge()
      requires Valid()
      modifies this
      ensures Valid() && incr == old(incr)
      ensures old(Len()) == old(|buf|) ==>
                |buf| == old(|buf|) + incr && buf[..old(|buf|)] == old(buf) &&
                start == old(start) && end == old(end)
      ensures old(Len()) != old(|buf|) ==>
                buf == MoveToFront(old(buf), old(start), old(end)) &&
                start == 0 && end == old(Len())
      ensures Filled() == old(Filled())
      ensures BufferContract.EnlargeKeepsData(old(Snapshot()), Snapshot())
      ensures old(Len()) < old(|buf|) || incr > 0 ==>
                BufferContract.EnlargeMakesRoom(old(Snapshot()), Snapshot())
    {
      if Len() == |buf| {
        // already full: expand
        buf := buf + Uninit(incr);
      } else {
        ghost var was := buf;
        if end - start != 0 {
          buf := MoveToFront(buf, start, end);
        } else {
          assert buf == MoveToFront(was, start, end);
        }
        end := end - start;
        start := 0;
      }
    }

    /** `grow(amount)`: the caller must not attach more than the appendable room. */
    method Grow(amount: nat)
      requires Valid()
      requires amount <= |Appendable()|
      modifies this
      ensures Valid()
      ensures buf == old(buf) && incr == old(incr) && start == old(start) && end == old(end) + amount
      ensures BufferContract.MarkAppendedOk(old(Snapshot()), amount, Snapshot())
    {
      end := end + amount;
    }

    /** `consume(amount)`: clamps `amount` to `len()` and moves only `start`. */
    method Consume(amount: nat) returns (out: seq<byte>)
      requires Valid()
      modifies this
      ensures Valid()
      ensures buf == old(buf) && incr == old(incr) && end == old(end)
      ensures start == old(start) + Min(amount, old(Len()))
      ensures out == old(buf)[old(start)..start]
      ensures BufferContract.ConsumeOk(old(Snapshot()), amount, out, Snapshot())
    {
      var k := Min(amount, Len());
      var s := start;
      start := start + k;
      out := buf[s..s + k];
      assert old(Filled()) == out + Filled();
    }

    /** Writing `data` through the slice `appendable()` returns (the caller's side of
        `input.read(buf.appendable())`). */
    method WriteAppendable(data: seq<byte>)
      requires Valid()
      requires |data| <= |Appendable()|
      modifies this
      ensures Valid()
      ensures buf == old(buf)[..old(end)] + data + old(buf)[old(end) + |data|..]
      ensures incr == old(incr) && start == old(start) && end == old(end)
      ensures BufferContract.WriteOk(old(Snapshot()), data, Snapshot())
    {
      buf := buf[..end] + data + buf[end + |data|..];
    }
  }
}
