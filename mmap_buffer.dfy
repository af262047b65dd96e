/** `MmapBuffer` of src/buffer/mmap.rs: a ring buffer whose backing store of `bufsize`
    bytes is mapped twice, at adjacent addresses, so that address `p` and address
    `p + bufsize` hold the same byte. Any range `[p, p + k)` with `p < bufsize` and
    `k <= bufsize` is then one contiguous slice, even when it runs across the end of
    the store. The model keeps one copy of the store, `buf`, and reads address `p` of
    the double mapping as `buf[p % bufsize]` (`Mirror`). The operating system's mapping
    calls are replaced by the allocator's answer, a `Mapping` passed in by the caller. */
module MmapBackend {
  import opened Bytes
  import BufferContract

  /** `slice_deque::AllocError`. */
  datatype AllocError = AllocError

  /** The answer of the mirrored-memory allocator to a request: a mapping whose halves
      hold `half` bytes (the request rounded up to the page size), or a failure. */
  datatype Mapping = Mapped(half: nat) | Refused

  /** The double mapping, as addressed: the store followed by its mirror. */
  function Mirror(s: seq<byte>): seq<byte> {
    s + s
  }

  /** Where address `p` of the double mapping lies in the store: `p` itself in the
      first half, `p - n` in the mirror. */
  function Slot(p: nat, n: nat): nat {
    if p < n then p else p - n
  }

  /** For every address of the double mapping, `Slot` is the position modulo `n`. */
  lemma SlotIsMod(p: nat, n: nat)
    requires p < 2 * n
    ensures Slot(p, n) == p % n
  {
  }

  /** The bytes at addresses `from .. from + count` of the double mapping: address `p`
      holds the store's byte at `Slot(p, |s|)`. */
  function Window(s: seq<byte>, from: nat, count: nat): seq<byte>
    requires from + count <= 2 * |s|
  {
    seq(count, i requires 0 <= i < count => s[Slot(from + i, |s|)])
  }

  /** `Window` is the slice `from .. from + count` of the double mapping. */
  lemma WindowIsMirrorSlice(s: seq<byte>, from: nat, count: nat)
    requires from + count <= 2 * |s|
    ensures Window(s, from, count) == Mirror(s)[from..from + count]
  {
    var m := Mirror(s);
    WindowAt(s, from, count);
    forall i | 0 <= i < count
      ensures Window(s, from, count)[i] == m[from..from + count][i]
    {
      assert m[from..from + count][i] == m[from + i];
      if from + i < |s| {
        assert m[from + i] == s[from + i];
      } else {
        assert m[from + i] == s[from + i - |s|];
      }
    }
  }

  /** Copying the filled bytes of a ring, in logical order, to the front of another
      store keeps them: the copy read from 0 is the ring read from `start`. */
  lemma CopyKeepsFilled(s: seq<byte>, start: nat, len: nat, t: seq<byte>)
    requires start + len <= 2 * |s| && len <= |t|
    requires forall i :: 0 <= i < len ==> t[i] == s[Slot(start + i, |s|)]
    ensures FilledOf(t, 0, len) == FilledOf(s, start, len)
  {
    forall i | 0 <= i < len
      ensures FilledOf(t, 0, len)[i] == FilledOf(s, start, len)[i]
    {
      assert Slot(0 + i, |t|) == i;
    }
  }

  /** Reading the double mapping at addresses `from .. from + count` reads the store at
      the slots of those addresses. */
  lemma WindowAt(s: seq<byte>, from: nat, count: nat)
    requires from + count <= 2 * |s|
    ensures |Window(s, from, count)| == count
    ensures forall i :: 0 <= i < count ==> Window(s, from, count)[i] == s[Slot(from + i, |s|)]
  {
  }

  /** The bytes at logical positions `0 .. len` from `start`: the filled part of a
      ring holding `len` bytes from `start`. */
  function FilledOf(s: seq<byte>, start: nat, len: nat): seq<byte>
    requires start + len <= 2 * |s|
  {
    Window(s, start, len)
  }

  /** The bytes at logical positions `len .. |s|` from `start`: the free room of that ring. */
  function RoomOf(s: seq<byte>, start: nat, len: nat): seq<byte>
    requires len <= |s| && start <= |s|
  {
    Window(s, start + len, |s| - len)
  }

  /** What a caller sees of a ring holding `len` bytes from `start` in the store `s`. */
  function RingView(s: seq<byte>, start: nat, len: nat): BufferContract.Snapshot
    requires len <= |s| && start <= |s|
  {
    BufferContract.Snapshot(FilledOf(s, start, len), RoomOf(s, start, len), |s|)
  }

  /** Writing the byte at logical position `len + j` (inside the free room) leaves the
      filled bytes alone. */
  lemma WriteKeepsFilled(s: seq<byte>, start: nat, len: nat, j: nat, x: byte)
    requires start < |s| && len + j < |s|
    ensures FilledOf(s[Slot(start + len + j, |s|) := x], start, len) == FilledOf(s, start, len)
  {
    var s2 := s[Slot(start + len + j, |s|) := x];
    WindowAt(s, start, len);
    WindowAt(s2, start, len);
    forall i | 0 <= i < len
      ensures FilledOf(s2, start, len)[i] == FilledOf(s, start, len)[i]
    {
      assert Slot(start + i, |s|) != Slot(start + len + j, |s|);
    }
  }

  /** Writing the byte at logical position `len + j` (inside the free room) changes
      exactly the `j`-th byte of the room. */
  lemma WriteIntoRoom(s: seq<byte>, start: nat, len: nat, j: nat, x: byte)
    requires start < |s| && len + j < |s|
    ensures RoomOf(s[Slot(start + len + j, |s|) := x], start, len) == RoomOf(s, start, len)[j := x]
  {
    var s2 := s[Slot(start + len + j, |s|) := x];
    WindowAt(s, start + len, |s| - len);
    WindowAt(s2, start + len, |s| - len);
    forall i | 0 <= i < |s| - len && i != j
      ensures RoomOf(s2, start, len)[i] == RoomOf(s, start, len)[i]
    {
      assert Slot(start + len + i, |s|) != Slot(start + len + j, |s|);
    }
  }

  /** Attaching `amount` bytes of the room of a ring to its filled bytes meets the
      trait's `mark_appended` contract. */
  lemma GrowRing(s: seq<byte>, start: nat, len: nat, amount: nat)
    requires start <= |s| && len + amount <= |s|
    ensures BufferContract.MarkAppendedOk(RingView(s, start, len), amount, RingView(s, start, len + amount))
  {
    GrowFilled(s, start, len, amount);
    GrowRoom(s, start, len, amount);
  }

  /** The filled bytes of the grown ring are the old filled bytes, then the first
      `amount` bytes of the old room. */
  lemma GrowFilled(s: seq<byte>, start: nat, len: nat, amount: nat)
    requires start <= |s| && len + amount <= |s|
    ensures FilledOf(s, start, len + amount) == FilledOf(s, start, len) + RoomOf(s, start, len)[..amount]
  {
    var f, r := FilledOf(s, start, len), RoomOf(s, start, len);
    WindowAt(s, start, len);
    WindowAt(s, start, len + amount);
    WindowAt(s, start + len, |s| - len);
    forall i | 0 <= i < len + amount
      ensures FilledOf(s, start, len + amount)[i] == (f + r[..amount])[i]
    {
      if i >= len {
        assert start + i == start + len + (i - len);
      }
    }
  }

  /** The room of the grown ring is the old room without its first `amount` bytes. */
  lemma GrowRoom(s: seq<byte>, start: nat, len: nat, amount: nat)
    requires start <= |s| && len + amount <= |s|
    ensures RoomOf(s, start, len + amount) == RoomOf(s, start, len)[amount..]
  {
    var r := RoomOf(s, start, len);
    WindowAt(s, start + len, |s| - len);
    WindowAt(s, start + len + amount, |s| - len - amount);
    forall i | 0 <= i < |s| - len - amount
      ensures RoomOf(s, start, len + amount)[i] == r[amount..][i]
    {
      assert start + (len + amount) + i == start + len + (amount + i);
    }
  }

  /** Taking `k` bytes off the front of a ring: they are the first `k` filled bytes, and
      the ring from `start + k` holds the rest. */
  lemma TakeFront(s: seq<byte>, start: nat, len: nat, k: nat)
    requires start < |s| && k <= len <= |s|
    ensures FilledOf(s, start, len)[..k] == Window(s, start, k)
    ensures FilledOf(s, start, len)[k..] == FilledOf(s, Slot(start + k, |s|), len - k)
  {
    var t := Slot(start + k, |s|);
    forall i | 0 <= i < len - k
      ensures FilledOf(s, start, len)[k..][i] == FilledOf(s, t, len - k)[i]
    {
      assert Slot(start + (k + i), |s|) == Slot(t + i, |s|);
    }
  }

  /** After taking bytes off the front of a ring, its room begins with the old room. */
  lemma RoomAfterTake(s: seq<byte>, start: nat, len: nat, k: nat)
    requires start < |s| && k <= len <= |s|
    ensures RoomOf(s, start, len) <= RoomOf(s, Slot(start + k, |s|), len - k)
  {
    var t := Slot(start + k, |s|);
    WindowAt(s, start + len, |s| - len);
    WindowAt(s, t + len - k, |s| - len + k);
    forall i | 0 <= i < |s| - len
      ensures RoomOf(s, start, len)[i] == RoomOf(s, t, len - k)[i]
    {
      assert Slot(start + len + i, |s|) == Slot(t + (len - k) + i, |s|);
    }
  }

  /** `consume` on a ring holding `len` bytes from `start` in the store `s`: taking
      `min(amount, len)` bytes off the front and moving the start past them meets the
      trait's `consume` contract. */
  lemma ConsumeRing(s: seq<byte>, start: nat, len: nat, amount: nat)
    requires (if |s| == 0 then start == 0 else start < |s|) && len <= |s|
    ensures var k := Min(amount, len);
            var t := Slot(start + k, |s|);
            (if |s| == 0 then t == 0 else t < |s|) &&
            BufferContract.ConsumeOk(RingView(s, start, len), amount, Window(s, start, k), RingView(s, t, len - k))
  {
    var k := Min(amount, len);
    var t := Slot(start + k, |s|);
    var before, after := RingView(s, start, len), RingView(s, t, len - k);
    if |s| > 0 {
      TakeFront(s, start, len, k);
      RoomAfterTake(s, start, len, k);
    }
    assert |before.filled| == len;
    assert before.filled[..k] == Window(s, start, k);
    assert after.filled == before.filled[k..];
    assert before.appendable <= after.appendable;
  }

  /** Overwriting the first byte after a written prefix `d[..j]` extends the prefix by one. */
  lemma OverwriteNext(d: seq<byte>, r: seq<byte>, j: nat)
    requires j < |d| <= |r|
    ensures (d[..j] + r[j..])[j := d[j]] == d[..j + 1] + r[j + 1..]
  {
  }

  /** One store of the write loop: with the first `j` bytes of `data` already in the
      room, storing byte `j` puts the first `j + 1` there and keeps the filled bytes. */
  lemma WriteStep(s: seq<byte>, start: nat, len: nat, data: seq<byte>, room: seq<byte>,
                  filled: seq<byte>, j: nat)
    requires start < |s| && len + |data| <= |s| && j < |data| <= |room|
    requires FilledOf(s, start, len) == filled
    requires RoomOf(s, start, len) == data[..j] + room[j..]
    ensures FilledOf(s[Slot(start + len + j, |s|) := data[j]], start, len) == filled
    ensures RoomOf(s[Slot(start + len + j, |s|) := data[j]], start, len) == data[..j + 1] + room[j + 1..]
  {
    WriteKeepsFilled(s, start, len, j, data[j]);
    WriteIntoRoom(s, start, len, j, data[j]);
    OverwriteNext(data, room, j);
  }

  /** The store read in logical order from position `from`: every byte exactly once. */
  function Rotation(s: seq<byte>, from: nat): (r: seq<byte>)
    requires from < |s| || from == 0
  {
    seq(|s|, j requires 0 <= j < |s| => s[Slot(from + j, |s|)])
  }

  /** Reading the store from position `from` is taking the part from `from` to the end,
      then the part before it. */
  lemma RotationSplit(s: seq<byte>, from: nat)
    requires from < |s|
    ensures Rotation(s, from) == s[from..] + s[..from]
  {
    forall j | 0 <= j < |s|
      ensures Rotation(s, from)[j] == (s[from..] + s[..from])[j]
    {
      assert Rotation(s, from)[j] == s[Slot(from + j, |s|)];
      if j < |s| - from {
        assert (s[from..] + s[..from])[j] == s[from + j];
      } else {
        assert (s[from..] + s[..from])[j] == s[j - (|s| - from)];
      }
    }
  }

  class MmapBuffer {
    /** One half of the mirrored mapping. */
    var buf: array<byte>
    /** The size of one half, kept separately since the mapping reports twice as much. */
    var bufsize: nat
    // position of the data within `buf`
    var start: nat
    var len: nat

    ghost predicate Valid()
      reads this
    {
      buf.Length == bufsize &&
      len <= bufsize &&
      (if bufsize == 0 then start == 0 else start < bufsize)
    }

    /** `filled()`: the slice `start .. start + len` of the double mapping, which is the
        store read from `start`, wrapping around at `bufsize`. */
    function Filled(): (r: seq<byte>)
      reads this, buf
      requires Valid()
      ensures |r| == len
    {
      FilledOf(buf[..], start, len)
    }

    /** `len()`. */
    function Len(): (n: nat)
      reads this, buf
      requires Valid()
      ensures n == |Filled()|
    {
      len
    }

    /** `appendable()`: the slice `end .. end + remaining` of the double mapping, where
        `end = start + len` and `remaining = bufsize - len`. */
    function Appendable(): (r: seq<byte>)
      reads this, buf
      requires Valid()
      ensures |r| == bufsize - len
    {
      // end = start + len, remaining = bufsize - len
      RoomOf(buf[..], start, len)
    }

    /** `filled()` is the first `len` bytes of the store read in logical order from
        `start`: its `i`-th byte is the store's byte at `(start + i) % bufsize`. */
    lemma FilledInOrder()
      requires Valid()
      ensures Filled() == Rotation(buf[..], start)[..len]
    {
      WindowAt(buf[..], start, len);
    }

    /** `appendable()` is the rest of the store read in logical order from `start`:
        `filled()` and `appendable()` together cover the store exactly once. */
    lemma AppendableInOrder()
      requires Valid()
      ensures Appendable() == Rotation(buf[..], start)[len..]
    {
      WindowAt(buf[..], start + len, bufsize - len);
      forall j | len <= j < bufsize
        ensures Appendable()[j - len] == Rotation(buf[..], start)[j]
      {
        assert start + len + (j - len) == start + j;
      }
    }

    function Snapshot(): (s: BufferContract.Snapshot)
      reads this, buf
      requires Valid()
      ensures BufferContract.WellFormed(s)
    {
      RingView(buf[..], start, len)
    }

    /** An empty buffer over a freshly allocated mapping with halves of `half` bytes. */
    constructor FromMapping(half: nat)
      ensures Valid() && fresh(buf)
      ensures bufsize == half && start == 0 && len == 0
    {
      buf := new byte[half];
      bufsize := half;
      start, len := 0, 0;
    }

    /** `new(size)`: asks for a mapping of `size * 2` bytes and takes half of what it
        gets as `bufsize`; fails when the allocator does. */
    static method New(size: nat, grant: Mapping) returns (r: Result<MmapBuffer, AllocError>)
      requires grant.Mapped? ==> grant.half >= size
      ensures grant.Refused? ==> r == Err(AllocError)
      ensures grant.Mapped? ==>
                r.Ok? && fresh(r.value) && fresh(r.value.buf) && r.value.Valid() &&
                r.value.bufsize == grant.half && r.value.start == 0 && r.value.len == 0 &&
                BufferContract.NewOk(size, r.value.Snapshot())
    {
      if grant.Refused? {
        return Err(AllocError);
      }
      var b := new MmapBuffer.FromMapping(grant.half);
      r := Ok(b);
    }

    /** `enlarge()` as written: grows only when `start == 0 && len == bufsize`, and then
        doubles `bufsize` before asking for the new mapping. A full buffer whose data
        does not start at 0 is left as it is, with no room to append; and a refused
        allocation leaves `bufsize` doubled over the old, smaller store. */
    method Enlarge(grant: Mapping) returns (r: Outcome<AllocError>)
      requires Valid()
      requires grant.Mapped? ==> grant.half >= 2 * bufsize
      modifies this
      ensures old(start == 0 && len == bufsize) && grant.Refused? ==>
                r == Fail(AllocError) && bufsize == 2 * old(bufsize) &&
                buf == old(buf) && start == old(start) && len == old(len)
      ensures r.Fail? && old(bufsize) > 0 ==> !Valid()
      ensures old(start == 0 && len == bufsize) && grant.Mapped? ==>
                r == Pass && fresh(buf) && bufsize == grant.half && start == 0 && len == old(len)
      ensures !old(start == 0 && len == bufsize) ==>
                r == Pass && buf == old(buf) && bufsize == old(bufsize) &&
                start == old(start) && len == old(len)
      ensures r.Pass? ==>
                Valid() && Filled() == old(Filled()) &&
                BufferContract.EnlargeKeepsData(old(Snapshot()), Snapshot())
    {
      if start == 0 && len == bufsize {
        // double the buffer size, as Vec does
        bufsize := bufsize * 2;
        if grant.Refused? {
          return Fail(AllocError);
        }
        var newBuf := new byte[grant.half];
        bufsize := grant.half;
        // move the data to the start of the new mapping
        forall i | 0 <= i < len {
          newBuf[i] := buf[start + i];
        }
        start := 0;
        buf := newBuf;
        CopyKeepsFilled(old(buf[..]), old(start), len, buf[..]);
      }
      r := Pass;
    }

    /** `enlarge()` as the trait describes it: grows whenever the buffer is full, wherever
        its data starts, copying the data in logical order to the start of the new
        mapping, and changes nothing when the allocation is refused. */
    method EnlargeRepaired(grant: Mapping) returns (r: Outcome<AllocError>)
      requires Valid()
      requires grant.Mapped? ==> grant.half >= 2 * bufsize
      modifies this
      ensures Valid()
      ensures old(len == bufsize) && grant.Refused? ==>
                r == Fail(AllocError) && buf == old(buf) && bufsize == old(bufsize) &&
                start == old(start) && len == old(len)
      ensures old(len == bufsize) && grant.Mapped? ==>
                r == Pass && fresh(buf) && bufsize == grant.half && start == 0 && len == old(len)
      ensures old(len < bufsize) ==>
                r == Pass && buf == old(buf) && bufsize == old(bufsize) &&
                start == old(start) && len == old(len)
      ensures r.Pass? ==>
                Filled() == old(Filled()) &&
                BufferContract.EnlargeKeepsData(old(Snapshot()), Snapshot()) &&
                BufferContract.EnlargeMakesRoom(old(Snapshot()), Snapshot())
    {
      if len == bufsize {
        if grant.Refused? {
          return Fail(AllocError);
        }
        var newBuf := new byte[grant.half];
        // the slice start .. start + len of the double mapping, in logical order
        forall i | 0 <= i < len {
          newBuf[i] := buf[Slot(start + i, bufsize)];
        }
        buf, bufsize, start := newBuf, grant.half, 0;
        CopyKeepsFilled(old(buf[..]), old(start), len, buf[..]);
      }
      r := Pass;
    }

    /** `grow(amount)`, the implementation of `mark_appended`: the caller must not
        attach more than the appendable room. */
    method Grow(amount: nat)
      requires Valid()
      requires amount <= |Appendable()|
      modifies this
      ensures Valid()
      ensures buf == old(buf) && bufsize == old(bufsize) && start == old(start)
      ensures len == old(len) + amount
      // the first `amount` bytes of the room join the filled bytes
      ensures BufferContract.MarkAppendedOk(old(Snapshot()), amount, Snapshot())
    {
      ghost var store := buf[..];
      GrowRing(store, start, len, amount);
      len := len + amount;
      assert buf[..] == store;
    }

    /** `consume(amount)`: clamps `amount` to `len`, and keeps `start` below `bufsize`
        with a single subtraction; returns the `amount` bytes that were in front. */
    method Consume(amount: nat) returns (out: seq<byte>)
      requires Valid()
      modifies this
      ensures Valid()
      ensures buf == old(buf) && bufsize == old(bufsize)
      ensures len == old(len) - Min(amount, old(len))
      ensures start == Slot(old(start) + Min(amount, old(len)), bufsize)
      ensures bufsize > 0 ==> start == (old(start) + Min(amount, old(len))) % bufsize
      // the front bytes are returned, the rest stay filled, the room keeps its bytes
      ensures BufferContract.ConsumeOk(old(Snapshot()), amount, out, Snapshot())
    {
      var s := start;
      var k := Min(amount, len);
      ghost var store := buf[..];
      ConsumeRing(store, s, len, amount);
      if bufsize > 0 {
        SlotIsMod(s + k, bufsize);
      }
      out := Window(buf[..], s, k);
      start := start + k;
      if start >= bufsize {
        // keep start within bufsize
        start := start - bufsize;
      }
      len := len - k;
      assert start == Slot(s + k, bufsize);
      assert buf[..] == store;
    }

    /** Writing `data` through the slice `appendable()` returns (the caller's side of
        `input.read(buf.appendable())`): the `j`-th byte goes to address `end + j` of
        the double mapping. */
    method WriteAppendable(data: seq<byte>)
      requires Valid()
      requires |data| <= |Appendable()|
      modifies buf
      ensures Valid()
      // the room's first bytes become `data`; the filled bytes and the rest stay
      ensures BufferContract.WriteOk(old(Snapshot()), data, Snapshot())
    {
      WriteRoom(buf, start, len, data);
    }
  }

  /** The store `s` after the bytes of `d` are written, one after the other, to the
      logical positions `len, len + 1, ...` of a ring holding `len` bytes from `start`. */
  function WriteAll(s: seq<byte>, start: nat, len: nat, d: seq<byte>): (r: seq<byte>)
    requires start < |s| || start == 0
    requires len + |d| <= |s|
    ensures |r| == |s|
    decreases |d|
  {
    if d == [] then s
    else WriteAll(s, start, len, d[..|d| - 1])[Slot(start + len + |d| - 1, |s|) := d[|d| - 1]]
  }

  /** Writing `d` into the room of a ring makes it the room's first bytes, and keeps the
      filled bytes and the rest of the room. */
  lemma {:induction false} WriteAllRing(s: seq<byte>, start: nat, len: nat, d: seq<byte>)
    requires start < |s| || start == 0
    requires len + |d| <= |s|
    ensures FilledOf(WriteAll(s, start, len, d), start, len) == FilledOf(s, start, len)
    ensures RoomOf(WriteAll(s, start, len, d), start, len) == d + RoomOf(s, start, len)[|d|..]
    decreases |d|
  {
    if d != [] {
      var j := |d| - 1;
      var w := WriteAll(s, start, len, d[..j]);
      var room, filled := RoomOf(s, start, len), FilledOf(s, start, len);
      WriteAllRing(s, start, len, d[..j]);
      assert RoomOf(w, start, len) == d[..j] + room[j..];
      WriteStep(w, start, len, d, room, filled, j);
      assert WriteAll(s, start, len, d) == w[Slot(start + len + j, |s|) := d[j]];
      assert d[..j + 1] == d;
    }
  }

  /** The stores of `WriteAppendable`: byte `j` of `data` goes to logical position
      `len + j` of the ring `a` holding `len` bytes from `start`. */
  method WriteRoom(a: array<byte>, start: nat, len: nat, data: seq<byte>)
    requires start < a.Length || start == 0
    requires len + |data| <= a.Length
    modifies a
    ensures FilledOf(a[..], start, len) == FilledOf(old(a[..]), start, len)
    ensures RoomOf(a[..], start, len) == data + RoomOf(old(a[..]), start, len)[|data|..]
  {
    ghost var orig := a[..];
    var j := 0;
    while j < |data|
      invariant 0 <= j <= |data|
      invariant a[..] == WriteAll(orig, start, len, data[..j])
    {
      assert data[..j + 1][..j] == data[..j];
      a[Slot(start + len + j, a.Length)] := data[j];
      j := j + 1;
    }
    assert data[..|data|] == data;
    WriteAllRing(orig, start, len, data);
  }

  /** A ring of 4 bytes, filled through `appendable()` and `mark_appended`. */
  method FullRing() returns (b: MmapBuffer)
    ensures fresh(b) && fresh(b.buf) && b.Valid()
    ensures b.bufsize == 4 && b.start == 0 && b.len == 4
    ensures b.Filled() == [1, 2, 3, 4]
  {
    var r := MmapBuffer.New(4, Mapped(4));
    b := r.value;
    b.WriteAppendable([1, 2, 3, 4]);
    assert b.Appendable()[..4] == [1, 2, 3, 4];
    b.Grow(4);
  }

  /** The same ring drained by 3 bytes and appended to across the end of the store. */
  method WrapAround() returns (b: MmapBuffer)
    ensures fresh(b) && fresh(b.buf) && b.Valid()
    ensures b.bufsize == 4 && b.start == 3 && b.len == 4
    ensures b.Filled() == [4, 5, 6, 7]
  {
    b := FullRing();
    var out := b.Consume(3);
    assert b.Filled() == [4] && b.start == 3 && b.len == 1;
    b.WriteAppendable([5, 6, 7]);
    ghost var filled, room := b.Filled(), b.Appendable();
    assert filled == [4] && room[..3] == [5, 6, 7];
    b.Grow(3);
    assert b.Valid() && b.start == 3 && b.len == 4;
    assert b.Filled() == filled + room[..3] == [4, 5, 6, 7];
  }

  /** A full ring whose data does not start at 0: `enlarge` as written reports success
      and leaves no room to append, while the repaired one makes room and keeps the data. */
  method EnlargeWhenWrapped() returns (roomAsWritten: nat, roomRepaired: nat, kept: seq<byte>)
    ensures roomAsWritten == 0
    ensures roomRepaired == 4
    ensures kept == [4, 5, 6, 7]
  {
    var b := WrapAround();
    var r := b.Enlarge(Mapped(8));
    assert r == Pass;
    roomAsWritten := |b.Appendable()|;
    r := b.EnlargeRepaired(Mapped(8));
    assert r == Pass;
    roomRepaired := |b.Appendable()|;
    kept := b.Filled();
  }

  /** A full ring whose growth is refused: `enlarge` as written returns the error with
      `bufsize` already doubled over the old store of 4 bytes. The range `appendable()`
      then computes, `[start + len, start + len + (bufsize - len))`, is `[4, 8)`: it stays
      inside the double mapping of the 4-byte store, but it lies exactly one store length
      after the filled range `[0, 4)`, so it is their mirror and the next read into it
      overwrites data not yet consumed. */
  method EnlargeRefused() returns (r: Outcome<AllocError>, bufsize: nat, stored: nat,
                                   filledFrom: nat, filledTo: nat, roomFrom: nat, roomTo: nat)
    ensures r == Fail(AllocError)
    ensures bufsize == 8 && stored == 4
    ensures filledFrom == 0 && filledTo == 4
    ensures roomFrom == 4 && roomTo == 8 == 2 * stored
    ensures roomFrom == filledFrom + stored && roomTo == filledTo + stored
  {
    var made := MmapBuffer.New(4, Mapped(4));
    var b := made.value;
    b.WriteAppendable([1, 2, 3, 4]);
    b.Grow(4);
    r := b.Enlarge(Refused);
    bufsize, stored := b.bufsize, b.buf.Length;
    // `filled()`: start .. start + len
    filledFrom, filledTo := b.start, b.start + b.len;
    // `appendable()`: end = start + len, remaining = bufsize - len
    roomFrom := b.start + b.len;
    roomTo := roomFrom + (b.bufsize - b.len);
  }
}
