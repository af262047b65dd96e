/** `BufRefReader` of src/lib.rs: a reader that hands out slices of its own buffer.
    Its inline buffer is a `Vec<u8>` holding the data in `buf[start..end]`; `fill`
    makes room (grows by a fixed 8192 bytes when full, compacts to offset 0 otherwise)
    and reads the source into the room after `end`; `read(n)` fills until `n` bytes
    are buffered or the source is exhausted.

    The source is a byte slice `&[u8]` used as `std::io::Read`, the source of the
    crate's test: `src` is the part not yet read, and a read into a destination of
    `d` bytes takes `min(d, |src|)` bytes off its front; taking 0 bytes signals EOF. */
module Reader {
  import opened Bytes

  /** What `BufRefReader::new` asks for. */
  const DefaultCapacity: nat := 8192
  /** By how much `fill` grows a full buffer. */
  const FillIncrement: nat := 8192

  /** What a call of `read` comes to: the returned slice, or a panic of the Rust code
      (an `usize` underflow or an inverted slice range). */
  datatype Reply = Data(bytes: seq<byte>) | Panicked

  /** The bytes of `buf` between `start` and `end`; none once `start` has run past `end`. */
  function BufferedOf(buf: seq<byte>, start: nat, end: nat): seq<byte>
    requires end <= |buf|
  {
    if start <= end then buf[start..end] else []
  }

  class BufRefReader {
    /** The input not yet read from the source. */
    var src: seq<byte>
    var buf: seq<byte>
    // position of data within the `buf`
    var start: nat
    var end: nat

    /** `end` stays within the buffer. `start` does not: `read` moves it past `end`
        after a short read. */
    ghost predicate Valid()
      reads this
    {
      end <= |buf|
    }

    /** `start` has not run past `end`, so `read` can be called without panicking. */
    predicate Ready()
      reads this
    {
      start <= end
    }

    /** The bytes read from the source and not yet returned by `read`. */
    function Buffered(): seq<byte>
      reads this
      requires Valid()
    {
      BufferedOf(buf, start, end)
    }

    /** What the reader still has to give: the buffered bytes, then the unread input. */
    function Pending(): seq<byte>
      reads this
      requires Valid()
    {
      Buffered() + src
    }

    /** `with_capacity(src, capacity)`: a buffer of exactly `capacity` bytes, empty. */
    constructor WithCapacity(source: seq<byte>, capacity: nat)
      ensures Valid() && Ready()
      ensures src == source && |buf| == capacity && start == 0 && end == 0
      ensures Pending() == source
    {
      src := source;
      buf := Uninit(capacity);
      start, end := 0, 0;
    }

    /** `new(src)`: `with_capacity(src, 8192)`. */
    constructor New(source: seq<byte>)
      ensures Valid() && Ready()
      ensures src == source && |buf| == DefaultCapacity && start == 0 && end == 0
      ensures Pending() == source
    {
      src := source;
      buf := Uninit(DefaultCapacity);
      start, end := 0, 0;
    }

    /** The first half of `fill()`: grows a full buffer (`start == 0 && end == |buf|`)
        by 8192 bytes, otherwise moves the buffered bytes to offset 0. Either way the
        buffered bytes are kept and there is room after them. */
    method MakeRoom()
      requires Valid() && Ready()
      modifies this
      ensures Valid() && Ready() && start == 0 && src == old(src)
      ensures end == old(end - start) < |buf|
      ensures buf[..end] == old(Buffered())
      ensures old(start == 0 && end == |buf|) ==>
                |buf| == old(|buf|) + FillIncrement && buf[..old(|buf|)] == old(buf)
      ensures !old(start == 0 && end == |buf|) ==> |buf| == old(|buf|)
    {
      if start == 0 && end == |buf| {
        // this buffer is already full, expand
        buf := buf + Uninit(FillIncrement);
      } else {
        // (A)..(A+B) -> 0..B
        ghost var was := buf;
        if end - start != 0 {
          buf := MoveToFront(buf, start, end);
        } else {
          assert buf[..0] == was[start..end];
        }
        end := end - start;
        start := 0;
      }
    }

    /** `fill()`: makes room after the buffered bytes, then reads the source into it.
        Returns `true` at EOF, that is when the read took no byte. The buffered bytes
        are kept, in order, and the bytes read are the next bytes of the input.
        (`end - start` on an inverted range panics; `read` never calls `fill` then.) */
    method Fill() returns (eof: bool)
      requires Valid() && Ready()
      modifies this
      ensures Valid() && Ready() && start == 0
      ensures old(start == 0 && end == |buf|) ==>
                |buf| == old(|buf|) + FillIncrement && buf[..old(end)] == old(buf[..end])
      ensures !old(start == 0 && end == |buf|) ==> |buf| == old(|buf|)
      // there was room to read into
      ensures old(end - start) < |buf|
      ensures end == old(end - start) + Min(|buf| - old(end - start), old(|src|))
      ensures Buffered() == old(Buffered()) + old(src)[..end - old(end - start)]
      ensures src == old(src)[end - old(end - start)..]
      ensures Pending() == old(Pending())
      ensures eof <==> old(src) == []
      ensures eof ==> src == [] && Buffered() == old(Buffered())
      ensures !eof ==> |src| < old(|src|)
    {
      MakeRoom();
      ghost var held, input, grown := buf[..end], src, buf;
      // the source reads `k` bytes into `buf[end..]`
      var k := Min(|buf| - end, |src|);
      buf := buf[..end] + src[..k] + buf[end + k..];
      src := src[k..];
      if k == 0 {
        eof := true;
      } else {
        end := end + k;
        eof := false;
      }
      assert buf[..end] == held + input[..k];
      assert input == input[..k] + src;
      assert buf[..|held|] == grown[..|held|];
    }

    /** The loop of `read(n)`: calls `fill` until `n` bytes are buffered or `fill`
        reports EOF. */
    method FillUntil(n: nat)
      requires Valid() && Ready()
      modifies this
      ensures Valid() && Ready()
      ensures Pending() == old(Pending())
      ensures n <= end - start || src == []
    {
      while n > end - start
        invariant Valid() && Ready()
        invariant Pending() == old(Pending())
        decreases |src|
      {
        var eof := Fill();
        if eof {
          break;
        }
      }
    }

    /** `read(n)` as written: fills until `n` bytes are buffered or EOF, returns the
        first `min(n, buffered)` bytes, and then advances `start` by `n`, not by what it
        returned. After a short read `start` lies beyond `end`, and the next call
        panics on `self.end - self.start`. */
    method Read(n: nat) returns (r: Reply)
      requires Valid()
      modifies this
      ensures Valid()
      ensures !old(Ready()) ==>
                r == Panicked && src == old(src) && buf == old(buf) &&
                start == old(start) && end == old(end)
      ensures old(Ready()) ==>
                r.Data? && r.bytes == old(Pending())[..Min(n, |old(Pending())|)] &&
                Pending() == old(Pending())[|r.bytes|..]
      // a short read happens at EOF only, and leaves `start` past `end`
      ensures old(Ready()) && |r.bytes| < n ==> src == [] && start == end + (n - |r.bytes|)
      ensures old(Ready()) ==> (Ready() <==> |r.bytes| == n)
    {
      if !(start <= end) {
        // `self.end - self.start` underflows
        return Panicked;
      }
      FillUntil(n);
      TakePending(buf, start, end, src, n);
      var output := buf[start..Min(end, start + n)];
      start := start + n;
      r := Data(output);
    }

    /** `read(n)` advancing `start` by the number of bytes returned: `start` never passes
        `end`, and a read after EOF returns an empty slice. */
    method ReadClamped(n: nat) returns (out: seq<byte>)
      requires Valid() && Ready()
      modifies this
      ensures Valid() && Ready()
      ensures out == old(Pending())[..Min(n, |old(Pending())|)]
      ensures Pending() == old(Pending())[|out|..]
      ensures |out| < n ==> src == [] && Buffered() == []
    {
      FillUntil(n);
      TakePendingClamped(buf, start, end, src, n);
      var stop := Min(end, start + n);
      out := buf[start..stop];
      start := stop;
    }
  }

  /** Taking the first `n` buffered bytes, once `n` bytes are buffered or the input is
      exhausted, and advancing `start` by `n`: `buf[start..min(end, start + n)]` is the
      first `min(n, |pending|)` bytes of what is pending (the buffered bytes, then the
      unread input), and what the reader holds from `start + n` on, followed by the
      unread input, is the rest of it. The read is short only at end of input, and then
      `start + n` lies past `end` by the bytes missing. */
  lemma TakePending(buf: seq<byte>, start: nat, end: nat, src: seq<byte>, n: nat)
    requires start <= end <= |buf|
    requires n <= end - start || src == []
    ensures var out := buf[start..Min(end, start + n)];
            var pending := BufferedOf(buf, start, end) + src;
            out == pending[..Min(n, |pending|)] &&
            BufferedOf(buf, start + n, end) + src == pending[|out|..] &&
            (start + n <= end <==> |out| == n) &&
            (|out| < n ==> src == [] && start + n == end + (n - |out|))
  {
    var stop := Min(end, start + n);
    assert buf[start..end] == buf[start..stop] + buf[stop..end];
  }

  /** The same, advancing `start` only past the bytes taken: what the reader holds from
      there on, followed by the unread input, is the rest of what is pending. */
  lemma TakePendingClamped(buf: seq<byte>, start: nat, end: nat, src: seq<byte>, n: nat)
    requires start <= end <= |buf|
    requires n <= end - start || src == []
    ensures var stop := Min(end, start + n);
            var out := buf[start..stop];
            var pending := BufferedOf(buf, start, end) + src;
            out == pending[..Min(n, |pending|)] &&
            BufferedOf(buf, stop, end) + src == pending[|out|..] &&
            (|out| < n ==> src == [] && stop == end)
  {
    var stop := Min(end, start + n);
    assert buf[start..end] == buf[start..stop] + buf[stop..end];
  }

  /** A sequence made of `a` then `b` splits back into them at `|a|`. */
  lemma SplitAt(a: seq<byte>, b: seq<byte>)
    ensures (a + b)[..|a|] == a && (a + b)[|a|..] == b
  {
  }

  /** The input of the crate's `read` test, and its three pieces. */
  const Lorem: string := "lorem ipsum dolor sit amet"
  const Piece1: string := "lorem"
  const Piece2: string := " ipsum"
  const Piece3: string := " dolor sit amet"

  /** The same, as the byte strings of the test. */
  const Input: seq<byte> := Ascii(Lorem)
  const Bytes1: seq<byte> := Ascii(Piece1)
  const Bytes2: seq<byte> := Ascii(Piece2)
  const Bytes3: seq<byte> := Ascii(Piece3)

  /** The test input is the three pieces in a row. */
  lemma LoremPieces()
    ensures Input == Bytes1 + Bytes2 + Bytes3
    ensures |Bytes1| == 5 && |Bytes2| == 6 && |Bytes3| == 15
  {
    assert Lorem == Piece1 + Piece2 + Piece3;
  }

  /** The calls of the `read` test on any input made of a 5-byte, a 6-byte and a shorter
      than 1024-byte piece, with a buffer of 4 bytes, followed by one more `read(1)`:
      the three reads return the three pieces, and the third, short, read leaves the
      reader in a state where the next call panics. */
  method ReadTest(p1: seq<byte>, p2: seq<byte>, p3: seq<byte>)
      returns (first: Reply, second: Reply, third: Reply, after: Reply)
    requires |p1| == 5 && |p2| == 6 && |p3| < 1024
    ensures first == Data(p1)
    ensures second == Data(p2)
    ensures third == Data(p3)
    ensures after == Panicked
  {
    var r := new BufRefReader.WithCapacity(p1 + (p2 + p3), 4);
    SplitAt(p1, p2 + p3);
    first := r.Read(5);
    assert first == Data(p1);
    assert r.Valid() && r.Ready() && r.Pending() == p2 + p3;
    SplitAt(p2, p3);
    second := r.Read(6);
    assert second == Data(p2);
    assert r.Valid() && r.Ready() && r.Pending() == p3;
    third := r.Read(1024);
    assert third == Data(p3);
    after := r.Read(1);
  }

  /** The same calls on the repaired `read`: the same three pieces, and then an empty
      slice, as a reader at EOF returns. */
  method ReadTestClamped(p1: seq<byte>, p2: seq<byte>, p3: seq<byte>)
      returns (first: seq<byte>, second: seq<byte>, third: seq<byte>, after: seq<byte>)
    requires |p1| == 5 && |p2| == 6 && |p3| < 1024
    ensures first == p1
    ensures second == p2
    ensures third == p3
    ensures after == []
  {
    var r := new BufRefReader.WithCapacity(p1 + (p2 + p3), 4);
    SplitAt(p1, p2 + p3);
    first := r.ReadClamped(5);
    assert first == p1;
    assert r.Valid() && r.Ready() && r.Pending() == p2 + p3;
    SplitAt(p2, p3);
    second := r.ReadClamped(6);
    assert second == p2;
    assert r.Valid() && r.Ready() && r.Pending() == p3;
    third := r.ReadClamped(1024);
    assert third == p3;
    after := r.ReadClamped(1);
  }

  /** The `read` test of src/lib.rs, followed by one more `read(1)`: "lorem",
      " ipsum" and " dolor sit amet", then a panic. */
  method LoremTest() returns (first: Reply, second: Reply, third: Reply, after: Reply)
    ensures first == Data(Bytes1)
    ensures second == Data(Bytes2)
    ensures third == Data(Bytes3)
    ensures after == Panicked
  {
    LoremPieces();
    first, second, third, after := ReadTest(Bytes1, Bytes2, Bytes3);
  }

  /** The same calls on the repaired `read`: the same three pieces, then an empty slice. */
  method LoremTestClamped() returns (first: seq<byte>, second: seq<byte>, third: seq<byte>, after: seq<byte>)
    ensures first == Bytes1
    ensures second == Bytes2
    ensures third == Bytes3
    ensures after == []
  {
    LoremPieces();
    first, second, third, after := ReadTestClamped(Bytes1, Bytes2, Bytes3);
  }
}
