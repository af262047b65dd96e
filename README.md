# buf-ref-reader, modelled in Dafny

This is a model of the buffering core of `buf_ref_reader`, a zero-copy buffered reader
in Rust. Each read hands back a slice of the reader's own byte buffer instead of
copying into caller storage. The model covers these parts:

- **The `Buffer` trait** (`src/buffer/mod.rs`), in `contract.dfy`. A buffer is seen
  through its `filled()` view (unconsumed data), its `appendable()` view (the free room
  right after it) and the size of its store. Each trait method becomes a predicate
  relating the view before the call to the view after it.
  - The lemmas prove that any sequence of appends, consumes and enlargements on a
    buffer meeting the contract behaves as a naive first-in first-out byte queue.
- **`VecBuffer`** (`src/buffer/vec.rs`), in `vec_buffer.dfy`. A heap buffer holding its
  data in `buf[start..end]`. `enlarge` doubles it when it is full and compacts the
  data to offset 0 otherwise.
- **`MmapBuffer`** (`src/buffer/mmap.rs`), in `mmap_buffer.dfy`. A ring buffer whose
  store of `bufsize` bytes is mapped twice at adjacent addresses. Address `p` and
  address `p + bufsize` name the same byte.
  - The model keeps one copy of the store in an `array`. It reads address `p` of the
    double mapping at `Slot(p, bufsize)`: `p` itself, or `p - bufsize` in the mirror
    half. `SlotIsMod` proves that this is `p % bufsize`.
  - The mapping allocator is outside the model. Its answer (`Mapping`) is a parameter.
- **The older fixed-increment `Buffer`** (`src/buffer.rs`), in `incr_buffer.dfy`.
- **`BufRefReader`** (`src/lib.rs`), in `reader.dfy`, including its `read` unit test.
  - The byte source is the `&[u8]` slice the test uses: `src` is the input not yet
    read. A read into `d` bytes of room takes `min(d, |src|)` bytes, and taking none
    means end of input.

All methods are imperative, as in the source:
- `Vec<u8>` fields are `seq<byte>` fields that the methods reassign.
- The ring's mapping is an `array<byte>` that `enlarge` replaces.
- Every method of the three buffer backends states its new state. On each successful
  call it also meets the trait predicate for that method, over `old(Snapshot())` and
  `Snapshot()`. The exception is the ring's `Enlarge` as written: its refused branch
  leaves a state that is not `Valid()`, so that branch states its new fields only.
- `BufRefReader` has no `Snapshot()`. Its methods state their new state in terms of
  the buffered bytes and the input still pending.
- Writing into the `&mut [u8]` slice that `appendable()` returns is modelled as the
  method `WriteAppendable`.
- `copy_within` and `copy_in_place` are `Bytes.MoveToFront`, an overlap-safe copy to
  offset 0.

The model follows the code where the code and the trait's doc comments disagree:
- The doc comment on `enlarge` (src/buffer/mod.rs:67-73) promises to grow
  `appendable()` "one way or the other". The ring's `enlarge` does not when a full ring
  does not start at offset 0. This is the second row under "Findings".
- The `?` at src/buffer/mmap.rs:61 returns the allocation error after
  src/buffer/mmap.rs:60 has already doubled `bufsize`. The model reads this as
  unintended: the error return ought to leave the buffer as it was. This is the third
  row under "Findings".
- The same doc comment says `enlarge` does nothing while `appendable()` has room left.
  `VecBuffer` and the older `Buffer` (src/buffer/vec.rs:23-35, src/buffer.rs:23-35) move the data to
  offset 0 on every `enlarge` of a buffer that is not full, even when it has room.
  `VecBackend.VecBuffer.Enlarge` and `IncrementBuffer.Buffer.Enlarge` model that
  compaction as written. It is harmless: `filled()` is kept and the room never shrinks,
  which both methods prove. So it is not recorded as a finding.

## Model

| member | source | states |
|---|---|---|
| BufferContract.WriteThenMark | src/buffer/mod.rs:15-18 | writing `data` into `appendable()` and then `mark_appended(data.len())` appends exactly `data` to `filled()` and shrinks the room by as much, leaving the capacity alone |
| BufferContract.NewOk | src/buffer/mod.rs:50-51 | `new(cap)`: nothing filled and all of a store of at least `cap` bytes appendable; such a buffer is well formed and has room for `cap` bytes |
| BufferContract.WriteOk | src/buffer/mod.rs:52-57 | writing `data` through `appendable()` needs `data` to fit, replaces the room's first bytes by `data` and leaves `filled()`, the capacity and the rest of the room alone |
| BufferContract.MarkAppendedOk | src/buffer/mod.rs:58-60 | `mark_appended(amount)` moves the first `amount` bytes of `appendable()` to the end of `filled()`: the two views together still hold the same bytes in the same order |
| BufferContract.ConsumeOk | src/buffer/mod.rs:61-66 | `consume(amount)` returns at most `amount` bytes from the front of `filled()`; what it returns followed by what stays filled is the old `filled()`, a short return empties the buffer, and room already written stays in place |
| BufferContract.EnlargeKeepsData | src/buffer/mod.rs:67-73 | a successful `enlarge()` keeps `filled()`, never shrinks the store and never loses room, so the two views together never shrink |
| BufferContract.EnlargeMakesRoom | src/buffer/mod.rs:67-73 | a successful `enlarge()` grows `appendable()` one way or the other: a buffer with a non-empty store is not full afterwards |
| BufferContract.TraceMatchesReference | src/buffer/mod.rs:45-81 | any buffer whose every call meets the trait's contract returns, call by call, what a naive byte queue returns, and ends holding what that queue holds |
| BufferContract.ReferenceIsFifo | src/buffer/mod.rs:58-66 | on the naive queue, the bytes handed out followed by the bytes still queued are the initial bytes followed by every appended byte, in order |
| BufferContract.TraceIsFifo | src/buffer/mod.rs:45-81 | growth correctness: after any sequence of appends, consumes and enlargements, what came out plus what `filled()` still holds is the initial content plus everything appended, in the original order |
| Bytes.MoveToFront | src/buffer/vec.rs:29-32 | `copy_in_place(buf, start..end, 0)` leaves the old `buf[start..end]` at offset 0 and every byte from offset `end - start` on untouched, whatever the overlap |
| VecBackend.VecBuffer.Len | src/buffer/vec.rs:38-40 | `len()` is the length of `filled()` |
| VecBackend.VecBuffer.Filled | src/buffer/vec.rs:41-43 | `filled()` is `buf[start..end]`: `end - start` bytes |
| VecBackend.VecBuffer.Appendable | src/buffer/vec.rs:44-46 | `appendable()` is the region directly after `filled()`, up to the end of the store |
| VecBackend.VecBuffer.New | src/buffer/vec.rs:12-19 | `new(size)` never fails, gives a store of exactly `size` bytes with `start = end = 0`, and meets the trait's `new` contract |
| VecBackend.VecBuffer.Enlarge | src/buffer/vec.rs:21-37 | always `Ok`. A full buffer doubles and keeps its bytes and offsets; otherwise the data moves to offset 0 with the capacity unchanged. `filled()` is kept, room never shrinks, and there is room afterwards unless the store is empty |
| VecBackend.VecBuffer.Grow | src/buffer/vec.rs:47-49 | `grow(amount)` (the trait's `mark_appended`) moves only `end`, attaching the first `amount` bytes of `appendable()` to `filled()` |
| VecBackend.VecBuffer.Consume | src/buffer/vec.rs:62-67 | clamps `amount` to `len()`, advances only `start`, returns the old `buf[start..start+amount]`, and leaves the rest of `filled()` |
| VecBackend.VecBuffer.WriteAppendable | src/buffer/vec.rs:44-46 | writing through `appendable()` replaces `buf[end..end+data.len()]` by `data` and nothing else |
| VecBackend.DoubleThenCompact | src/buffer/vec.rs:21-67 | a 2-byte buffer filled with [1, 2] doubles to 4 bytes, and after consuming one byte the next `enlarge` compacts [2] to offset 0 with the capacity kept |
| IncrementBuffer.Buffer.Len | src/buffer.rs:37-39 | `len()` is the length of `filled()` |
| IncrementBuffer.Buffer.Filled | src/buffer.rs:40-42 | `filled()` is `buf[start..end]`: `end - start` bytes |
| IncrementBuffer.Buffer.Appendable | src/buffer.rs:43-45 | `appendable()` is the region directly after `filled()`, up to the end of the store |
| IncrementBuffer.Buffer.New | src/buffer.rs:12-19 | `new(size, incr)` gives a store of exactly `size` bytes with `start = end = 0` and keeps `incr` |
| IncrementBuffer.Buffer.Enlarge | src/buffer.rs:21-36 | a full buffer grows by exactly `incr`, keeping its bytes and offsets; otherwise the data moves to offset 0 with the capacity unchanged. `filled()` is kept either way. Room is guaranteed only when the buffer was not full or `incr > 0` |
| IncrementBuffer.Buffer.Grow | src/buffer.rs:46-48 | moves only `end`; requires `amount` to fit in `appendable()` and attaches those bytes to `filled()` |
| IncrementBuffer.Buffer.Consume | src/buffer.rs:61-66 | clamps to `len()`, advances only `start`, returns the old `buf[start..start+amount]` |
| IncrementBuffer.Buffer.WriteAppendable | src/buffer.rs:43-45 | writing through `appendable()` replaces `buf[end..end+data.len()]` by `data` and nothing else |
| MmapBackend.WindowIsMirrorSlice | src/buffer/mmap.rs:48-52 | the `count` bytes read from address `from` of the double mapping are the slice `from .. from + count` of the store laid twice end to end |
| MmapBackend.CopyKeepsFilled | src/buffer/mmap.rs:64-71 | copying the `len` filled bytes of the ring, in logical order, to offset 0 of a new store leaves `filled()` unchanged |
| MmapBackend.SlotIsMod | src/buffer/mmap.rs:48-52 | the address arithmetic of the double mapping: every address below `2 * bufsize` names the byte at the address modulo `bufsize` |
| MmapBackend.WriteKeepsFilled | src/buffer/mmap.rs:85-91 | writing the `j`-th byte of the room, wrapped around at `bufsize`, leaves `filled()` alone |
| MmapBackend.WriteIntoRoom | src/buffer/mmap.rs:85-91 | writing the `j`-th byte of the room, wrapped around at `bufsize`, changes exactly that byte of `appendable()` |
| MmapBackend.WriteAllRing | src/buffer/mmap.rs:85-91 | writing bytes one after the other into the room makes them the room's first bytes, and keeps `filled()` and the rest of the room |
| MmapBackend.GrowRing | src/buffer/mmap.rs:92-94 | adding `amount` to `len` attaches the first `amount` bytes of the room to `filled()`, and the room shrinks by them: the trait's `mark_appended` contract |
| MmapBackend.ConsumeRing | src/buffer/mmap.rs:101-114 | taking `min(amount, len)` bytes off the front and moving `start` past them with one wrap keeps `start` below `bufsize`, returns the front bytes, leaves the rest filled and keeps the old room as a prefix of the new one: the trait's `consume` contract |
| MmapBackend.RotationSplit | src/buffer/mmap.rs:80-84 | reading the store in logical order from `start` is the part from `start` to the end followed by the part before it (the drawing of the wrapped `appendable()`) |
| MmapBackend.WriteRoom | src/buffer/mmap.rs:85-91 | the stores made through the mirrored `appendable()` slice: the room's first bytes become `data`, the rest of the room and all of the filled bytes are kept |
| MmapBackend.MmapBuffer.FilledInOrder | src/buffer/mmap.rs:48-52 | `filled()` is the first `len` bytes of the store read in logical order from `start`, wrapping around at `bufsize` |
| MmapBackend.MmapBuffer.Filled | src/buffer/mmap.rs:48-52 | `filled()` is the `len` bytes of the double mapping from `start` on |
| MmapBackend.MmapBuffer.Len | src/buffer/mmap.rs:115-117 | `len()` is the length of `filled()` |
| MmapBackend.MmapBuffer.Appendable | src/buffer/mmap.rs:85-91 | `appendable()` has `bufsize - len` bytes: all the room the ring has besides `filled()` |
| MmapBackend.MmapBuffer.AppendableInOrder | src/buffer/mmap.rs:80-91 | `appendable()` is the rest of the store read in logical order from `start`, so `filled()` followed by `appendable()` covers the store exactly once |
| MmapBackend.MmapBuffer.New | src/buffer/mmap.rs:38-47 | fails exactly when the allocator does. Otherwise `bufsize` is the half the mapping reports, at least `size`, with `start = len = 0`, and the trait's `new` contract holds |
| MmapBackend.MmapBuffer.Enlarge | src/buffer/mmap.rs:54-79 | as written: grows only when `start == 0 && len == bufsize`, to the half the allocator grants (at least double), copying the data to offset 0. Any other state is left as it is. A refused allocation returns the error with `bufsize` doubled over the old store, which breaks the invariant |
| MmapBackend.MmapBuffer.EnlargeRepaired | src/buffer/mmap.rs:54-79 | grows whenever the ring is full, copying the data in logical order to offset 0. A refusal changes nothing. On success `filled()` is kept and there is room afterwards |
| MmapBackend.MmapBuffer.Grow | src/buffer/mmap.rs:92-94 | `grow(amount)` only adds to `len`, attaching the first `amount` bytes of `appendable()` to `filled()`; the room shrinks by them |
| MmapBackend.MmapBuffer.Consume | src/buffer/mmap.rs:101-114 | clamps `amount` to `len`. The single wrap subtraction keeps `start` below `bufsize` and equal to `(start + amount) % bufsize`. Returns the front `amount` bytes, keeps the rest of `filled()`, and keeps `appendable()` as a prefix of the new room |
| MmapBackend.MmapBuffer.WriteAppendable | src/buffer/mmap.rs:85-91 | writing `data` through `appendable()` of the double mapping makes it the room's first bytes; `filled()` and the rest of the room are kept |
| MmapBackend.FullRing | src/buffer/mmap.rs:85-94 | a 4-byte ring filled through `appendable()` and `grow` holds [1, 2, 3, 4] from offset 0 |
| MmapBackend.WrapAround | src/buffer/mmap.rs:101-114 | that ring, after `consume(3)` and 3 more bytes appended across the end of the store, holds [4, 5, 6, 7] from offset 3 |
| MmapBackend.EnlargeWhenWrapped | src/buffer/mmap.rs:55-78 | on that full, wrapped ring `enlarge` as written leaves no room to append; the repaired one leaves 4 bytes of room and keeps [4, 5, 6, 7] |
| MmapBackend.EnlargeRefused | src/buffer/mmap.rs:60-61 | a refused growth of a full 4-byte ring returns the error with `bufsize` 8 over a 4-byte store; the `appendable()` range `[4, 8)` is then the mirror of the filled range `[0, 4)`, one store length further on |
| Reader.BufRefReader.WithCapacity | src/lib.rs:19-26 | `with_capacity(src, c)` gives a buffer of exactly `c` bytes with `start = end = 0`, and nothing buffered |
| Reader.BufRefReader.New | src/lib.rs:15-17 | `new(src)` is `with_capacity(src, 8192)` |
| Reader.BufRefReader.MakeRoom | src/lib.rs:30-43 | the first half of `fill`: a full buffer with `start == 0` grows by 8192 bytes and keeps its bytes; otherwise the buffered bytes move to offset 0 with the size unchanged. Either way the buffered bytes are kept and there is room after them |
| Reader.BufRefReader.Fill | src/lib.rs:29-52 | grows a full buffer by 8192 bytes, otherwise moves the data to offset 0; either way the buffered bytes are kept and there is room before the read. Returns EOF exactly when the input is exhausted. Otherwise `end` grows by the bytes read, which are the next bytes of the input |
| Reader.BufRefReader.FillUntil | src/lib.rs:55-60 | the loop of `read(n)`: calls `fill` until `n` bytes are buffered past `start` or the input is exhausted, keeping the buffered bytes followed by the input still pending |
| Reader.BufRefReader.Read | src/lib.rs:54-64 | as written: on a reader whose `start` passed `end` it panics. Otherwise it returns the next `min(n, available)` bytes of the input, in order, and leaves the rest pending. A short read happens only at end of input and leaves `start` exactly `n - returned` past `end` |
| Reader.BufRefReader.ReadClamped | src/lib.rs:54-64 | `read(n)` advancing `start` by what it returned: the next `min(n, available)` bytes of the input, the rest still pending, `start` never past `end`, and a short read only at end of input |
| Reader.TakePending | src/lib.rs:61-62 | once `n` bytes are buffered or the input is exhausted, `buf[start..min(end, start+n)]` is the first `min(n, pending)` bytes of the pending input, and what the reader holds from `start + n` on, followed by the unread input, is the rest of it; the read is short only at end of input, and then `start + n` lies past `end` by the bytes missing |
| Reader.TakePendingClamped | src/lib.rs:61-62 | the same slice, with `start` moved only to `min(end, start+n)`: what the reader holds from there on, followed by the unread input, is the rest of the pending input, and a short read happens only at end of input |
| Reader.LoremPieces | src/lib.rs:73-76 | the test input is "lorem", " ipsum" and " dolor sit amet" in a row |
| Reader.ReadTest | src/lib.rs:71-77 | the crate's `read` test on the reader as written, from a 4-byte buffer, for any input made of pieces of 5 bytes, 6 bytes and under 1024 bytes: `read(5)`, `read(6)` and `read(1024)` return the three pieces in order, and one more `read(1)` panics |
| Reader.ReadTestClamped | src/lib.rs:71-77 | the same reads on the repaired `read` return the same three pieces, and one more `read(1)` returns an empty slice |
| Reader.LoremTest | src/lib.rs:71-77 | the `read` test with a 4-byte buffer: `read(5)`, `read(6)` and `read(1024)` return "lorem", " ipsum" and " dolor sit amet"; one more `read(1)` panics |
| Reader.LoremTestClamped | src/lib.rs:71-77 | the same test on the repaired `read` returns the same three pieces and then an empty slice |

## Left out

- The benchmarks and everything only they use are not part of this model: `read_until`, the `BufRefReaderBuilder`, the hash-map and `read_until` timings, and the comparisons against `std::io::BufReader`.
- slice_deque's `Buffer::uninitialized` and the operating system's double mapping are replaced by the `Mapping` parameter. It stands for the allocator's answer, a granted half size (at least the request) or a refusal. Page rounding is abstracted as any granted half at least the request. Releasing the old mapping is left to Dafny's heap.
- Uninitialised memory exposed by `set_len` is modelled as zero bytes (`Bytes.Uninit`). No contract depends on those values.
- `Vec::reserve` failure (it aborts the process) is not modelled.
- The `Buffer` trait is modelled as a module of predicates over snapshots, because Dafny traits are not used here. Each backend proves the predicates in its own method contracts.
- The borrow and lifetime rules on returned slices are not modelled. Views and returned slices are copied values, so the model does not express that a slice goes stale after the next `&mut self` call.
- Machine-integer overflow is not modelled. `usize` arithmetic in `start + n`, `size * 2` and `bufsize * 2` is unbounded here.
- Reader.BufRefReader.Fill: models the `&[u8]` source only. It takes `min(room, remaining)` bytes per read, so the short reads of other `std::io::Read` sources, and their I/O errors (the `?` at src/lib.rs:45 and 59), are not modelled.
- Reader.BufRefReader.Fill: requires `start <= end`. The private `fill` is reached only from `read`, after `read` has evaluated `self.end - self.start` at src/lib.rs:55, which panics first.
- Reader.BufRefReader.Read: a panic is returned as `Panicked` without changing the state. The unwinding of the Rust code is not modelled.
- The double mapping itself: the store is kept once, not twice, and `filled()` and `appendable()` read the mirrored slice through `Slot`.

## Findings

| source | as written | input that shows it | evidently intended | confidence | as-written member | corrected member |
|---|---|---|---|---|---|---|
| src/lib.rs:62 | `self.start += n` advances by the requested count, not by the bytes returned | the crate's `read` test, then `read(1)`: `read(1024)` returns the last 15 bytes and leaves `start` 1009 past `end`, so `read(1)` panics on `self.end - self.start` (or, with wrap-around arithmetic, on the inverted slice range) | advance `start` by the length of the returned slice, so a read at end of input returns an empty slice | not executed | Reader.LoremTest | Reader.BufRefReader.ReadClamped |
| src/buffer/mmap.rs:55 | the ring grows only when `start == 0 && len == bufsize`; a full ring at any other offset falls into the "plenty of room" branch | a 4-byte ring: append 4, consume 3, append 3. It is full from offset 3, `enlarge()` returns `Ok(())`, and `appendable()` stays empty, so the next source read sees no room | grow whenever `len == bufsize`: "grow `appendable()` one way or the other" (src/buffer/mod.rs:67-73) | not executed | MmapBackend.EnlargeWhenWrapped | MmapBackend.MmapBuffer.EnlargeRepaired |
| src/buffer/mmap.rs:60-61 | `self.bufsize *= 2` runs before `Buffer::uninitialized(..)?`, which can fail | a full 4-byte ring whose allocation is refused: `Err` comes back with `bufsize` 8 over the 4-byte store, `start` 0 and `len` 4. `appendable()` is then `[4, 8)`. That range lies inside the 8-byte double mapping, but it is the mirror of the 4 filled bytes `[0, 4)`, so the next source read into it overwrites data not yet consumed. Later calls go out of bounds: `grow(4)` then `consume(5)` makes `appendable()` `[8, 13)` | compute the new size in a local and store it only after the allocation succeeds | not executed | MmapBackend.EnlargeRefused | MmapBackend.MmapBuffer.EnlargeRepaired |
