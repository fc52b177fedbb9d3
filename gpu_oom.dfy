/**
 * GpuOom: the allocation loop of the out-of-memory sample
 * (samples/gpu_oom/gpu_oom.c). Every animation frame tries to create and
 * map a buffer of `allocSize` bytes; on success it fills the buffer in
 * 4 MiB chunks and books the bytes, on failure it shrinks `allocSize`.
 *
 * All three counters are `uint64_t`; their wrap-around is written out.
 * Whether the mapping succeeds is the GPU's answer and comes in as a
 * parameter.
 */
module GpuOom {

  const TwoTo64: nat := 0x1_0000_0000_0000_0000

  /** The initial `allocSize`, 1 GiB. */
  const InitialAllocSize: nat := 1024 * 1024 * 1024

  /** The chunk size of the write loop, also the size in bytes of `initialData`. */
  const ChunkSize: nat := 4 * 1024 * 1024

  /** Below this size the back-off jumps straight to 4 bytes. */
  const TinyThreshold: nat := 51200

  /** `(size + 3) & -4` on `uint64_t`: the size rounded up to a multiple of 4. */
  function AlignUp4(size: nat): nat
    requires size < TwoTo64
  {
    var v := (size + 3) % TwoTo64;
    v - v % 4
  }

  /**
   * The buffer size is the least multiple of 4 that is at least
   * `allocSize`, as long as adding 3 does not wrap.
   */
  lemma AlignUp4Least(size: nat)
    requires size + 3 < TwoTo64
    ensures AlignUp4(size) % 4 == 0
    ensures size <= AlignUp4(size) < size + 4
    ensures forall m: nat :: m % 4 == 0 && size <= m ==> AlignUp4(size) <= m
  {
  }

  /** `allocSize = allocSize * 3 / 4`, then 4 when below 51200. */
  function BackOff(size: nat): (r: nat)
    requires size < TwoTo64
    ensures r < TwoTo64
  {
    var s := (size * 3 % TwoTo64) / 4;
    if s < TinyThreshold then 4 else s
  }

  /**
   * Between 4 bytes and 1 GiB a failed attempt shrinks the size by a
   * quarter (rounded down), or sets it to 4 once that falls below 51200.
   */
  lemma BackOffShrinks(size: nat)
    requires 4 <= size <= InitialAllocSize
    ensures 4 <= BackOff(size) <= InitialAllocSize
    ensures BackOff(size) == 4 || BackOff(size) == size * 3 / 4
    ensures BackOff(size) == 4 <==> size * 3 / 4 < TinyThreshold
    ensures size > 4 ==> BackOff(size) < size
  {
  }

  /** One call of `wgpu_buffer_write_mapped_range`: `size` bytes at `offset`. */
  datatype Write = Write(offset: nat, size: nat)

  function Min(x: int, y: int): int
  {
    if x < y then x else y
  }

  /** The writes the loop at gpu_oom.c:61-62 issues from `offset` on. */
  function Chunks(size: nat, offset: nat): seq<Write>
    decreases size - offset
  {
    if offset >= size then []
    else [Write(offset, Min(size - offset, ChunkSize))] + Chunks(size, offset + ChunkSize)
  }

  /**
   * The writes start at `offset`, follow each other without gap or
   * overlap, each takes between 1 byte and 4 MiB (never more than
   * `initialData` holds), and the last ends exactly at `size`.
   */
  lemma {:induction false} ChunksCover(size: nat, offset: nat)
    ensures var c := Chunks(size, offset);
      && (c == [] <==> offset >= size)
      && (c != [] ==> c[0].offset == offset && c[|c| - 1].offset + c[|c| - 1].size == size)
      && (forall i :: 0 <= i < |c| ==> 0 < c[i].size <= ChunkSize && c[i].offset + c[i].size <= size)
      && (forall i :: 0 <= i < |c| - 1 ==> c[i].offset + c[i].size == c[i + 1].offset)
    decreases size - offset
  {
    if offset < size {
      ChunksCover(size, offset + ChunkSize);
      var c := Chunks(size, offset);
      var rest := Chunks(size, offset + ChunkSize);
      assert c == [Write(offset, Min(size - offset, ChunkSize))] + rest;
      forall i | 0 <= i < |c| - 1
        ensures c[i].offset + c[i].size == c[i + 1].offset
      {
        if i > 0 {
          assert c[i] == rest[i - 1] && c[i + 1] == rest[i];
        }
      }
    }
  }

  /** The total number of bytes a list of writes covers. */
  function Total(c: seq<Write>): nat
  {
    if c == [] then 0 else c[0].size + Total(c[1..])
  }

  /** The writes together cover exactly the `size - offset` bytes that remain. */
  lemma {:induction false} ChunksTotal(size: nat, offset: nat)
    requires offset <= size
    ensures Total(Chunks(size, offset)) == size - offset
    decreases size - offset
  {
    if offset < size {
      if offset + ChunkSize <= size {
        ChunksTotal(size, offset + ChunkSize);
      } else {
        assert Chunks(size, offset + ChunkSize) == [];
      }
      assert Chunks(size, offset)[1..] == Chunks(size, offset + ChunkSize);
    }
  }

  /** The outcome of one `alloc_gpu_buffer`: the buffer size asked for and the writes issued. */
  datatype Attempt = Attempt(bufferSize: nat, writes: seq<Write>)

  /** The sample's globals. */
  class OomSample {
    var allocSize: nat
    var gpuAllocatedBytes: nat
    var largestSuccessfulAllocation: nat

    /** `allocSize` stays within [4 bytes, 1 GiB] and every counter fits its `uint64_t`. */
    ghost predicate Valid()
      reads this
    {
      4 <= allocSize <= InitialAllocSize && gpuAllocatedBytes < TwoTo64 && largestSuccessfulAllocation < TwoTo64
    }

    /** The initial values of the globals (gpu_oom.c:14-17). */
    constructor()
      ensures Valid()
      ensures allocSize == InitialAllocSize && gpuAllocatedBytes == 0 && largestSuccessfulAllocation == 0
    {
      allocSize := InitialAllocSize;
      gpuAllocatedBytes := 0;
      largestSuccessfulAllocation := 0;
    }

    /** The write loop of gpu_oom.c:61-62. */
    method WriteChunks(size: nat) returns (writes: seq<Write>)
      requires size <= InitialAllocSize
      ensures writes == Chunks(size, 0)
    {
      writes := [];
      var offset: nat := 0;
      while offset < size
        invariant writes + Chunks(size, offset) == Chunks(size, 0)
        decreases size - offset
      {
        writes := writes + [Write(offset, Min(size - offset, ChunkSize))];
        offset := offset + ChunkSize;
      }
    }

    /**
     * `alloc_gpu_buffer` (gpu_oom.c:41-66). The buffer is created with
     * the 4-aligned size. When the mapping fails nothing is written and
     * `allocSize` backs off; otherwise the chunks are written, the bytes
     * are added to `gpuAllocatedBytes`, and the first success is
     * remembered as the largest allocation.
     */
    method AllocGpuBuffer(mappingSucceeds: bool) returns (a: Attempt)
      requires Valid()
      modifies this
      ensures Valid()
      ensures a.bufferSize == AlignUp4(old(allocSize))
      ensures !mappingSucceeds ==>
        a.writes == [] && allocSize == BackOff(old(allocSize))
        && gpuAllocatedBytes == old(gpuAllocatedBytes)
        && largestSuccessfulAllocation == old(largestSuccessfulAllocation)
      ensures mappingSucceeds ==>
        a.writes == Chunks(old(allocSize), 0) && allocSize == old(allocSize)
        && gpuAllocatedBytes == (old(gpuAllocatedBytes) + allocSize) % TwoTo64
        && largestSuccessfulAllocation
           == (if old(largestSuccessfulAllocation) == 0 then allocSize else old(largestSuccessfulAllocation))
    {
      var bufferSize := AlignUp4(allocSize);
      if !mappingSucceeds {
        allocSize := allocSize * 3 % TwoTo64 / 4;
        if allocSize < TinyThreshold {
          allocSize := 4;
        }
        BackOffShrinks(old(allocSize));
        return Attempt(bufferSize, []);
      }
      var writes := WriteChunks(allocSize);
      if largestSuccessfulAllocation == 0 {
        largestSuccessfulAllocation := allocSize;
      }
      gpuAllocatedBytes := (gpuAllocatedBytes + allocSize) % TwoTo64;
      return Attempt(bufferSize, writes);
    }

    /**
     * `raf` (gpu_oom.c:68-73): one attempt, then `allocSize > 0` decides
     * whether the animation frame loop goes on, which it always does.
     */
    method Raf(mappingSucceeds: bool) returns (keepGoing: bool)
      requires Valid()
      modifies this
      ensures Valid()
      ensures keepGoing == (allocSize > 0)
      ensures keepGoing
    {
      var _ := AllocGpuBuffer(mappingSucceeds);
      keepGoing := allocSize > 0;
    }
  }

  /**
   * A successful attempt writes exactly `allocSize` bytes, from offset 0,
   * in writes no larger than `initialData`.
   */
  lemma SuccessWritesAll(size: nat)
    requires 4 <= size <= InitialAllocSize
    ensures var c := Chunks(size, 0);
      c != [] && c[0].offset == 0 && Total(c) == size
      && forall i :: 0 <= i < |c| ==> c[i].size <= ChunkSize && c[i].offset + c[i].size <= size
  {
    ChunksCover(size, 0);
    ChunksTotal(size, 0);
  }

  /**
   * From the initial 1 GiB, any sequence of mapping outcomes keeps
   * `allocSize` at 4 bytes or more.
   */
  lemma {:induction false} AllocSizeNeverZero(outcomes: seq<bool>, size: nat)
    requires 4 <= size <= InitialAllocSize
    ensures 4 <= SizeAfter(outcomes, size) <= InitialAllocSize
  {
    if outcomes != [] {
      if !outcomes[0] {
        BackOffShrinks(size);
        AllocSizeNeverZero(outcomes[1..], BackOff(size));
      } else {
        AllocSizeNeverZero(outcomes[1..], size);
      }
    }
  }

  /** `allocSize` after one attempt per outcome, starting from `size`. */
  function SizeAfter(outcomes: seq<bool>, size: nat): nat
    requires size < TwoTo64
  {
    if outcomes == [] then size
    else if outcomes[0] then SizeAfter(outcomes[1..], size)
    else SizeAfter(outcomes[1..], BackOff(size))
  }
}
