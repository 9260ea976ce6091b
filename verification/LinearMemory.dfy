/**
 Linear memory as the wasmtime provider reads and writes it.  Pointers and
 lengths are the raw i32 values of the import's parameters; a memory of a
 32-bit guest has at most 2^32 bytes.
 */
module LinearMemory {
  import opened Basics
  import opened Int32

  const TWO_64: int := 0x1_0000_0000_0000_0000

  /** `x as usize` on the (64-bit) host: sign extension. */
  function HostUsize(x: int32): nat {
    if x < 0 then x + TWO_64 else x
  }

  /** `x as usize` in the (32-bit) guest: reinterpretation. */
  function GuestUsize(x: int32): nat {
    if x < 0 then x + TWO_32 else x
  }

  /** `get_vec_from_memory`; `None` is the panic of an out-of-range slice. */
  function GetVec(mem: seq<byte>, ptr: int32, len: int32): Option<Bytes> {
    var lo, hi := HostUsize(ptr), HostUsize(Wrap(ptr + len));
    if lo <= hi <= |mem| then Some(mem[lo..hi]) else None
  }

  /** Slicing succeeds exactly for non-negative ranges below 2^31 inside the memory,
      and then yields exactly that range. */
  lemma GetVecExact(mem: seq<byte>, ptr: int32, len: int32)
    requires |mem| <= TWO_32
    ensures GetVec(mem, ptr, len).Some? <==> 0 <= ptr && 0 <= len && ptr + len < TWO_31 && ptr + len <= |mem|
    ensures GetVec(mem, ptr, len).Some? ==> GetVec(mem, ptr, len).value == mem[ptr..ptr + len]
  {
  }

  /** A length survives `len() as i32` on the host and `as usize` in the guest exactly
      when it is below 2^32. */
  lemma LengthRoundTrip(n: nat)
    ensures GuestUsize(Wrap(n)) == n <==> n < TWO_32
  {
  }

  /** `bytes` can be copied to `at`; the provider's copy is unchecked. */
  predicate Fits(size: nat, at: int, bytes: Bytes) {
    0 <= at && at + |bytes| <= size
  }

  /** Every byte that the provider's copy of `n` bytes to `memory.offset(ptr as isize)` touches
      belongs to the memory. */
  predicate StaysInside(size: nat, ptr: int32, n: nat) {
    forall at :: ptr <= at < ptr + n ==> InMemory(size, at)
  }

  predicate InMemory(size: nat, at: int) {
    0 <= at < size
  }

  /** The pointers for which writing is defined: the copy stays inside the memory exactly if
      there is nothing to copy, or the guest's own address is below 2^31 and its buffer in
      bounds; it then goes where the guest means. */
  lemma PointersExact(size: nat, ptr: int32, bytes: Bytes)
    requires size <= TWO_32
    ensures StaysInside(size, ptr, |bytes|) <==>
            bytes == [] || (GuestUsize(ptr) < TWO_31 && Fits(size, GuestUsize(ptr), bytes))
    ensures bytes != [] ==> (StaysInside(size, ptr, |bytes|) <==> Fits(size, ptr, bytes))
  {
    if StaysInside(size, ptr, |bytes|) && bytes != [] {
      assert InMemory(size, ptr) && InMemory(size, ptr + |bytes| - 1);
    }
  }

  function Written(mem: seq<byte>, at: int, bytes: Bytes): seq<byte>
    requires Fits(|mem|, at, bytes)
  {
    mem[..at] + bytes + mem[at + |bytes|..]
  }

  /** `write_bytes_to_memory`. */
  method WriteBytes(memory: array<byte>, ptr: int32, bytes: Bytes)
    requires Fits(memory.Length, ptr, bytes)
    modifies memory
    ensures memory[..] == Written(old(memory[..]), ptr, bytes)
  {
    forall i | 0 <= i < |bytes| {
      memory[ptr + i] := bytes[i];
    }
    ghost var want := Written(old(memory[..]), ptr, bytes);
    forall i | 0 <= i < memory.Length ensures memory[i] == want[i] {
    }
  }

  lemma WrittenReadsBack(mem: seq<byte>, at: int, bytes: Bytes, i: int, n: nat)
    requires Fits(|mem|, at, bytes) && 0 <= i && i + n <= |mem|
    ensures |Written(mem, at, bytes)| == |mem|
    ensures Written(mem, at, bytes)[at..at + |bytes|] == bytes
    ensures (at + |bytes| <= i || i + n <= at) ==> Written(mem, at, bytes)[i..i + n] == mem[i..i + n]
  {
    var w := Written(mem, at, bytes);
    if i + n <= at {
      assert w[i..i + n] == mem[i..i + n];
    } else if at + |bytes| <= i {
      assert w[i..i + n] == mem[i..i + n];
    }
  }

  /** `__guest_request`'s two writes, payload first: with disjoint buffers both arrive
      whole, and everything apart from both keeps its content. */
  lemma TwoWrites(mem: seq<byte>, opAt: int, op: Bytes, reqAt: int, req: Bytes, i: int, n: nat)
    requires Fits(|mem|, opAt, op) && Fits(|mem|, reqAt, req) && (opAt + |op| <= reqAt || reqAt + |req| <= opAt)
    requires 0 <= i && i + n <= |mem|
    ensures var first := Written(mem, reqAt, req);
            && |first| == |mem|
            && var w := Written(first, opAt, op);
            && |w| == |mem|
            && w[opAt..opAt + |op|] == op
            && w[reqAt..reqAt + |req|] == req
            && ((opAt + |op| <= i || i + n <= opAt) && (reqAt + |req| <= i || i + n <= reqAt) ==>
                  w[i..i + n] == mem[i..i + n])
  {
    var first := Written(mem, reqAt, req);
    WrittenReadsBack(mem, reqAt, req, i, n);
    WrittenReadsBack(first, opAt, op, reqAt, |req|);
    WrittenReadsBack(first, opAt, op, i, n);
  }
}
