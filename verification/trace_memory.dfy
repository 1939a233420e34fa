/** Reading recorded memory through a replay cursor that answers in chunks of its own choosing. */
module TraceMemory {
  import opened Target

  datatype Answer = Answer(hasBase: bool, address: int, size: nat)

  /** 64-bit address arithmetic. */
  function Wrap(a: int): int { a % ADDRESS_LIMIT }

  lemma WrapShift(a: int, k: int)
    ensures Wrap(Wrap(a) + k) == Wrap(a + k)
  {
  }

  predicate Available(memory: Memory, address: int, k: int) {
    Wrap(address + k) in memory
  }

  /** `buffer[from..from + n]` holds the memory from `address` on. */
  ghost predicate Holds(memory: Memory, address: int, bytes: seq<Byte>, n: nat) {
    n <= |bytes| && forall k | 0 <= k < n :: Available(memory, address, k) && bytes[k] == memory[Wrap(address + k)]
  }

  /** How many bytes from `address` on are available without a gap, counting from `n` up to `size`. */
  function ReadableFrom(memory: Memory, address: int, n: nat, size: nat): nat
    requires n <= size
    decreases size - n
  {
    if n == size || !Available(memory, address, n) then n else ReadableFrom(memory, address, n + 1, size)
  }

  /** The prefix is the longest readable one: everything in it is available, the next byte is not. */
  lemma {:induction false} ReadableFromIff(memory: Memory, address: int, n: nat, size: nat, total: nat)
    requires n <= total <= size
    ensures ReadableFrom(memory, address, n, size) == total <==>
            (forall k | n <= k < total :: Available(memory, address, k)) &&
            (total < size ==> !Available(memory, address, total))
    decreases size - n
  {
    if n < size && Available(memory, address, n) {
      if n < total {
        ReadableFromIff(memory, address, n + 1, size, total);
      } else {
        ReadableGrows(memory, address, n + 1, size);
      }
    }
  }

  lemma {:induction false} ReadableGrows(memory: Memory, address: int, n: nat, size: nat)
    requires n <= size
    ensures n <= ReadableFrom(memory, address, n, size) <= size
    decreases size - n
  {
    if n < size && Available(memory, address, n) {
      ReadableGrows(memory, address, n + 1, size);
    }
  }

  class Cursor {
    const memory: Memory

    constructor (memory: Memory)
      ensures this.memory == memory
    {
      this.memory := memory;
    }

    /** QueryMemoryBuffer: for an available address the cursor fills a non-empty part of the destination
        and may report more than fits; otherwise it answers with nothing, or with some other range. */
    method QueryMemoryBuffer(address: int, buffer: array<Byte>, from: nat) returns (answer: Answer, ghost filled: nat)
      requires from < buffer.Length && 0 <= address < ADDRESS_LIMIT
      modifies buffer
      ensures Available(memory, address, 0) <==> answer.hasBase && answer.address == address && answer.size > 0
      ensures filled == if !Available(memory, address, 0) then 0
                        else if answer.size < buffer.Length - from then answer.size else buffer.Length - from
      ensures Holds(memory, address, buffer[from..], filled)
      ensures forall k | 0 <= k < buffer.Length && !(from <= k < from + filled) :: buffer[k] == old(buffer[k])
    {
      filled := 0;
      if address !in memory {
        var elsewhere: int := *;
        var size: nat := *;
        return Answer(elsewhere != address, elsewhere, size), 0;
      }
      var chunk: nat :| 0 < chunk;
      var n := 0;
      while n < chunk && from + n < buffer.Length && Wrap(address + n) in memory
        invariant n <= chunk && from + n <= buffer.Length
        invariant n == 0 ==> Available(memory, address, 0)
        invariant Holds(memory, address, buffer[from..], n)
        invariant forall k | 0 <= k < buffer.Length && !(from <= k < from + n) :: buffer[k] == old(buffer[k])
        decreases buffer.Length - n
      {
        buffer[from + n] := memory[Wrap(address + n)];
        assert Available(memory, address, n);
        n := n + 1;
      }
      assert n > 0;
      assert Available(memory, address, 0);
      filled := n;
      answer := Answer(true, address, if from + n == buffer.Length then n + chunk else n);
    }

    /** ReadMemoryPartial: however the cursor cuts its answers, the longest readable prefix is
        delivered and nothing beyond it is touched. */
    method ReadMemoryPartial(address: int, buffer: array<Byte>) returns (total: nat)
      modifies buffer
      ensures total == ReadableFrom(memory, address, 0, buffer.Length)
      ensures Holds(memory, address, buffer[..], total)
      ensures forall k | total <= k < buffer.Length :: buffer[k] == old(buffer[k])
    {
      total := 0;
      while total < buffer.Length
        invariant total <= buffer.Length
        invariant Holds(memory, address, buffer[..], total)
        invariant forall k | total <= k < buffer.Length :: buffer[k] == old(buffer[k])
        decreases buffer.Length - total
      {
        var current := Wrap(address + total);
        ghost var before := buffer[..];
        var answer;
        ghost var filled;
        answer, filled := QueryMemoryBuffer(current, buffer, total);
        WrapShift(address + total, 0);
        assert Available(memory, current, 0) <==> Available(memory, address, total);
        if !answer.hasBase || answer.address != current || answer.size == 0 {
          break;
        }
        HoldsMore(memory, address, before, buffer[..], total, filled);
        total := total + if answer.size < buffer.Length - total then answer.size else buffer.Length - total;
      }
      ReadableFromIff(memory, address, 0, buffer.Length, total);
    }

    method ReadMemory(address: int, buffer: array<Byte>) returns (ok: bool)
      modifies buffer
      ensures ok <==> forall k | 0 <= k < buffer.Length :: Available(memory, address, k)
      ensures ok ==> Holds(memory, address, buffer[..], buffer.Length)
    {
      var total := ReadMemoryPartial(address, buffer);
      ok := total == buffer.Length;
      ReadableFromIff(memory, address, 0, buffer.Length, total);
    }
  }

  lemma HoldsMore(memory: Memory, address: int, before: seq<Byte>, after: seq<Byte>, n: nat, filled: nat)
    requires |before| == |after| && n + filled <= |after|
    requires Holds(memory, address, before, n) && Holds(memory, Wrap(address + n), after[n..], filled)
    requires forall k | 0 <= k < n :: after[k] == before[k]
    ensures Holds(memory, address, after, n + filled)
  {
    forall k | 0 <= k < n + filled
      ensures Available(memory, address, k) && after[k] == memory[Wrap(address + k)]
    {
      if n <= k {
        assert Available(memory, Wrap(address + n), k - n);
        WrapShift(address + n, k - n);
        assert after[n..][k - n] == after[k];
      }
    }
  }
}
