/** Overlapping byte copies: memmove inside one memory. */
module ByteCopies {
  /** The memory after `n` bytes at `src` were copied, as one step, to `dest`. */
  function Moved(memory: seq<bv8>, dest: nat, src: nat, n: nat): seq<bv8>
    requires dest + n <= |memory| && src + n <= |memory|
  {
    memory[..dest] + memory[src..src + n] + memory[dest + n..]
  }

  lemma IsMoved(was: seq<bv8>, now: seq<bv8>, dest: nat, src: nat, n: nat)
    requires |now| == |was| && dest + n <= |was| && src + n <= |was|
    requires forall p: nat :: dest <= p < dest + n ==> now[p] == was[src + p - dest]
    requires forall p: nat :: p < dest || dest + n <= p < |was| ==> now[p] == was[p]
    ensures now == Moved(was, dest, src, n)
  {
  }

  /** Copying upwards, from the first byte on. */
  method CopyUp(memory: array<bv8>, dest: nat, src: nat, n: nat)
    requires dest < src && src + n <= memory.Length
    modifies memory
    ensures memory[..] == Moved(old(memory[..]), dest, src, n)
  {
    hide Moved;
    var i: nat := 0;
    while i < n
      invariant i <= n
      invariant forall p: nat :: dest <= p < dest + i ==> memory[p] == old(memory[src + p - dest])
      invariant forall p: nat :: dest + i <= p < memory.Length ==> memory[p] == old(memory[p])
      invariant forall p: nat :: p < dest ==> memory[p] == old(memory[p])
    {
      memory[dest + i] := memory[src + i];
      i := i + 1;
    }
    IsMoved(old(memory[..]), memory[..], dest, src, n);
  }

  /** Copying downwards, from the last byte on. */
  method CopyDown(memory: array<bv8>, dest: nat, src: nat, n: nat)
    requires src < dest && dest + n <= memory.Length
    modifies memory
    ensures memory[..] == Moved(old(memory[..]), dest, src, n)
  {
    hide Moved;
    var i: nat := n;
    while i > 0
      invariant i <= n
      invariant forall p: nat :: dest + i <= p < dest + n ==> memory[p] == old(memory[src + p - dest])
      invariant forall p: nat :: p < dest + i ==> memory[p] == old(memory[p])
      invariant forall p: nat :: dest + n <= p < memory.Length ==> memory[p] == old(memory[p])
    {
      memory[dest + i - 1] := memory[src + i - 1];
      i := i - 1;
    }
    IsMoved(old(memory[..]), memory[..], dest, src, n);
  }

  /** memmove: the direction of the copy makes the overlap harmless. */
  method MemMove(memory: array<bv8>, dest: nat, src: nat, n: nat)
    requires dest + n <= memory.Length && src + n <= memory.Length
    modifies memory
    ensures memory[..] == Moved(old(memory[..]), dest, src, n)
  {
    if src > dest {
      CopyUp(memory, dest, src, n);
    } else if src < dest {
      CopyDown(memory, dest, src, n);
    }
  }
}
