/** Copying within memory. All of memory is one array; pointers are positions in it, so source
    and destination may overlap in any way. */
module Memory {

  /** Memory after the `n` cells at `src` have been moved to `dst`, as if through a copy. */
  function Moved<T>(mem: seq<T>, dst: nat, src: nat, n: nat): (r: seq<T>)
    requires dst + n <= |mem| && src + n <= |mem|
    ensures |r| == |mem|
  {
    mem[..dst] + mem[src..src + n] + mem[dst + n..]
  }

  /** Cell by cell: the destination holds what the source held, and nothing else has changed. */
  lemma MovedAt<T>(mem: seq<T>, dst: nat, src: nat, n: nat)
    requires dst + n <= |mem| && src + n <= |mem|
    ensures forall k :: dst <= k < dst + n ==> Moved(mem, dst, src, n)[k] == mem[k - dst + src]
    ensures forall k :: 0 <= k < |mem| && !(dst <= k < dst + n) ==> Moved(mem, dst, src, n)[k] == mem[k]
  {
  }

  /** Memory after copying cell by cell upwards. When the destination begins inside the source,
      cells are overwritten before they are read, and the first dst - src of them repeat. */
  function CopiedUp<T>(mem: seq<T>, dst: nat, src: nat, n: nat): (r: seq<T>)
    requires dst + n <= |mem| && src + n <= |mem|
    ensures |r| == |mem|
    decreases n
  {
    if n == 0 then mem else CopiedUp(mem[dst := mem[src]], dst + 1, src + 1, n - 1)
  }

  lemma {:induction false} CopiedUpAt<T>(mem: seq<T>, dst: nat, src: nat, n: nat)
    requires dst + n <= |mem| && src + n <= |mem|
    ensures forall k :: 0 <= k < |mem| && !(dst <= k < dst + n) ==> CopiedUp(mem, dst, src, n)[k] == mem[k]
    ensures dst <= src || src + n <= dst ==>
              forall k :: dst <= k < dst + n ==> CopiedUp(mem, dst, src, n)[k] == mem[k - dst + src]
    ensures src < dst ==>
              forall k :: dst <= k < dst + n ==> CopiedUp(mem, dst, src, n)[k] == CopiedUp(mem, dst, src, n)[k - dst + src]
    decreases n
  {
    if n > 0 {
      CopiedUpAt(mem[dst := mem[src]], dst + 1, src + 1, n - 1);
    }
  }

  /** Does the source repeat itself at the distance of the destination? */
  ghost predicate Repeats<T>(mem: seq<T>, dst: nat, src: nat, n: nat)
    requires src < dst && src + n <= |mem|
  {
    forall k :: dst <= k < src + n ==> mem[k] == mem[k - dst + src]
  }

  /** Copying upwards is a move when the destination does not begin inside the source, and
      otherwise exactly when every cell overwritten too early held the same value anyway. */
  lemma CopyUpIsMove<T>(mem: seq<T>, dst: nat, src: nat, n: nat)
    requires dst + n <= |mem| && src + n <= |mem|
    ensures dst <= src || src + n <= dst ==> CopiedUp(mem, dst, src, n) == Moved(mem, dst, src, n)
    ensures src < dst < src + n ==>
              (CopiedUp(mem, dst, src, n) == Moved(mem, dst, src, n) <==> Repeats(mem, dst, src, n))
  {
    CopiedUpAt(mem, dst, src, n);
    MovedAt(mem, dst, src, n);
    var c, m := CopiedUp(mem, dst, src, n), Moved(mem, dst, src, n);
    if src < dst < src + n {
      if c == m {
        forall k | dst <= k < src + n
          ensures mem[k] == mem[k - dst + src]
        {
          var k' := k + (dst - src);
          assert m[k'] == mem[k] && c[k'] == c[k];
        }
      }
      if Repeats(mem, dst, src, n) {
        RepeatsSuffices(mem, dst, src, n, n);
        assert c == m;
      }
    }
  }

  lemma {:induction false} RepeatsSuffices<T>(mem: seq<T>, dst: nat, src: nat, n: nat, j: nat)
    requires dst + n <= |mem| && src < dst < src + n && j <= n && Repeats(mem, dst, src, n)
    ensures forall k :: dst <= k < dst + j ==> CopiedUp(mem, dst, src, n)[k] == mem[k - dst + src]
  {
    if j > 0 {
      RepeatsSuffices(mem, dst, src, n, j - 1);
      CopiedUpAt(mem, dst, src, n);
      var k, c := dst + j - 1, CopiedUp(mem, dst, src, n);
      assert c[k] == c[k - dst + src];
      if k - dst + src >= dst {
        assert c[k - dst + src] == mem[k - dst + src - dst + src];
        assert mem[k - dst + src] == mem[k - dst + src - dst + src];
      }
    }
  }

  /** ft_memcpy: copy upwards, whatever the overlap. */
  method MemCpy<T>(mem: array<T>, dst: nat, src: nat, n: nat)
    requires dst + n <= mem.Length && src + n <= mem.Length
    modifies mem
    ensures mem[..] == CopiedUp(old(mem[..]), dst, src, n)
  {
    var d, s, left := dst, src, n;
    while left != 0
      invariant 0 <= left <= n && d == dst + n - left && s == src + n - left
      invariant CopiedUp(mem[..], d, s, left) == CopiedUp(old(mem[..]), dst, src, n)
    {
      ghost var was := mem[..];
      mem[d] := mem[s];
      assert mem[..] == was[d := was[s]];
      d, s, left := d + 1, s + 1, left - 1;
    }
  }

  /** ft_memmove: copy upwards or downwards, whichever does not overwrite what is still to be read. */
  method MemMove<T>(mem: array<T>, dst: nat, src: nat, n: nat)
    requires dst + n <= mem.Length && src + n <= mem.Length
    modifies mem
    ensures mem[..] == Moved(old(mem[..]), dst, src, n)
    ensures forall k :: dst <= k < dst + n ==> mem[k] == old(mem[k - dst + src])
    ensures forall k :: 0 <= k < mem.Length && !(dst <= k < dst + n) ==> mem[k] == old(mem[k])
  {
    MovedAt(mem[..], dst, src, n);
    if dst < src {
      CopyUpIsMove(mem[..], dst, src, n);
      MemCpy(mem, dst, src, n);
    } else if n != 0 {
      ghost var was := mem[..];
      var len := n - 1;
      while len != 0
        invariant 0 <= len < n
        invariant forall k :: dst + len < k < dst + n ==> mem[k] == was[k - dst + src]
        invariant forall k :: 0 <= k < mem.Length && !(dst + len < k < dst + n) ==> mem[k] == was[k]
      {
        mem[dst + len] := mem[src + len];
        len := len - 1;
      }
      mem[dst + len] := mem[src + len];
    } else {
      assert mem[..] == Moved(mem[..], dst, src, n);
    }
  }
}
