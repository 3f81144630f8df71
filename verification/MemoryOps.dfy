/** The freestanding byte routines over one flat memory. */
module MemoryOps {
  type Bytes = seq<bv8>

  /** `n` bytes from `src`, taken all at once, put at `dest`. */
  function Copied(m: Bytes, dest: nat, src: nat, n: nat): (r: Bytes)
    requires dest + n <= |m| && src + n <= |m|
    ensures |r| == |m|
  {
    m[..dest] + m[src..src + n] + m[dest + n..]
  }

  lemma CopiedAt(m: Bytes, dest: nat, src: nat, n: nat, k: nat)
    requires dest + n <= |m| && src + n <= |m| && k < |m|
    ensures Copied(m, dest, src, n)[k] == if dest <= k < dest + n then m[src + (k - dest)] else m[k]
  {
  }

  lemma CopiedWhen(m: Bytes, r: Bytes, dest: nat, src: nat, n: nat)
    requires dest + n <= |m| && src + n <= |m| && |r| == |m|
    requires forall k | 0 <= k < |m| :: r[k] == if dest <= k < dest + n then m[src + (k - dest)] else m[k]
    ensures r == Copied(m, dest, src, n)
  {
    hide Copied;
    var c := Copied(m, dest, src, n);
    forall k | 0 <= k < |m| ensures r[k] == c[k] {
      CopiedAt(m, dest, src, n, k);
      assert r[k] == if dest <= k < dest + n then m[src + (k - dest)] else m[k];
    }
    assert |r| == |c|;
  }

  /** Ascending order: right when the source starts after the destination. */
  method CopyForward(m: array<bv8>, dest: nat, src: nat, n: nat)
    requires dest + n <= m.Length && src + n <= m.Length && src > dest
    modifies m
    ensures m[..] == Copied(old(m[..]), dest, src, n)
  {
    hide Copied;
    ghost var was := m[..];
    for i := 0 to n
      invariant forall k {:trigger m[k]} | 0 <= k < m.Length ::
        m[k] == if dest <= k < dest + i then was[src + (k - dest)] else was[k]
    {
      m[dest + i] := m[src + i];
    }
    CopiedWhen(was, m[..], dest, src, n);
  }

  /** Descending order: right when the source starts before the destination. */
  method CopyBackward(m: array<bv8>, dest: nat, src: nat, n: nat)
    requires dest + n <= m.Length && src + n <= m.Length && src < dest
    modifies m
    ensures m[..] == Copied(old(m[..]), dest, src, n)
  {
    hide Copied;
    ghost var was := m[..];
    for i := n downto 0
      invariant forall k {:trigger m[k]} | 0 <= k < m.Length ::
        m[k] == if dest + i <= k < dest + n then was[src + (k - dest)] else was[k]
    {
      m[dest + i] := m[src + i];
    }
    CopiedWhen(was, m[..], dest, src, n);
  }

  /** Copy forward or backward so that no byte is overwritten before it is read, however the ranges overlap. */
  method MemMove(m: array<bv8>, dest: nat, src: nat, n: nat)
    requires dest + n <= m.Length && src + n <= m.Length
    modifies m
    ensures m[..] == Copied(old(m[..]), dest, src, n)
  {
    if src > dest {
      CopyForward(m, dest, src, n);
    } else if src < dest {
      CopyBackward(m, dest, src, n);
    }
  }
}
