/** Block copies inside one memory, where source and destination may overlap. */
module Memory {

  type Byte = bv8

  /** The destination ends as a snapshot of the source, for every overlap. */
  method Memmove(mem: array<Byte>, dst: nat, src: nat, n: nat) returns (r: nat)
    requires dst + n <= mem.Length && src + n <= mem.Length
    modifies mem
    ensures mem[..] == old(mem[..dst] + mem[src..src + n] + mem[dst + n..])
    ensures r == dst
  {
    var s, d, left := src, dst, n;
    ghost var was, block := mem[..], mem[src..src + n];
    if s < d && s + n > d {
      s, d := s + n, d + n;
      while left > 0
        invariant 0 <= left <= n && s == src + left && d == dst + left
        invariant forall k | 0 <= k < d || dst + n <= k < mem.Length :: mem[k] == was[k]
        invariant forall k | d <= k < dst + n :: mem[k] == block[k - dst]
      {
        left, d, s := left - 1, d - 1, s - 1;
        mem[d] := mem[s];
      }
    } else {
      while left > 0
        invariant 0 <= left <= n && s == src + n - left && d == dst + n - left
        invariant forall k | 0 <= k < dst || d <= k < mem.Length :: mem[k] == was[k]
        invariant forall k | dst <= k < d :: mem[k] == block[k - dst]
      {
        mem[d] := mem[s];
        left, d, s := left - 1, d + 1, s + 1;
      }
    }
    Replaced(mem[..], was, dst, block);
    return dst;
  }

  lemma Replaced(now: seq<Byte>, was: seq<Byte>, dst: nat, block: seq<Byte>)
    requires |now| == |was| && dst + |block| <= |was|
    requires forall k | 0 <= k < dst || dst + |block| <= k < |was| :: now[k] == was[k]
    requires forall k | dst <= k < dst + |block| :: now[k] == block[k - dst]
    ensures now == was[..dst] + block + was[dst + |block|..]
  {
    assert now[..dst] == was[..dst];
    assert now[dst + |block|..] == was[dst + |block|..];
    assert now[dst..dst + |block|] == block;
  }

  /** Copying forwards only.  Where the destination starts inside the source, the part in
      front of the destination is repeated instead. */
  method Memcpy(mem: array<Byte>, dst: nat, src: nat, n: nat) returns (r: nat)
    requires dst + n <= mem.Length && src + n <= mem.Length
    modifies mem
    ensures mem[..] == old(mem[..dst] + Repeated(mem[src..src + n], dst - src) + mem[dst + n..])
    ensures r == dst
  {
    var s, d, left := src, dst, n;
    ghost var was := mem[..];
    ghost var block := Repeated(was[src..src + n], dst - src);
    while left > 0
      invariant 0 <= left <= n && s == src + n - left && d == dst + n - left
      invariant forall k | 0 <= k < dst || d <= k < mem.Length :: mem[k] == was[k]
      invariant forall k | dst <= k < d :: mem[k] == block[k - dst]
    {
      assert mem[s] == block[d - dst] by {
        assert block[d - dst] == if src < dst <= s then block[s - dst] else was[s];
      }
      mem[d] := mem[s];
      left, d, s := left - 1, d + 1, s + 1;
    }
    Replaced(mem[..], was, dst, block);
    return dst;
  }

  /** Element i of `block` once its first `shift` elements, when shift is positive, are
      repeated to the end. */
  ghost function RepeatedAt(block: seq<Byte>, shift: int, i: nat): Byte
    requires i < |block|
  {
    if 0 < shift <= i then RepeatedAt(block, shift, i - shift) else block[i]
  }

  ghost function Repeated(block: seq<Byte>, shift: int): (r: seq<Byte>)
    ensures |r| == |block|
    ensures forall i | 0 <= i < |block| :: r[i] == if 0 < shift <= i then r[i - shift] else block[i]
  {
    seq(|block|, i requires 0 <= i < |block| => RepeatedAt(block, shift, i))
  }

  /** Forward copying is a snapshot exactly when the destination does not start inside the
      source, or the source already repeats with the distance between them as its period. */
  lemma RepeatedIsSnapshot(block: seq<Byte>, shift: int)
    ensures Repeated(block, shift) == block <==>
            (0 < shift ==> forall i | shift <= i < |block| :: block[i] == block[i - shift])
  {
    if 0 < shift {
      if forall i | shift <= i < |block| :: block[i] == block[i - shift] {
        var n := 0;
        while n < |block|
          invariant 0 <= n <= |block|
          invariant forall i | 0 <= i < n :: Repeated(block, shift)[i] == block[i]
        {
          assert n < shift || block[n] == block[n - shift];
          n := n + 1;
        }
      }
    }
  }
}
