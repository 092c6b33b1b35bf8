/** libmemcpy's inline_memcpy: small sizes by two overlapping moves, medium sizes by 16-byte
    moves, large sizes by an unrolled loop of 16-byte aligned stores and one jump back.
    dst and src are two buffers (the source's __restrict); dst[0] lies at address addr. */
module Memcpy {
  import opened Words
  import opened Bits

  /** to[lo..hi] agrees with the bytes of from that belong there. */
  ghost predicate Copied<T>(to: seq<T>, from: seq<T>, d: nat, s: nat, lo: nat, hi: nat) {
    && hi <= |to| && d <= lo && s + hi - d <= |from|
    && forall j {:trigger to[j]} :: lo <= j < hi ==> to[j] == from[j - d + s]
  }

  /** Nothing outside to[lo..hi] differs from before. */
  ghost predicate Untouched<T>(before: seq<T>, to: seq<T>, lo: nat, hi: nat) {
    |before| == |to| && forall j {:trigger to[j]} :: 0 <= j < |to| && !(lo <= j < hi) ==> to[j] == before[j]
  }

  /** A fixed-size move: both sides are read before anything is written. */
  method Move<T>(dst: array<T>, to: nat, src: array<T>, from: nat, n: nat)
    requires dst != src && to + n <= dst.Length && from + n <= src.Length
    modifies dst
    ensures dst[..] == old(dst[..to]) + src[from..from + n] + old(dst[to + n..])
  {
    forall k | 0 <= k < n {
      dst[to + k] := src[from + k];
    }
  }

  /** A 16-byte store that faults unless its address is a multiple of 16. */
  method StoreAligned<T>(dst: array<T>, to: nat, bytes: seq<T>, ghost addr: nat)
    requires |bytes| == 16 && to + 16 <= dst.Length && (addr + to) % 16 == 0
    modifies dst
    ensures dst[..] == old(dst[..to]) + bytes + old(dst[to + 16..])
  {
    forall k | 0 <= k < 16 {
      dst[to + k] := bytes[k];
    }
  }

  /** Writing the right bytes anywhere in the target extends what is copied and spoils nothing. */
  lemma RightBytes<T>(start: seq<T>, before: seq<T>, after: seq<T>, from: seq<T>, d: nat, s: nat, size: nat, to: nat, n: nat)
    requires d <= to && to + n <= d + size <= |before| && s + size <= |from|
    requires Untouched(start, before, d, d + size)
    requires after == before[..to] + from[to - d + s..to - d + s + n] + before[to + n..]
    ensures Untouched(start, after, d, d + size)
    ensures Copied(after, from, d, s, to, to + n)
    ensures forall lo: nat, hi: nat :: Copied(before, from, d, s, lo, hi) && hi <= d + size ==> Copied(after, from, d, s, lo, hi)
  {
    forall j | 0 <= j < |after| && !(to <= j < to + n)
      ensures after[j] == before[j]
    {
    }
    assert forall j :: to <= j < to + n ==> after[j] == from[j - d + s];
    forall lo: nat, hi: nat | Copied(before, from, d, s, lo, hi) && hi <= d + size
      ensures Copied(after, from, d, s, lo, hi)
    {
    }
  }

  /** Two moves of n bytes, last first, cover a size between n and 2n. */
  method CopyEnds<T>(dst: array<T>, to: nat, src: array<T>, from: nat, size: nat, n: nat,
                     ghost start: seq<T>, ghost d: nat, ghost s: nat, ghost total: nat)
    requires dst != src && n <= size <= 2 * n && d <= to && to - d == from - s && to + size == d + total
    requires d + total <= dst.Length && s + total <= src.Length
    requires Untouched(start, dst[..], d, d + total) && Copied(dst[..], src[..], d, s, d, to)
    modifies dst
    ensures Untouched(start, dst[..], d, d + total) && Copied(dst[..], src[..], d, s, d, d + total)
  {
    hide Copied, Untouched;
    MoveRight(dst, to + size - n, src, from + size - n, n, start, d, s, total);
    MoveRight(dst, to, src, from, n, start, d, s, total);
    CopiedJoin(dst[..], src[..], d, s, d, to, to, to + n);
    CopiedJoin(dst[..], src[..], d, s, d, to + n, to + size - n, d + total);
  }

  lemma CopiedJoin<T>(to: seq<T>, from: seq<T>, d: nat, s: nat, lo: nat, mid: nat, mid': nat, hi: nat)
    requires lo <= mid' <= mid && Copied(to, from, d, s, lo, mid) && Copied(to, from, d, s, mid', hi)
    ensures Copied(to, from, d, s, lo, hi)
  {
  }

  /** Moves bytes to where they belong; everything copied before stays copied. */
  method MoveRight<T>(dst: array<T>, to: nat, src: array<T>, from: nat, n: nat,
                      ghost start: seq<T>, ghost d: nat, ghost s: nat, ghost total: nat)
    requires dst != src && d <= to && to - d == from - s && to + n <= d + total
    requires d + total <= dst.Length && s + total <= src.Length
    requires Untouched(start, dst[..], d, d + total)
    modifies dst
    ensures Untouched(start, dst[..], d, d + total) && Copied(dst[..], src[..], d, s, to, to + n)
    ensures forall lo: nat, hi: nat ::
              Copied(old(dst[..]), src[..], d, s, lo, hi) && hi <= d + total ==> Copied(dst[..], src[..], d, s, lo, hi)
  {
    hide Copied, Untouched;
    ghost var before := dst[..];
    Move(dst, to, src, from, n);
    assert dst[..] == before[..to] + src[..][to - d + s..to - d + s + n] + before[to + n..];
    RightBytes(start, before, dst[..], src[..], d, s, total, to, n);
  }

  lemma StillAligned(address: nat, k: nat)
    requires address % 16 == 0
    ensures (address + 16 * k) % 16 == 0
  {
  }

  /** One turn of the unrolled loop: eight loads, then eight aligned stores. */
  method Copy128<T>(dst: array<T>, to: nat, src: array<T>, from: nat,
                    ghost addr: nat, ghost start: seq<T>, ghost d: nat, ghost s: nat, ghost total: nat)
    requires dst != src && d <= to && to - d == from - s && to + 128 <= d + total
    requires d + total <= dst.Length && s + total <= src.Length && (addr + to) % 16 == 0
    requires Untouched(start, dst[..], d, d + total) && Copied(dst[..], src[..], d, s, d, to)
    modifies dst
    ensures Untouched(start, dst[..], d, d + total) && Copied(dst[..], src[..], d, s, d, to + 128)
  {
    var i := 0;
    while i < 8
      invariant 0 <= i <= 8
      invariant Untouched(start, dst[..], d, d + total) && Copied(dst[..], src[..], d, s, d, to + 16 * i)
    {
      ghost var before := dst[..];
      StillAligned(addr + to, i);
      StoreAligned(dst, to + 16 * i, src[from + 16 * i..from + 16 * i + 16], addr);
      assert src[..][from + 16 * i..from + 16 * i + 16] == src[from + 16 * i..from + 16 * i + 16];
      RightBytes(start, before, dst[..], src[..], d, s, total, to + 16 * i, 16);
      i := i + 1;
    }
  }

  /** Copies size bytes; reports how often the jump to the tail was taken. */
  method Copy<T>(dst: array<T>, d: nat, src: array<T>, s: nat, size: nat, addr: nat) returns (ret: nat, ghost jumps: nat)
    requires dst != src && d + size <= dst.Length && s + size <= src.Length
    modifies dst
    ensures dst[..] == old(dst[..d]) + src[s..s + size] + old(dst[d + size..])
    ensures ret == d
    ensures jumps == if size > 128 then 1 else 0
  {
    ret := d;
    jumps := 0;
    var to, from, left := d, s, size;
    var again := true;
    while again
      invariant d <= to && to - d == from - s && to + left == d + size
      invariant if jumps == 0 then left == size && (!again ==> size <= 128) else jumps == 1 && size > 128 && (again ==> left < 128)
      invariant Untouched(old(dst[..]), dst[..], d, d + size)
      invariant Copied(dst[..], src[..], d, s, d, if again then to else d + size)
      decreases if again then 2 - jumps else 0
    {
      again := false;
      if left <= 16 {
        CopySmall(dst, to, src, from, left, old(dst[..]), d, s, size);
      } else if left <= 128 {
        CopyMedium(dst, to, src, from, left, old(dst[..]), d, s, size);
      } else {
        to, from, left := CopyLarge(dst, to, src, from, left, addr, old(dst[..]), d, s, size);
        jumps := jumps + 1;
        again := true;
      }
    }
  }

  method CopySmall<T>(dst: array<T>, to: nat, src: array<T>, from: nat, size: nat,
                      ghost start: seq<T>, ghost d: nat, ghost s: nat, ghost total: nat)
    requires dst != src && size <= 16 && d <= to && to - d == from - s && to + size == d + total
    requires d + total <= dst.Length && s + total <= src.Length
    requires Untouched(start, dst[..], d, d + total) && Copied(dst[..], src[..], d, s, d, to)
    modifies dst
    ensures Untouched(start, dst[..], d, d + total) && Copied(dst[..], src[..], d, s, d, d + total)
  {
    if size >= 8 {
      CopyEnds(dst, to, src, from, size, 8, start, d, s, total);
    } else if size >= 4 {
      CopyEnds(dst, to, src, from, size, 4, start, d, s, total);
    } else if size >= 2 {
      CopyEnds(dst, to, src, from, size, 2, start, d, s, total);
    } else if size >= 1 {
      dst[to] := src[from];
    }
  }

  /** 17 to 128 bytes: the last 16, then 16 at a time from the front. */
  method CopyMedium<T>(dst: array<T>, to0: nat, src: array<T>, from0: nat, size0: nat,
                       ghost start: seq<T>, ghost d: nat, ghost s: nat, ghost total: nat)
    requires dst != src && size0 > 16 && d <= to0 && to0 - d == from0 - s && to0 + size0 == d + total
    requires d + total <= dst.Length && s + total <= src.Length
    requires Untouched(start, dst[..], d, d + total) && Copied(dst[..], src[..], d, s, d, to0)
    modifies dst
    ensures Untouched(start, dst[..], d, d + total) && Copied(dst[..], src[..], d, s, d, d + total)
  {
    var to, from, size := to0, from0, size0;
    hide Copied, Untouched;
    MoveRight(dst, to + size - 16, src, from + size - 16, 16, start, d, s, total);
    while size > 16
      invariant d <= to && to - d == from - s && to + size == d + total
      invariant Untouched(start, dst[..], d, d + total) && Copied(dst[..], src[..], d, s, d, to)
      invariant Copied(dst[..], src[..], d, s, d + total - 16, d + total)
    {
      MoveRight(dst, to, src, from, 16, start, d, s, total);
      CopiedJoin(dst[..], src[..], d, s, d, to, to, to + 16);
      to, from, size := to + 16, from + 16, size - 16;
    }
    CopiedJoin(dst[..], src[..], d, s, d, to, d + total - 16, d + total);
  }

  /** The address is a multiple of 16 after the padding. */
  lemma PaddingAligns(address: nat)
    ensures And(address, 15) <= 15
    ensures var padding := And(16 - And(address, 15), 15); padding < 16 && (address + padding) % 16 == 0
  {
    hide And;
    LowNibble(address);
    LowNibble(16 - address % 16);
  }

  lemma LowNibble(x: nat)
    ensures And(x, 15) == x % 16
  {
    assert Pow2(4) == 16;
    hide And;
    AndMask(x, 4);
  }

  /** A first move of 16 bytes lets dst advance to an aligned address. */
  method Align<T>(dst: array<T>, to0: nat, src: array<T>, from0: nat, size0: nat,
                  addr: nat, ghost start: seq<T>, ghost d: nat, ghost s: nat, ghost total: nat)
    returns (to: nat, from: nat, size: nat)
    requires dst != src && size0 > 128 && d <= to0 && to0 - d == from0 - s && to0 + size0 == d + total
    requires d + total <= dst.Length && s + total <= src.Length
    requires Untouched(start, dst[..], d, d + total) && Copied(dst[..], src[..], d, s, d, to0)
    modifies dst
    ensures to0 <= to && to - d == from - s && to + size == d + total && (addr + to) % 16 == 0
    ensures Untouched(start, dst[..], d, d + total) && Copied(dst[..], src[..], d, s, d, to)
  {
    hide And;
    to, from, size := to0, from0, size0;
    PaddingAligns(addr + to);
    var padding := And(16 - And(addr + to, 15), 15);
    if padding > 0 {
      ghost var before := dst[..];
      Move(dst, to, src, from, 16);
      RightBytes(start, before, dst[..], src[..], d, s, total, to, 16);
      to, from, size := to + padding, from + padding, size - padding;
    }
  }

  /** More than 128 bytes: align dst, then the unrolled loop; 0 to 127 bytes are left. */
  method CopyLarge<T>(dst: array<T>, to0: nat, src: array<T>, from0: nat, size0: nat,
                      addr: nat, ghost start: seq<T>, ghost d: nat, ghost s: nat, ghost total: nat)
    returns (to: nat, from: nat, size: nat)
    requires dst != src && size0 > 128 && d <= to0 && to0 - d == from0 - s && to0 + size0 == d + total
    requires d + total <= dst.Length && s + total <= src.Length
    requires Untouched(start, dst[..], d, d + total) && Copied(dst[..], src[..], d, s, d, to0)
    modifies dst
    ensures d <= to && to - d == from - s && to + size == d + total && size < 128
    ensures Untouched(start, dst[..], d, d + total) && Copied(dst[..], src[..], d, s, d, to)
  {
    hide Copied, Untouched;
    to, from, size := Align(dst, to0, src, from0, size0, addr, start, d, s, total);
    while size >= 128
      invariant d <= to && to - d == from - s && to + size == d + total && (addr + to) % 16 == 0
      invariant Untouched(start, dst[..], d, d + total) && Copied(dst[..], src[..], d, s, d, to)
    {
      Copy128(dst, to, src, from, addr, start, d, s, total);
      StillAligned(addr + to, 8);
      to, from, size := to + 128, from + 128, size - 128;
    }
  }
}
