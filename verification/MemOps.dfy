/** The memory routines of util/string.c. An array stands for memory, with the address as index. */
module MemOps {

  /** Memory after `n` bytes at `src` are copied to `dst`, all at once. */
  function Copied<Byte>(m: seq<Byte>, dst: nat, src: nat, n: nat): (r: seq<Byte>)
    requires dst + n <= |m| && src + n <= |m|
    ensures |r| == |m|
  {
    m[..dst] + m[src..src + n] + m[dst + n..]
  }

  lemma CopiedAt<Byte>(m: seq<Byte>, dst: nat, src: nat, n: nat, i: nat)
    requires dst + n <= |m| && src + n <= |m| && i < |m|
    ensures Copied(m, dst, src, n)[i] == if dst <= i < dst + n then m[i - dst + src] else m[i]
  {
  }

  lemma CopiedNone<Byte>(m: seq<Byte>, dst: nat, src: nat)
    requires dst <= |m| && src <= |m|
    ensures Copied(m, dst, src, 0) == m
  {
  }

  lemma CopiedOne<Byte>(m: seq<Byte>, d: nat, s: nat)
    requires d < |m| && s < |m|
    ensures Copied(m, d, s, 1) == m[d := m[s]]
  {
  }

  /** Copying on, from the front, when the destination does not run into what is still to be read. */
  lemma CopiedMore<Byte>(m: seq<Byte>, dst: nat, src: nat, k: nat, j: nat)
    requires dst + k + j <= |m| && src + k + j <= |m|
    requires dst <= src || src + k + j <= dst
    ensures Copied(Copied(m, dst, src, k), dst + k, src + k, j) == Copied(m, dst, src, k + j)
  {
    hide Copied;
    var m' := Copied(m, dst, src, k);
    var a, b := Copied(m', dst + k, src + k, j), Copied(m, dst, src, k + j);
    forall i | 0 <= i < |m|
      ensures a[i] == b[i]
    {
      CopiedAt(m', dst + k, src + k, j, i);
      CopiedAt(m, dst, src, k + j, i);
      CopiedAt(m, dst, src, k, i);
      if dst + k <= i < dst + k + j {
        CopiedAt(m, dst, src, k, i - dst + src);
      }
    }
  }

  /** Memory after `n` bytes at `dst` are set to `b`. */
  function Filled(m: seq<bv8>, dst: nat, b: bv8, n: nat): seq<bv8>
    requires dst + n <= |m|
  {
    m[..dst] + seq(n, _ => b) + m[dst + n..]
  }

  lemma FilledLength(m: seq<bv8>, dst: nat, b: bv8, n: nat)
    requires dst + n <= |m|
    ensures |Filled(m, dst, b, n)| == |m|
  {
  }

  lemma FilledAt(m: seq<bv8>, dst: nat, b: bv8, n: nat, i: nat)
    requires dst + n <= |m| && i < |m|
    ensures |Filled(m, dst, b, n)| == |m|
    ensures Filled(m, dst, b, n)[i] == if dst <= i < dst + n then b else m[i]
  {
  }

  /** `memmove`: for every overlap, the destination ends up with what the source held. */
  method Memmove<Byte>(mem: array<Byte>, dst: nat, src: nat, n: nat)
    requires dst + n <= mem.Length && src + n <= mem.Length
    modifies mem
    ensures mem[..] == Copied(old(mem[..]), dst, src, n)
  {
    if src < dst && src + n > dst {
      MoveBackward(mem, dst, src, n);
    } else {
      MoveForward(mem, dst, src, n);
    }
  }

  /** The loop of `memmove` for a destination that overlaps the source from above. */
  method MoveBackward<Byte>(mem: array<Byte>, dst: nat, src: nat, n: nat)
    requires src <= dst && dst + n <= mem.Length
    modifies mem
    ensures mem[..] == Copied(old(mem[..]), dst, src, n)
  {
    hide Copied;
    var s, d, left := src + n, dst + n, n;
    while left > 0
      invariant 0 <= left <= n && s == src + left && d == dst + left
      invariant forall k :: 0 <= k < mem.Length ==>
                  mem[k] == old(if d <= k < dst + n then mem[k - dst + src] else mem[k])
    {
      left := left - 1;
      s, d := s - 1, d - 1;
      mem[d] := mem[s];
    }
    forall i | 0 <= i < mem.Length
      ensures mem[i] == Copied(old(mem[..]), dst, src, n)[i]
    {
      CopiedAt(old(mem[..]), dst, src, n, i);
    }
  }

  method MoveForward<Byte>(mem: array<Byte>, dst: nat, src: nat, n: nat)
    requires dst + n <= mem.Length && src + n <= mem.Length
    requires dst <= src || src + n <= dst
    modifies mem
    ensures mem[..] == Copied(old(mem[..]), dst, src, n)
  {
    hide Copied;
    ghost var m0 := mem[..];
    CopiedNone(m0, dst, src);
    var s, d, left := src, dst, n;
    while left > 0
      invariant 0 <= left <= n && s == src + (n - left) && d == dst + (n - left)
      invariant mem[..] == Copied(m0, dst, src, n - left)
    {
      CopiedMore(m0, dst, src, n - left, 1);
      CopiedOne(mem[..], d, s);
      left := left - 1;
      mem[d] := mem[s];
      s, d := s + 1, d + 1;
    }
  }

  /** Load a doubleword and store it: eight bytes at once. */
  method CopyWord<Byte>(mem: array<Byte>, d: nat, s: nat)
    requires d + 8 <= mem.Length && s + 8 <= mem.Length
    modifies mem
    ensures mem[..] == Copied(old(mem[..]), d, s, 8)
  {
    forall i | 0 <= i < 8 {
      mem[d + i] := mem[s + i];
    }
  }

  /** `memcpy`: on disjoint ranges the word loop and the byte loop together copy byte for byte. */
  method Memcpy<Byte>(mem: array<Byte>, dest: nat, src: nat, len: nat)
    requires dest + len <= mem.Length && src + len <= mem.Length
    requires dest + len <= src || src + len <= dest
    modifies mem
    ensures mem[..] == Copied(old(mem[..]), dest, src, len)
  {
    hide Copied;
    ghost var m0 := mem[..];
    CopiedNone(m0, dest, src);
    var s, d := src, dest;
    if dest % 8 == 0 && src % 8 == 0 {
      while d < dest + len - 7
        invariant dest <= d <= dest + len && s == src + (d - dest)
        invariant mem[..] == Copied(m0, dest, src, d - dest)
      {
        CopiedMore(m0, dest, src, d - dest, 8);
        CopyWord(mem, d, s);
        s, d := s + 8, d + 8;
      }
    }
    while d < dest + len
      invariant dest <= d <= dest + len && s == src + (d - dest)
      invariant mem[..] == Copied(m0, dest, src, d - dest)
    {
      CopiedMore(m0, dest, src, d - dest, 1);
      CopiedOne(mem[..], d, s);
      mem[d] := mem[s];
      s, d := s + 1, d + 1;
    }
  }

  /** The byte replicated by three shift-and-or steps. */
  function Replicate(byte: bv64): bv64 {
    var w := byte & 0xFF;
    var w1 := w | (w << 8);
    var w2 := w1 | (w1 << 16);
    w2 | ((w2 << 16) << 16)
  }

  /** Byte `i` of a stored doubleword. */
  function ByteOf(w: bv64, i: nat): bv8
    requires i < 8
  {
    ((w >> (8 * i as bv64)) & 0xFF) as bv8
  }

  lemma ReplicateBytes(byte: bv64, i: nat)
    requires i < 8
    ensures ByteOf(Replicate(byte), i) == (byte & 0xFF) as bv8
  {
    if i == 0 {} else if i == 1 {} else if i == 2 {} else if i == 3 {}
    else if i == 4 {} else if i == 5 {} else if i == 6 {} else {}
  }

  method StoreWord(mem: array<bv8>, d: nat, w: bv64)
    requires d + 8 <= mem.Length
    modifies mem
    ensures forall i :: 0 <= i < 8 ==> mem[d + i] == ByteOf(w, i)
    ensures forall k :: 0 <= k < mem.Length && !(d <= k < d + 8) ==> mem[k] == old(mem[k])
  {
    forall i | 0 <= i < 8 {
      mem[d + i] := ByteOf(w, i);
    }
  }

  /** `memset`: both paths fill the range with the low byte. */
  method Memset(mem: array<bv8>, dest: nat, byte: bv64, len: nat)
    requires dest + len <= mem.Length
    modifies mem
    ensures mem[..] == Filled(old(mem[..]), dest, (byte & 0xFF) as bv8, len)
  {
    hide ByteOf, Replicate, Filled;
    ghost var low, m0 := (byte & 0xFF) as bv8, mem[..];
    var d := dest;
    if dest % 8 == 0 && len % 8 == 0 {
      var word := Replicate(byte);
      while d < dest + len
        invariant dest <= d <= dest + len && (dest + len - d) % 8 == 0
        invariant forall k :: dest <= k < d ==> mem[k] == low
        invariant forall k :: 0 <= k < mem.Length && !(dest <= k < d) ==> mem[k] == m0[k]
      {
        forall i: nat | i < 8
          ensures ByteOf(word, i) == low
        {
          ReplicateBytes(byte, i);
        }
        StoreWord(mem, d, word);
        forall k | d <= k < d + 8
          ensures mem[k] == low
        {
          assert mem[d + (k - d)] == ByteOf(word, k - d);
        }
        d := d + 8;
      }
    } else {
      while d < dest + len
        invariant dest <= d <= dest + len
        invariant forall k :: dest <= k < d ==> mem[k] == low
        invariant forall k :: 0 <= k < mem.Length && !(dest <= k < d) ==> mem[k] == m0[k]
      {
        mem[d] := (byte & 0xFF) as bv8;
        d := d + 1;
      }
    }
    FilledLength(m0, dest, low, len);
    forall k | 0 <= k < mem.Length
      ensures mem[k] == Filled(m0, dest, low, len)[k]
    {
      FilledAt(m0, dest, low, len, k);
    }
  }
}
