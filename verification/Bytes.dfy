/** Byte strings, memcpy, and the order `mpool.c` puts on strings: shorter first, then memcmp. */
module Bytes {

  newtype byte = x: int | 0 <= x < 256

  type bytes = seq<byte>

  /** memcmp on two blocks of the same length: the difference at the first unequal byte. */
  function MemCmp(a: bytes, b: bytes): int
    requires |a| == |b|
  {
    if |a| == 0 then 0
    else if a[0] != b[0] then (a[0] as int) - (b[0] as int)
    else MemCmp(a[1..], b[1..])
  }

  /** The comparison of two pool elements. */
  function Scmp(a: bytes, b: bytes): int
  {
    if |a| != |b| then (if |a| < |b| then -1 else 1)
    else MemCmp(a, b)
  }

  lemma {:induction false} MemCmpAntisymmetric(a: bytes, b: bytes)
    requires |a| == |b|
    ensures MemCmp(a, b) == -MemCmp(b, a)
    ensures MemCmp(a, b) == 0 <==> a == b
  {
    if |a| > 0 && a[0] == b[0] {
      MemCmpAntisymmetric(a[1..], b[1..]);
      assert a == [a[0]] + a[1..] && b == [b[0]] + b[1..];
    }
  }

  lemma {:induction false} MemCmpTransitive(a: bytes, b: bytes, c: bytes)
    requires |a| == |b| == |c|
    requires MemCmp(a, b) < 0 && MemCmp(b, c) < 0
    ensures MemCmp(a, c) < 0
  {
    if |a| > 0 && a[0] == b[0] == c[0] {
      MemCmpTransitive(a[1..], b[1..], c[1..]);
    }
  }

  /** Equality in the order is equality of the byte strings, and the order reverses when its arguments swap. */
  lemma {:induction false} ScmpAntisymmetric(a: bytes, b: bytes)
    ensures Scmp(a, b) == -Scmp(b, a)
    ensures Scmp(a, b) == 0 <==> a == b
  {
    if |a| == |b| {
      MemCmpAntisymmetric(a, b);
    }
  }

  lemma {:induction false} ScmpTransitive(a: bytes, b: bytes, c: bytes)
    requires Scmp(a, b) < 0 && Scmp(b, c) < 0
    ensures Scmp(a, c) < 0
  {
    if |a| == |b| == |c| {
      MemCmpTransitive(a, b, c);
    }
  }

  /** One string is below another exactly if it is shorter, or of the same length with a less byte at the first difference. */
  lemma {:induction false} ScmpExact(a: bytes, b: bytes)
    ensures Scmp(a, b) < 0 <==> |a| < |b| || (|a| == |b| && exists i :: 0 <= i < |a| && a[i] < b[i] && a[..i] == b[..i])
  {
    if |a| == |b| {
      MemCmpExact(a, b);
    }
  }

  lemma {:induction false} MemCmpExact(a: bytes, b: bytes)
    requires |a| == |b|
    ensures MemCmp(a, b) < 0 <==> exists i :: 0 <= i < |a| && a[i] < b[i] && a[..i] == b[..i]
  {
    if |a| > 0 && a[0] == b[0] {
      MemCmpExact(a[1..], b[1..]);
      if i :| 0 <= i < |a| - 1 && a[1..][i] < b[1..][i] && a[1..][..i] == b[1..][..i] {
        assert a[..i + 1] == [a[0]] + a[1..][..i] && b[..i + 1] == [b[0]] + b[1..][..i];
        assert a[i + 1] < b[i + 1];
      }
      if i :| 0 <= i < |a| && a[i] < b[i] && a[..i] == b[..i] {
        assert a[1..][..i - 1] == a[..i][1..] && b[1..][..i - 1] == b[..i][1..];
        assert a[1..][i - 1] < b[1..][i - 1];
      }
    } else if |a| > 0 && a[0] < b[0] {
      assert a[..0] == b[..0];
    } else if |a| > 0 {
      forall i | 0 < i < |a| ensures a[..i] != b[..i] {
        assert a[..i][0] != b[..i][0];
      }
    }
  }

  /** memcpy */
  method CopyInto(buffer: array<byte>, start: nat, payload: bytes)
    requires start + |payload| <= buffer.Length
    modifies buffer
    ensures buffer[..] == old(buffer[..])[..start] + payload + old(buffer[..])[start + |payload|..]
  {
    forall k | 0 <= k < |payload| {
      buffer[start + k] := payload[k];
    }
  }
}
