// The allocation and copying primitives of libc. Allocation always succeeds.
module Memory {
  import opened Bytes

  method Realloc(a: array<byte>, n: nat) returns (r: array<byte>)
    ensures fresh(r) && r.Length == n
    ensures forall i :: 0 <= i < n && i < a.Length ==> r[i] == a[i]
  {
    r := new byte[n](i => NUL);
    forall i | 0 <= i < n && i < a.Length {
      r[i] := a[i];
    }
  }

  method Memmove(a: array<byte>, dst: nat, src: nat, n: nat)
    requires dst + n <= a.Length && src + n <= a.Length
    modifies a
    ensures a[..dst] == old(a[..dst])
    ensures a[dst..dst + n] == old(a[src..src + n])
    ensures a[dst + n..] == old(a[dst + n..])
  {
    forall i | 0 <= i < n {
      a[dst + i] := a[src + i];
    }
  }

  method Memcpy(a: array<byte>, dst: nat, bytes: seq<byte>)
    requires dst + |bytes| <= a.Length
    modifies a
    ensures a[..dst + |bytes|] == old(a[..dst]) + bytes
    ensures a[dst + |bytes|..] == old(a[dst + |bytes|..])
  {
    forall i | 0 <= i < |bytes| {
      a[dst + i] := bytes[i];
    }
  }
}
