/** Go byte slices as heap buffers: nil is null, and copying is where ownership changes hands. */
module Buffers {
  import opened Words

  type Buffer = array?<Byte>

  function Contents(b: Buffer): Bytes
    reads b
  {
    if b == null then [] else b[..]
  }

  /** No two entries share a non-nil buffer. */
  ghost predicate Disjoint(bs: seq<Buffer>) {
    forall i, j | 0 <= i < j < |bs| && bs[i] != null :: bs[i] != bs[j]
  }

  lemma DisjointEmpty()
    ensures Disjoint([])
  {
  }

  lemma DisjointJoin(xs: seq<Buffer>, bs: seq<Buffer>)
    requires Disjoint(xs) && Disjoint(bs)
    requires forall b | b in bs && b != null :: b !in xs
    ensures Disjoint(xs + bs)
  {
    var all := xs + bs;
    forall i, j | 0 <= i < j < |all| && all[i] != null
      ensures all[i] != all[j]
    {
      if i < |xs| <= j {
        assert all[j] in bs && all[i] in xs;
      }
    }
  }

  /** Every one of these buffers is fresh since the old state, and no two are the same. */
  twostate predicate OwnsBuffers(new bs: seq<Buffer>) {
    (forall b | b in bs && b != null :: fresh(b)) && Disjoint(bs)
  }

  /** append([]byte(nil), b...): fresh storage, and nil when there is nothing to copy. */
  method CopyBytes(b: Buffer) returns (r: Buffer)
    ensures Contents(r) == Contents(b)
    ensures r != null ==> fresh(r)
    ensures r == null <==> Contents(b) == []
  {
    if b == null || b.Length == 0 {
      return null;
    }
    r := new Byte[b.Length];
    for i := 0 to b.Length
      invariant r[..i] == b[..i]
    {
      r[i] := b[i];
    }
    assert r[..] == b[..];
  }

  /** bytes.Equal: the same bytes, whichever buffers hold them. */
  method BytesEqual(a: Buffer, b: Buffer) returns (r: bool)
    ensures r <==> Contents(a) == Contents(b)
  {
    var n := if a == null then 0 else a.Length;
    if n != (if b == null then 0 else b.Length) {
      return false;
    }
    for i := 0 to n
      invariant Contents(a)[..i] == Contents(b)[..i]
    {
      if a[i] != b[i] {
        assert Contents(a)[i] != Contents(b)[i];
        return false;
      }
    }
    assert Contents(a) == Contents(a)[..n] && Contents(b) == Contents(b)[..n];
    return true;
  }

  /** The storage behind id[:] of a fixed-size array value. */
  method Materialize(bytes: Bytes) returns (r: array<Byte>)
    ensures fresh(r) && r[..] == bytes
  {
    r := new Byte[|bytes|](i requires 0 <= i < |bytes| => bytes[i]);
  }
}
