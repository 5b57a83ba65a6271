/** Octets, status codes, and the two C library calls (memcpy, memset) the core leans on. */
module Bytes {

  type byte = x: int | 0 <= x < 0x100

  /** One more than the largest uint32_t. */
  const U32: int := 0x1_0000_0000

  /** One more than the largest uint16_t. */
  const U16: int := 0x1_0000

  const CR: byte := 13
  const LF: byte := 10

  predicate IsDigit(c: byte) { 48 <= c <= 57 }

  datatype Option<+T> = None | Some(value: T)

  /** The ATCACERT_E_* codes the modelled functions can return. */
  datatype Status =
    | Ok
    | GeneralError
    | BadParams
    | BufferTooSmall
    | DecodingError
    | InvalidDate
    | UnexpectedElemSize
    | ElemMissing
    | ElemOutOfBounds
    | BadCert
    | WrongCertDef
    | InvalidTransform

  type Error = s: Status | s != Ok witness GeneralError

  /** The value a function computes, or the error code it returns instead. */
  datatype Result<+T> = Success(value: T) | Failure(error: Error) {
    predicate IsFailure() { Failure? }

    function PropagateFailure<U>(): Result<U>
      requires Failure?
    {
      Failure(error)
    }

    function Extract(): T
      requires Success?
    {
      value
    }

    /** The code the C function returns. */
    function Code(): (st: Status)
      ensures st.Ok? <==> Success?
    {
      if Success? then Ok else error
    }
  }

  function Zeros(n: nat): (z: seq<byte>)
    ensures |z| == n && forall i :: 0 <= i < n ==> z[i] == 0
  {
    seq(n, _ => 0)
  }

  /** s with the octets from index at on replaced by data. */
  function Splice(s: seq<byte>, at: nat, data: seq<byte>): (r: seq<byte>)
    requires at + |data| <= |s|
    ensures |r| == |s|
  {
    seq(|s|, i requires 0 <= i < |s| => if at <= i < at + |data| then data[i - at] else s[i])
  }

  /** Writing two pieces one after the other. */
  lemma SpliceAppend(s: seq<byte>, at: nat, a: seq<byte>, b: seq<byte>)
    requires at + |a| + |b| <= |s|
    ensures Splice(Splice(s, at, a), at + |a|, b) == Splice(s, at, a + b)
  {
  }

  lemma SpliceInside(s: seq<byte>, at: nat, data: seq<byte>)
    requires at + |data| <= |s|
    ensures Splice(s, at, data)[at..at + |data|] == data
  {
  }

  lemma SpliceOutside(s: seq<byte>, at: nat, data: seq<byte>)
    requires at + |data| <= |s|
    ensures forall i :: 0 <= i < |s| && !(at <= i < at + |data|) ==> Splice(s, at, data)[i] == s[i]
  {
  }

  lemma SpliceIs(s: seq<byte>, at: nat, data: seq<byte>, r: seq<byte>)
    requires at + |data| <= |s| == |r| && r[at..at + |data|] == data
    requires forall i :: 0 <= i < |s| && !(at <= i < at + |data|) ==> r[i] == s[i]
    ensures r == Splice(s, at, data)
  {
    var x := Splice(s, at, data);
    forall i | 0 <= i < |r| ensures r[i] == x[i] {
      if at <= i < at + |data| {
        assert r[i] == r[at..at + |data|][i - at];
      }
    }
  }

  lemma Regroup<T>(a: seq<T>, b: seq<T>, c: seq<T>)
    ensures a + (b + c) == a + b + c
  {
  }

  lemma SliceOfSlice<T>(s: seq<T>, at: nat, size: nat, lo: nat, hi: nat)
    requires at + size <= |s| && lo <= hi <= size
    ensures s[at..at + size][lo..hi] == s[at + lo..at + hi]
  {
    var a, b := s[at..at + size][lo..hi], s[at + lo..at + hi];
    assert |a| == |b|;
    assert forall i :: 0 <= i < |a| ==> a[i] == s[at + lo + i] && b[i] == s[at + lo + i];
  }

  lemma SliceSplit<T>(s: seq<T>, lo: nat, mid: nat, hi: nat)
    requires lo <= mid <= hi <= |s|
    ensures s[lo..hi] == s[lo..mid] + s[mid..hi]
  {
  }

  /** Two regions of the same buffer that share no octet; regions of different buffers never do. */
  ghost predicate Disjoint(a: array<byte>, aAt: nat, aLen: nat, b: array<byte>, bAt: nat, bLen: nat) {
    a != b || aAt + aLen <= bAt || bAt + bLen <= aAt
  }

  /** memcpy. C gives no meaning to overlapping regions, so the contract only frames that case. */
  method Memcpy(dst: array<byte>, dstAt: nat, src: array<byte>, srcAt: nat, n: nat)
    requires dstAt + n <= dst.Length && srcAt + n <= src.Length
    modifies dst
    ensures forall i :: 0 <= i < dst.Length && !(dstAt <= i < dstAt + n) ==> dst[i] == old(dst[i])
    ensures Disjoint(dst, dstAt, n, src, srcAt, n) ==>
              dst[..] == Splice(old(dst[..]), dstAt, old(src[srcAt..srcAt + n]))
  {
    ghost var was := src[srcAt..srcAt + n];
    for k := 0 to n
      invariant forall i :: 0 <= i < dst.Length && !(dstAt <= i < dstAt + k) ==> dst[i] == old(dst[i])
      invariant Disjoint(dst, dstAt, n, src, srcAt, n) ==> src[srcAt..srcAt + n] == was
      invariant Disjoint(dst, dstAt, n, src, srcAt, n) ==> dst[dstAt..dstAt + k] == was[..k]
    {
      assert Disjoint(dst, dstAt, n, src, srcAt, n) ==> src[srcAt + k] == was[k];
      dst[dstAt + k] := src[srcAt + k];
    }
  }

  /** memcpy from constant data, which no buffer overlaps. */
  method CopyInto(dst: array<byte>, at: nat, data: seq<byte>)
    requires at + |data| <= dst.Length
    modifies dst
    ensures dst[..] == Splice(old(dst[..]), at, data)
  {
    for k := 0 to |data|
      invariant forall i :: 0 <= i < dst.Length && !(at <= i < at + k) ==> dst[i] == old(dst[i])
      invariant forall i :: 0 <= i < k ==> dst[at + i] == data[i]
    {
      dst[at + k] := data[k];
    }
    assert dst[at..at + |data|] == data;
  }

  /** memset with zero. */
  method Zero(dst: array<byte>, at: nat, n: nat)
    requires at + n <= dst.Length
    modifies dst
    ensures forall i :: 0 <= i < dst.Length ==> dst[i] == if at <= i < at + n then 0 else old(dst[i])
  {
    for k := 0 to n
      invariant forall i :: 0 <= i < dst.Length ==> dst[i] == if at <= i < at + k then 0 else old(dst[i])
    {
      dst[at + k] := 0;
    }
  }
}
