/** The engine's elementary loops over `double` arrays, each proved against
    the vector function of RealSeq it computes. */
module Vectors {
  import opened RealSeq

  /** `sum = 0; for (i ...) sum += a[i];` */
  method SumArray(a: array<real>) returns (s: real)
    ensures s == Sum(a[..])
  {
    s := 0.0;
    for i := 0 to a.Length
      invariant s == Sum(a[..i])
    {
      assert a[..i + 1][..i] == a[..i];
      s := s + a[i];
    }
    assert a[..] == a[..a.Length];
  }

  /** `for (i ...) dst[i] = src[i] / d;` */
  method DivideInto(dst: array<real>, src: array<real>, d: real)
    requires dst != src && dst.Length == src.Length && d != 0.0
    modifies dst
    ensures dst[..] == Divide(src[..], d)
  {
    for i := 0 to dst.Length
      invariant forall t :: 0 <= t < i ==> dst[t] == src[t] / d
    {
      dst[i] := src[i] / d;
    }
  }

  /** `for (i ...) a[i] /= d;` */
  method DivideInPlace(a: array<real>, d: real)
    requires d != 0.0
    modifies a
    ensures a[..] == Divide(old(a[..]), d)
  {
    for i := 0 to a.Length
      invariant forall t :: 0 <= t < i ==> a[t] == old(a[t]) / d
      invariant forall t :: i <= t < a.Length ==> a[t] == old(a[t])
    {
      a[i] := a[i] / d;
    }
  }

  /** `for (i ...) dst[i] = src[i];` */
  method CopyInto(dst: array<real>, src: array<real>)
    requires dst != src && dst.Length == src.Length
    modifies dst
    ensures dst[..] == src[..]
  {
    for i := 0 to dst.Length
      invariant forall t :: 0 <= t < i ==> dst[t] == src[t]
    {
      dst[i] := src[i];
    }
  }

  /** `for (j ...) dst[j] += src[j];` */
  method AddInto(dst: array<real>, src: array<real>)
    requires dst != src && dst.Length == src.Length
    modifies dst
    ensures dst[..] == Plus(old(dst[..]), src[..])
  {
    for j := 0 to dst.Length
      invariant forall t :: 0 <= t < j ==> dst[t] == old(dst[t]) + src[t]
      invariant forall t :: j <= t < dst.Length ==> dst[t] == old(dst[t])
    {
      dst[j] := dst[j] + src[j];
    }
  }
}
