/** Byte-level models of the C library string routines the firmware relies on:
    `strlen`, `strncmp` (only whether it returns 0) and `strncpy`. A C string is
    held in a byte buffer and ends at the buffer's first NUL byte. */
module CString {
  import opened CTypes

  const NUL: byte := 0

  function Min(a: int, b: int): int { if a <= b then a else b }
  function Max(a: int, b: int): int { if a <= b then b else a }


  /** `n` NUL bytes. */
  function Zeros(n: nat): (z: seq<byte>)
    ensures |z| == n && forall i | 0 <= i < n :: z[i] == NUL
  {
    seq(n, _ => NUL)
  }

  predicate NoNul(s: seq<byte>) { forall i | 0 <= i < |s| :: s[i] != NUL }

  /** `strlen` of a buffer: the number of bytes before its first NUL (the
      whole buffer when it holds none; reading past its end is not modelled). */
  function StrLen(s: seq<byte>): (n: nat)
    ensures n <= |s|
    ensures NoNul(s[..n])
    ensures n < |s| ==> s[n] == NUL
  {
    if s == [] || s[0] == NUL then 0 else 1 + StrLen(s[1..])
  }

  /** The C string a buffer holds. */
  function CStr(s: seq<byte>): seq<byte> { s[..StrLen(s)] }

  /** StrLen is determined by where the first NUL is. */
  lemma {:induction false} StrLenAt(s: seq<byte>, i: nat)
    requires i <= |s| && NoNul(s[..i])
    requires i == |s| || s[i] == NUL
    ensures StrLen(s) == i
  {
    if i > 0 {
      assert s[1..][..i - 1] == s[..i][1..];
      StrLenAt(s[1..], i - 1);
    }
  }

  lemma {:induction false} StrLenAtLeast(s: seq<byte>, i: nat)
    requires i <= |s| && NoNul(s[..i])
    ensures StrLen(s) >= i
  {
    if i > 0 {
      assert s[1..][..i - 1] == s[..i][1..];
      StrLenAtLeast(s[1..], i - 1);
    }
  }

  /** A C string is non-empty exactly when its first byte is not NUL. */
  lemma StrLenPositive(s: seq<byte>)
    ensures StrLen(s) > 0 <==> |s| > 0 && s[0] != NUL
  {
  }

  /** `strncmp(a, b, n) == 0`: the two strings agree on their first `n`
      bytes, where the comparison stops early at a NUL both have. */
  predicate StrNCmpEq(a: seq<byte>, b: seq<byte>, n: nat)
    decreases n
  {
    n == 0 || (|a| > 0 && |b| > 0 && a[0] == b[0] && (a[0] == NUL || StrNCmpEq(a[1..], b[1..], n - 1)))
  }

  /** A buffer compares equal to itself over any length it has. */
  lemma {:induction false} StrNCmpEqRefl(a: seq<byte>, n: nat)
    requires n <= |a|
    ensures StrNCmpEq(a, a, n)
  {
    if n > 0 && a[0] != NUL {
      StrNCmpEqRefl(a[1..], n - 1);
    }
  }

  /** On two NUL-terminated strings, `strncmp` over `n` bytes returns 0 exactly
      when their first `n` bytes (or all of them, if shorter) are the same. */
  lemma {:induction false} StrNCmpEqTerminated(a: seq<byte>, b: seq<byte>, n: nat)
    requires NoNul(a) && NoNul(b)
    ensures StrNCmpEq(a + [NUL], b + [NUL], n) <==> a[..Min(|a|, n)] == b[..Min(|b|, n)]
  {
    if n == 0 {
    } else if a == [] || b == [] {
      if a != [] { assert a[..Min(|a|, n)][0] == a[0]; }
      if b != [] { assert b[..Min(|b|, n)][0] == b[0]; }
    } else {
      var a', b' := a[1..][..Min(|a| - 1, n - 1)], b[1..][..Min(|b| - 1, n - 1)];
      assert (a + [NUL])[1..] == a[1..] + [NUL];
      assert (b + [NUL])[1..] == b[1..] + [NUL];
      assert StrNCmpEq(a + [NUL], b + [NUL], n)
        <==> a[0] == b[0] && StrNCmpEq(a[1..] + [NUL], b[1..] + [NUL], n - 1);
      StrNCmpEqTerminated(a[1..], b[1..], n - 1);
      assert a[..Min(|a|, n)] == [a[0]] + a';
      assert b[..Min(|b|, n)] == [b[0]] + b';
      ConsEq(a[0], a', b[0], b');
    }
  }

  lemma ConsEq(x: byte, s: seq<byte>, y: byte, t: seq<byte>)
    ensures [x] + s == [y] + t <==> x == y && s == t
  {
    if [x] + s == [y] + t {
      assert ([x] + s)[0] == x && ([y] + t)[0] == y;
      assert ([x] + s)[1..] == s && ([y] + t)[1..] == t;
    }
  }

  /** Comparing a buffer with a fixed constant whose only NUL is its last
      byte, over the constant's full length, is byte-for-byte equality. */
  lemma {:induction false} StrNCmpEqWithTerminatedConstant(r: seq<byte>, t: seq<byte>)
    requires NoNul(t) && |r| == |t| + 1
    ensures StrNCmpEq(r, t + [NUL], |t| + 1) <==> r == t + [NUL]
  {
    if t != [] {
      assert (t + [NUL])[1..] == t[1..] + [NUL];
      StrNCmpEqWithTerminatedConstant(r[1..], t[1..]);
      assert r == [r[0]] + r[1..];
    }
  }

  /** `strncpy(dst, src, n)` on a buffer: the first `n` bytes receive `src`'s
      C string cut to `n` bytes and NUL-padded; the bytes from `n` on are
      not written. */
  function StrNCpy(dst: seq<byte>, src: seq<byte>, n: nat): (r: seq<byte>)
    requires n <= |dst|
    ensures |r| == |dst|
    ensures r[n..] == dst[n..]
  {
    var k := Min(StrLen(src), n);
    src[..k] + Zeros(n - k) + dst[n..]
  }

  /** What `strncpy(dst, src, cap - 1)` leaves in a `cap`-byte buffer that was
      NUL-terminated at its last byte: the C string is `src`'s, truncated to
      `cap - 1` bytes, and the buffer is still NUL-terminated there. */
  lemma StrNCpyContents(dst: seq<byte>, src: seq<byte>)
    requires |dst| > 0 && dst[|dst| - 1] == NUL
    ensures var r := StrNCpy(dst, src, |dst| - 1);
      && r[|dst| - 1] == NUL
      && CStr(r) == CStr(src)[..Min(StrLen(src), |dst| - 1)]
      && forall i | StrLen(CStr(r)) <= i < |dst| :: r[i] == NUL
  {
    var n := |dst| - 1;
    var r := StrNCpy(dst, src, n);
    var k := Min(StrLen(src), n);
    assert r[..k] == src[..k];
    assert NoNul(r[..k]);
    assert k == |r| || r[k] == NUL;
    StrLenAt(r, k);
    assert CStr(src)[..k] == src[..k];
  }

  /** strncpy as the byte loops it is: copy until `src`'s NUL or `n` bytes,
      then pad with NUL up to `n`. */
  method StrNCpyInto(dst: array<byte>, src: seq<byte>, n: nat)
    requires n <= dst.Length
    modifies dst
    ensures dst[..] == StrNCpy(old(dst[..]), src, n)
  {
    var k := CopyUntilNul(dst, src, n);
    FillNul(dst, k, n);
  }

  /** The copying loop of `strncpy`: returns how many bytes it copied. */
  method CopyUntilNul(dst: array<byte>, src: seq<byte>, n: nat) returns (k: nat)
    requires n <= dst.Length
    modifies dst
    ensures k == Min(StrLen(src), n)
    ensures dst[..] == src[..k] + old(dst[..])[k..]
  {
    k := 0;
    while k < n && k < |src| && src[k] != NUL
      invariant k <= n && k <= |src|
      invariant forall j | 0 <= j < k :: src[j] != NUL && dst[j] == src[j]
      invariant forall j | k <= j < dst.Length :: dst[j] == old(dst[j])
    {
      dst[k] := src[k];
      k := k + 1;
    }
    if k < n { StrLenAt(src, k); } else { StrLenAtLeast(src, k); }
  }

  /** The padding loop of `strncpy`: NUL from `from` up to `to`. */
  method FillNul(dst: array<byte>, from: nat, to: nat)
    requires from <= to <= dst.Length
    modifies dst
    ensures dst[..] == old(dst[..])[..from] + Zeros(to - from) + old(dst[..])[to..]
  {
    var i := from;
    while i < to
      invariant from <= i <= to
      invariant dst[..] == old(dst[..])[..from] + Zeros(i - from) + old(dst[..])[i..]
    {
      dst[i] := NUL;
      i := i + 1;
    }
  }
}
