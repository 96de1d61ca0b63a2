/** Byte strings with the indexing rules of Python's `bytes`, shared by the wire parsers. */
module Bytes {

  datatype Option<+T> = None | Some(value: T)

  type byte = b: int | 0 <= b < 256
  type bytes = seq<byte>

  const CR: byte := 13
  const LF: byte := 10

  /** Python's normalisation of a slice bound: negative bounds count from the end. */
  function Bound(i: int, n: nat): (r: nat)
    ensures r <= n
  {
    if i < 0 then (if i + n < 0 then 0 else i + n) else if i > n then n else i
  }

  /** `b[i:j]` for arbitrary integers. */
  function Slice(b: bytes, i: int, j: int): (r: bytes)
    ensures |r| <= |b|
  {
    var lo, hi := Bound(i, |b|), Bound(j, |b|);
    if lo < hi then b[lo..hi] else []
  }

  lemma SliceInside(b: bytes, i: nat, j: nat)
    requires i <= j <= |b|
    ensures Slice(b, i, j) == b[i..j]
  {
  }

  /** `b[i:]` for an arbitrary integer. */
  function From(b: bytes, i: int): bytes {
    b[Bound(i, |b|)..]
  }

  function U8At(b: bytes, i: nat): (n: nat)
    requires i < |b|
    ensures n < 256
  {
    b[i]
  }

  /** Big-endian 16 bits. */
  function U16At(b: bytes, i: nat): (n: nat)
    requires i + 2 <= |b|
    ensures n < 65536
  {
    256 * U8At(b, i) + U8At(b, i + 1)
  }

  /** The byte stream that a list of reads delivers. */
  function Concat(chunks: seq<bytes>): bytes {
    if chunks == [] then [] else chunks[0] + Concat(chunks[1..])
  }

  lemma ConcatHead(buf: bytes, chunks: seq<bytes>)
    requires chunks != []
    ensures buf + Concat(chunks) == (buf + chunks[0]) + Concat(chunks[1..])
  {
  }

  lemma {:induction false} ConcatSplit(a: seq<bytes>, b: seq<bytes>)
    ensures Concat(a + b) == Concat(a) + Concat(b)
  {
    if a == [] {
      assert a + b == b;
    } else {
      assert (a + b)[1..] == a[1..] + b;
      ConcatSplit(a[1..], b);
    }
  }

  /** One way of delivering a stream in reads of at most `n` bytes. */
  function Cut(s: bytes, n: nat): (chunks: seq<bytes>)
    requires n > 0
    ensures Concat(chunks) == s && forall c :: c in chunks ==> 1 <= |c| <= n
  {
    if s == [] then []
    else
      var k := if |s| < n then |s| else n;
      var chunks := [s[..k]] + Cut(s[k..], n);
      assert chunks[1..] == Cut(s[k..], n) && s[..k] + s[k..] == s;
      chunks
  }

  lemma {:induction false} CutLength(s: bytes, n: nat, k: nat)
    requires n > 0 && |s| <= n * k
    ensures |Cut(s, n)| <= k
    decreases k
  {
    if s == [] {
    } else {
      assert k > 0;
      assert n * k == n * (k - 1) + n;
      if |s| > n {
        CutLength(s[n..], n, k - 1);
      } else {
        assert Cut(s[|s|..], n) == [];
      }
    }
  }

  /** A cut that reads `m` bytes at position `j`. */
  lemma CutAt(s: bytes, n: nat, j: nat, m: nat) returns (before: seq<bytes>, later: seq<bytes>)
    requires 1 <= m <= n && j + m <= |s|
    ensures Concat(before + later) == s && forall c :: c in before + later ==> 1 <= |c| <= n
    ensures Concat(before) == s[..j] && later != [] && |later[0]| == m
  {
    hide Cut;
    var read, rest := s[j..j + m], s[j + m..];
    before, later := Cut(s[..j], n), [read] + Cut(rest, n);
    ConcatSplit(before, later);
    assert later[1..] == Cut(rest, n);
    assert Concat(later) == read + rest;
    assert s[..j] + (read + rest) == s;
  }

  // The blanks of str.strip() and str.split() among the ASCII characters.
  predicate IsBlank(c: byte) {
    9 <= c <= 13 || 28 <= c <= 32
  }

  function Lower(b: bytes): (r: bytes)
    ensures |r| == |b|
  {
    seq(|b|, i requires 0 <= i < |b| => if 65 <= b[i] <= 90 then b[i] + 32 else b[i])
  }

  predicate CrlfAt(b: bytes, k: int) {
    0 <= k && k + 1 < |b| && b[k] == CR && b[k + 1] == LF
  }

  /** `b.find(CRLF, from)`: the first CRLF at or after `from`, or -1. */
  function FindCrlf(b: bytes, from: int): (r: int)
    ensures r == -1 || (CrlfAt(b, r) && Bound(from, |b|) <= r)
    ensures forall k :: Bound(from, |b|) <= k && CrlfAt(b, k) ==> 0 <= r <= k
  {
    FindCrlfFrom(b, Bound(from, |b|))
  }

  function FindCrlfFrom(b: bytes, k: nat): (r: int)
    ensures r == -1 || (CrlfAt(b, r) && k <= r)
    ensures forall j :: k <= j && CrlfAt(b, j) ==> 0 <= r <= j
    decreases |b| - k
  {
    if k + 1 >= |b| then -1 else if CrlfAt(b, k) then k else FindCrlfFrom(b, k + 1)
  }

  lemma FindCrlfUnique(b: bytes, from: int, r: int)
    requires CrlfAt(b, r) && Bound(from, |b|) <= r
    requires forall k :: Bound(from, |b|) <= k < r ==> !CrlfAt(b, k)
    ensures FindCrlf(b, from) == r
  {
    var f := FindCrlf(b, from);
    assert f != -1 && f <= r;
  }

  /** The first CRLF does not move when more bytes arrive. */
  lemma FindCrlfStable(b: bytes, more: bytes, from: nat)
    requires from <= |b| && FindCrlf(b, from) != -1
    ensures FindCrlf(b + more, from) == FindCrlf(b, from)
  {
    var r := FindCrlf(b, from);
    assert CrlfAt(b + more, r);
    forall k | from <= k < r ensures !CrlfAt(b + more, k) {
      assert CrlfAt(b + more, k) == CrlfAt(b, k);
    }
    FindCrlfUnique(b + more, from, r);
  }
}
