/** LZ4_count and LZ4HC_countBack: comparing words is the longest common prefix, or suffix. */
module MatchLength {
  import opened Bytes

  /** The longest common prefix of a[i..limit] and b[k..], byte by byte. */
  function CommonPrefix(a: seq<byte>, i: nat, b: seq<byte>, k: nat, limit: nat): (n: nat)
    requires i <= limit <= |a| && k + (limit - i) <= |b|
    ensures i + n <= limit
    ensures i + n < limit ==> a[i + n] != b[k + n]
    decreases limit - i
  {
    if i < limit && a[i] == b[k] then 1 + CommonPrefix(a, i + 1, b, k + 1, limit) else 0
  }

  lemma {:induction false} CommonPrefixEqual(a: seq<byte>, i: nat, b: seq<byte>, k: nat, limit: nat)
    requires i <= limit <= |a| && k + (limit - i) <= |b|
    ensures var n := CommonPrefix(a, i, b, k, limit); a[i..i + n] == b[k..k + n]
    decreases limit - i
  {
    var n := CommonPrefix(a, i, b, k, limit);
    if n > 0 {
      CommonPrefixEqual(a, i + 1, b, k + 1, limit);
      assert a[i..i + n] == [a[i]] + a[i + 1..i + n];
      assert b[k..k + n] == [b[k]] + b[k + 1..k + n];
    }
  }

  /** The number of equal leading bytes of two different words: on a little-endian
      machine, the trailing zero bytes of their exclusive or. */
  function NbCommonBytes(x: seq<byte>, y: seq<byte>): (n: nat)
    requires |x| == |y| && x != y
    ensures n < |x| && x[n] != y[n] && x[..n] == y[..n]
  {
    if x[0] != y[0] then 0 else
      assert x == [x[0]] + x[1..] && y == [y[0]] + y[1..];
      1 + NbCommonBytes(x[1..], y[1..])
  }

  lemma {:induction false} SkipEqual(a: seq<byte>, i: nat, b: seq<byte>, k: nat, limit: nat, w: nat)
    requires i + w <= limit <= |a| && k + (limit - i) <= |b| && a[i..i + w] == b[k..k + w]
    ensures CommonPrefix(a, i, b, k, limit) == w + CommonPrefix(a, i + w, b, k + w, limit)
    decreases w
  {
    if w > 0 {
      assert a[i] == a[i..i + w][0] == b[k..k + w][0] == b[k];
      assert a[i + 1..i + w] == a[i..i + w][1..] == b[k..k + w][1..] == b[k + 1..k + w];
      SkipEqual(a, i + 1, b, k + 1, limit, w - 1);
    }
  }

  lemma StopsWithin(a: seq<byte>, i: nat, b: seq<byte>, k: nat, limit: nat, w: nat)
    requires i + w <= limit <= |a| && k + (limit - i) <= |b| && a[i..i + w] != b[k..k + w]
    ensures CommonPrefix(a, i, b, k, limit) == NbCommonBytes(a[i..i + w], b[k..k + w])
  {
    var n := NbCommonBytes(a[i..i + w], b[k..k + w]);
    assert a[i..i + n] == a[i..i + w][..n] == b[k..k + w][..n] == b[k..k + n];
    SkipEqual(a, i, b, k, limit, n);
  }

  /** Counting in two pieces. */
  lemma CountInTwo(d: seq<byte>, i: nat, k: nat, mid: nat, limit: nat)
    requires k < i <= mid <= limit <= |d|
    ensures var n := CommonPrefix(d, i, d, k, mid);
      CommonPrefix(d, i, d, k, limit) == if i + n < mid then n else n + CommonPrefix(d, mid, d, k + (mid - i), limit)
  {
    var n := CommonPrefix(d, i, d, k, mid);
    CommonPrefixEqual(d, i, d, k, mid);
    SkipEqual(d, i, d, k, limit, n);
  }

  /** LZ4_count with an 8-byte step. */
  method Count(a: seq<byte>, pIn: nat, b: seq<byte>, pMatch: nat, limit: nat) returns (n: nat)
    requires pIn <= limit <= |a| && pMatch + (limit - pIn) <= |b|
    ensures n == CommonPrefix(a, pIn, b, pMatch, limit)
  {
    var i, k := pIn, pMatch;
    while i + 7 < limit
      invariant pIn <= i <= limit && k == pMatch + (i - pIn)
      invariant CommonPrefix(a, pIn, b, pMatch, limit) == i - pIn + CommonPrefix(a, i, b, k, limit)
    {
      if a[i..i + 8] != b[k..k + 8] {
        StopsWithin(a, i, b, k, limit, 8);
        return i - pIn + NbCommonBytes(a[i..i + 8], b[k..k + 8]);
      }
      SkipEqual(a, i, b, k, limit, 8);
      i, k := i + 8, k + 8;
    }
    i, k := CountTail(a, i, b, k, limit, 4);
    i, k := CountTail(a, i, b, k, limit, 2);
    i, k := CountTail(a, i, b, k, limit, 1);
    n := i - pIn;
  }

  /** One of the closing comparisons of LZ4_count, on 4, 2 or 1 bytes. */
  method CountTail(a: seq<byte>, i: nat, b: seq<byte>, k: nat, limit: nat, w: nat) returns (i': nat, k': nat)
    requires i <= limit <= |a| && k + (limit - i) <= |b|
    requires CommonPrefix(a, i, b, k, limit) < 2 * w
    ensures i <= i' <= limit && k' == k + (i' - i)
    ensures CommonPrefix(a, i, b, k, limit) == i' - i + CommonPrefix(a, i', b, k', limit)
    ensures CommonPrefix(a, i', b, k', limit) < w
  {
    i', k' := i, k;
    if i + w <= limit {
      if a[i..i + w] == b[k..k + w] {
        SkipEqual(a, i, b, k, limit, w);
        i', k' := i + w, k + w;
      } else {
        StopsWithin(a, i, b, k, limit, w);
      }
    }
  }

  // --- Backwards ---

  /** The `n` bytes before a[i] and before b[k] agree. */
  ghost predicate SameBefore(a: seq<byte>, i: nat, b: seq<byte>, k: nat, n: nat) {
    n <= i <= |a| && n <= k <= |b| && forall j :: i - n <= j < i ==> a[j] == b[j - i + k]
  }

  /** `n` is the length of the longest common suffix of a[..i] and b[..k], up to `limit` bytes. */
  ghost predicate IsCommonSuffix(a: seq<byte>, i: nat, b: seq<byte>, k: nat, limit: nat, n: nat) {
    SameBefore(a, i, b, k, n) && n <= limit && (n < limit && n < i && n < k ==> a[i - n - 1] != b[k - n - 1])
  }

  /** There is only one such length. */
  lemma SuffixUnique(a: seq<byte>, i: nat, b: seq<byte>, k: nat, limit: nat, n: nat)
    requires limit <= i && limit <= k && IsCommonSuffix(a, i, b, k, limit, n)
    ensures forall n' :: IsCommonSuffix(a, i, b, k, limit, n') <==> n' == n
  {}

  /** LZ4HC_NbCommonBytes32: the number of equal trailing bytes of two different words. */
  function NbCommonTrailing(x: seq<byte>, y: seq<byte>): (n: nat)
    requires |x| == |y| && x != y
    ensures n < |x| && x[|x| - 1 - n] != y[|y| - 1 - n] && x[|x| - n..] == y[|y| - n..]
  {
    var l := |x| - 1;
    if x[l] != y[l] then 0 else
      assert x == x[..l] + [x[l]] && y == y[..l] + [y[l]];
      1 + NbCommonTrailing(x[..l], y[..l])
  }

  lemma WordBefore(a: seq<byte>, i: nat, b: seq<byte>, k: nat, n: nat, w: nat, m: nat)
    requires SameBefore(a, i, b, k, n) && m <= w && n + w <= i && n + w <= k
    requires a[i - n - w..i - n][w - m..] == b[k - n - w..k - n][w - m..]
    ensures SameBefore(a, i, b, k, n + m)
  {
    var x, y := a[i - n - w..i - n], b[k - n - w..k - n];
    forall j | i - n - m <= j < i ensures a[j] == b[j - i + k] {
      if j < i - n {
        var t := j - (i - n - m);
        assert x[w - m..][t] == a[j] && y[w - m..][t] == b[j - i + k];
      }
    }
  }

  lemma FourBefore(a: seq<byte>, i: nat, b: seq<byte>, k: nat, n: nat)
    requires SameBefore(a, i, b, k, n) && n + 4 <= i && n + 4 <= k && a[i - n - 4..i - n] == b[k - n - 4..k - n]
    ensures SameBefore(a, i, b, k, n + 4)
  {
    WordBefore(a, i, b, k, n, 4, 4);
  }

  lemma OneBefore(a: seq<byte>, i: nat, b: seq<byte>, k: nat, n: nat)
    requires SameBefore(a, i, b, k, n) && n < i && n < k && a[i - n - 1] == b[k - n - 1]
    ensures SameBefore(a, i, b, k, n + 1)
  {}

  /** The first word that differs, backwards, ends the common suffix. */
  lemma StopsBefore(a: seq<byte>, i: nat, b: seq<byte>, k: nat, limit: nat, n: nat)
    requires i <= |a| && k <= |b| && n + 4 <= limit <= i && limit <= k
    requires SameBefore(a, i, b, k, n) && a[i - n - 4..i - n] != b[k - n - 4..k - n]
    ensures IsCommonSuffix(a, i, b, k, limit, n + NbCommonTrailing(a[i - n - 4..i - n], b[k - n - 4..k - n]))
  {
    hide SameBefore, NbCommonTrailing;
    var x, y := a[i - n - 4..i - n], b[k - n - 4..k - n];
    var m := NbCommonTrailing(x, y);
    WordBefore(a, i, b, k, n, 4, m);
    assert x[3 - m] == a[i - n - m - 1] && y[3 - m] == b[k - n - m - 1];
  }

  lemma EndsBefore(a: seq<byte>, i: nat, b: seq<byte>, k: nat, limit: nat, n: nat)
    requires SameBefore(a, i, b, k, n) && n <= limit <= i && limit <= k && (n == limit || a[i - n - 1] != b[k - n - 1])
    ensures IsCommonSuffix(a, i, b, k, limit, n)
  {}

  /** How far back the match may start. */
  function BackLimit(ip: nat, iMin: nat, at: nat, mMin: nat): nat
    requires iMin <= ip && mMin <= at
  {
    Min(ip - iMin, at - mMin)
  }

  /** LZ4HC_countBack: four bytes at a time; the source returns the count negated. */
  method CountBack(a: seq<byte>, ip: nat, b: seq<byte>, at: nat, iMin: nat, mMin: nat) returns (n: nat)
    requires iMin <= ip <= |a| && mMin <= at <= |b|
    ensures IsCommonSuffix(a, ip, b, at, BackLimit(ip, iMin, at, mMin), n)
    ensures forall n' :: IsCommonSuffix(a, ip, b, at, BackLimit(ip, iMin, at, mMin), n') ==> n' == n
  {
    hide SameBefore, NbCommonTrailing, IsCommonSuffix;
    var limit := BackLimit(ip, iMin, at, mMin);
    n := 0;
    NoneBefore(a, ip, b, at);
    while limit - n > 3
      invariant n <= limit && SameBefore(a, ip, b, at, n)
    {
      var x, y := a[ip - n - 4..ip - n], b[at - n - 4..at - n];
      if x != y {
        StopsBefore(a, ip, b, at, limit, n);
        n := n + NbCommonTrailing(x, y);
        SuffixUnique(a, ip, b, at, limit, n);
        return;
      }
      FourBefore(a, ip, b, at, n);
      n := n + 4;
    }
    while n < limit && a[ip - n - 1] == b[at - n - 1]
      invariant n <= limit && SameBefore(a, ip, b, at, n)
    {
      OneBefore(a, ip, b, at, n);
      n := n + 1;
    }
    EndsBefore(a, ip, b, at, limit, n);
    SuffixUnique(a, ip, b, at, limit, n);
  }

  lemma NoneBefore(a: seq<byte>, i: nat, b: seq<byte>, k: nat)
    requires i <= |a| && k <= |b|
    ensures SameBefore(a, i, b, k, 0)
  {}
}
