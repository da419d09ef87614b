/**
 The match finder of the high-compression encoder: hash heads, chains of deltas, and a
 shortcut through runs of one byte. Hash and search depth are arbitrary.
 */
module HcMatchFinder {
  import opened Bytes
  import opened BlockEncoding
  import opened MatchLength

  const CHAIN_SIZE := 65536

  /** The live window: an external dictionary of `dl` bytes, then the prefix. Position p has index low + p. */
  datatype Window = Window(data: seq<byte>, low: nat, dl: nat)
  {
    ghost predicate Valid() {
      KB64 <= low && dl <= |data| && low + |data| < 0x1_0000_0000
    }

    /** dictLimit: the index at which the prefix starts. */
    function PrefixIdx(): nat {
      low + dl
    }
  }

  /** What a search returns: `back` is how far the match starts before the searched position. */
  datatype Match = Match(off: nat, len: nat, back: nat)

  /** A match as a stretch of the data. */
  datatype Span = Span(start: nat, off: nat, len: nat)

  /** A true match, between both limits, that covers position `ip` and the three bytes after it. */
  ghost predicate Found(w: Window, ip: nat, iLow: nat, iHigh: nat, m: Match) {
    && m.back <= ip - iLow && ip - m.back + m.len <= iHigh && ip + MINMATCH <= ip - m.back + m.len
    && m.off <= DISTANCE_MAX && IsMatch(w.data, ip - m.back, m.off, m.len)
  }

  /** A match with position `m`, which reaches back within the segment of `m` only. */
  ghost predicate Takes(w: Window, ip: nat, iLow: nat, iHigh: nat, m: nat, len: nat, back: nat) {
    && m < ip && back <= m - (if m < w.dl then 0 else w.dl) && (m < w.dl ==> m + MINMATCH <= w.dl)
    && Found(w, ip, iLow, iHigh, Match(ip - m, len, back))
  }

  /** No match with position `m` is longer. */
  ghost predicate Exhausted(w: Window, ip: nat, iLow: nat, iHigh: nat, m: nat, longest: nat) {
    forall len: nat, back: nat :: Takes(w, ip, iLow, iHigh, m, len, back) ==> len <= longest
  }

  // --- Runs of a pattern ---

  /** `n` bytes from `ip` on repeat the 4-byte pattern. */
  ghost predicate Repeating(d: seq<byte>, ip: nat, n: nat, pattern: seq<byte>) {
    |pattern| == 4 && ip + n <= |d| && forall j :: ip <= j < ip + n ==> d[j] == pattern[(j - ip) % 4]
  }

  /** LZ4HC_countPattern: eight bytes at a time, then one by one. */
  method CountPattern(d: seq<byte>, ip0: nat, end: nat, pattern: seq<byte>) returns (n: nat)
    requires ip0 <= end <= |d| && |pattern| == 4
    ensures ip0 + n <= end && Repeating(d, ip0, n, pattern)
    ensures ip0 + n < end ==> d[ip0 + n] != pattern[n % 4]
  {
    hide Repeating;
    var p := pattern + pattern;
    n := 0;
    NoneRepeating(d, ip0, pattern);
    while ip0 + n + 8 <= end
      invariant ip0 + n <= end && n % 8 == 0 && Repeating(d, ip0, n, pattern)
    {
      var x := d[ip0 + n..ip0 + n + 8];
      if x != p {
        WordRepeats(d, ip0, n, NbCommonBytes(x, p), pattern);
        n := n + NbCommonBytes(x, p);
        return;
      }
      WordRepeats(d, ip0, n, 8, pattern);
      n := n + 8;
    }
    while ip0 + n < end && d[ip0 + n] == pattern[n % 4]
      invariant ip0 + n <= end && Repeating(d, ip0, n, pattern)
    {
      ByteRepeats(d, ip0, n, pattern);
      n := n + 1;
    }
  }

  lemma NoneRepeating(d: seq<byte>, ip: nat, pattern: seq<byte>)
    requires ip <= |d| && |pattern| == 4
    ensures Repeating(d, ip, 0, pattern)
  {}

  lemma ByteRepeats(d: seq<byte>, ip: nat, n: nat, pattern: seq<byte>)
    requires Repeating(d, ip, n, pattern) && ip + n < |d| && d[ip + n] == pattern[n % 4]
    ensures Repeating(d, ip, n + 1, pattern)
  {}

  lemma WordRepeats(d: seq<byte>, ip: nat, n: nat, m: nat, pattern: seq<byte>)
    requires Repeating(d, ip, n, pattern) && n % 8 == 0 && m <= 8 && ip + n + 8 <= |d|
    requires d[ip + n..ip + n + 8][..m] == (pattern + pattern)[..m]
    ensures Repeating(d, ip, n + m, pattern)
    ensures m < 8 ==> (pattern + pattern)[m] == pattern[(n + m) % 4]
  {
    var x, p := d[ip + n..ip + n + 8], pattern + pattern;
    forall j | ip <= j < ip + n + m ensures d[j] == pattern[(j - ip) % 4] {
      if j >= ip + n {
        var t := j - ip - n;
        assert x[..m][t] == d[j] && p[..m][t] == p[t];
        InPattern(n, t, pattern);
      }
    }
    if m < 8 {
      InPattern(n, m, pattern);
    }
  }

  lemma InPattern(n: nat, t: nat, pattern: seq<byte>)
    requires n % 8 == 0 && t < 8 && |pattern| == 4
    ensures (pattern + pattern)[t] == pattern[(n + t) % 4]
  {
    var q := n / 8;
    assert n + t == 4 * (2 * q) + t;
    SameResidue(2 * q, t);
  }

  lemma SameResidue(q: nat, t: nat)
    ensures (4 * q + t) % 4 == t % 4
  {}

  /** `n` bytes up to `ip` repeat the pattern, which ends there. */
  ghost predicate RepeatingBack(d: seq<byte>, ip: nat, n: nat, pattern: seq<byte>) {
    |pattern| == 4 && n <= ip <= |d| && forall j :: ip - n <= j < ip ==> d[j] == pattern[(j - ip) % 4]
  }

  /** LZ4HC_reverseCountPattern. */
  method ReverseCountPattern(d: seq<byte>, ip0: nat, low: nat, pattern: seq<byte>) returns (n: nat)
    requires low <= ip0 <= |d| && |pattern| == 4
    ensures low + n <= ip0 && RepeatingBack(d, ip0, n, pattern)
    ensures low + n < ip0 ==> d[ip0 - n - 1] != pattern[(-(n as int) - 1) % 4]
  {
    hide RepeatingBack;
    n := 0;
    NoneRepeatingBack(d, ip0, pattern);
    while ip0 - n >= low + 4 && d[ip0 - n - 4..ip0 - n] == pattern
      invariant low + n <= ip0 && n % 4 == 0 && RepeatingBack(d, ip0, n, pattern)
    {
      WordRepeatsBack(d, ip0, n, pattern);
      n := n + 4;
    }
    var k := 3;
    ghost var m := n;
    while ip0 - n > low && d[ip0 - n - 1] == pattern[k]
      invariant 0 <= k <= 3 && n == m + 3 - k && m % 4 == 0 && low + n <= ip0 && RepeatingBack(d, ip0, n, pattern)
      invariant !(ip0 - m >= low + 4 && d[ip0 - m - 4..ip0 - m] == pattern)
      decreases k
    {
      if k == 0 {
        WholeWord(d, ip0, m, pattern);
        assert false;
      }
      ByteRepeatsBack(d, ip0, m, k, pattern);
      n, k := n + 1, k - 1;
    }
    Residue(m, k);
  }

  lemma Residue(m: nat, k: nat)
    requires m % 4 == 0 && k <= 3
    ensures (-(m as int) - 4 + k) % 4 == k
  {}

  lemma NoneRepeatingBack(d: seq<byte>, ip: nat, pattern: seq<byte>)
    requires ip <= |d| && |pattern| == 4
    ensures RepeatingBack(d, ip, 0, pattern)
  {}

  lemma ByteRepeatsBack(d: seq<byte>, ip: nat, m: nat, k: nat, pattern: seq<byte>)
    requires k <= 3 && RepeatingBack(d, ip, m + 3 - k, pattern) && m % 4 == 0
    requires m + 4 - k <= ip && d[ip - (m + 4 - k)] == pattern[k]
    ensures RepeatingBack(d, ip, m + 4 - k, pattern)
  {
    var z := -(m as int);
    assert (z - 4 + k) % 4 == k;
  }

  lemma WordRepeatsBack(d: seq<byte>, ip: nat, n: nat, pattern: seq<byte>)
    requires RepeatingBack(d, ip, n, pattern) && n % 4 == 0 && n + 4 <= ip && d[ip - n - 4..ip - n] == pattern
    ensures RepeatingBack(d, ip, n + 4, pattern)
  {
    var x := d[ip - n - 4..ip - n];
    forall j | ip - n - 4 <= j < ip ensures d[j] == pattern[(j - ip) % 4] {
      if j < ip - n {
        assert x[j - (ip - n - 4)] == d[j];
      }
    }
  }

  lemma WholeWord(d: seq<byte>, ip: nat, m: nat, pattern: seq<byte>)
    requires RepeatingBack(d, ip, m + 3, pattern) && m % 4 == 0 && m + 4 <= ip && d[ip - m - 4] == pattern[0]
    ensures d[ip - m - 4..ip - m] == pattern
  {
    var z := -(m as int);
    assert d[ip - m - 3] == pattern[(z - 3) % 4] && d[ip - m - 2] == pattern[(z - 2) % 4];
    assert d[ip - m - 1] == pattern[(z - 1) % 4];
  }

  /** LZ4HC_rotatePattern: the pattern rotated by whole bytes. */
  function RotatePattern(rotate: int, pattern: seq<byte>): (r: seq<byte>)
    requires |pattern| == 4
    ensures |r| == 4
  {
    var k := rotate % 4;
    pattern[4 - k..] + pattern[..4 - k]
  }

  /** All bytes of [from, to) are `c`. */
  ghost predicate AllSame(d: seq<byte>, from: int, to: int, c: byte) {
    0 <= from <= to <= |d| && forall j :: from <= j < to ==> d[j] == c
  }

  ghost predicate Uniform(pattern: seq<byte>, c: byte) {
    |pattern| == 4 && forall j :: 0 <= j < 4 ==> pattern[j] == c
  }

  lemma RunForward(d: seq<byte>, ip: nat, n: nat, pattern: seq<byte>, c: byte)
    requires Repeating(d, ip, n, pattern) && Uniform(pattern, c)
    ensures AllSame(d, ip, ip + n, c)
  {}

  lemma RunBack(d: seq<byte>, ip: nat, n: nat, pattern: seq<byte>, c: byte)
    requires RepeatingBack(d, ip, n, pattern) && Uniform(pattern, c)
    ensures AllSame(d, ip - n, ip, c)
  {}

  /** The run of one byte around a candidate, across the end of the dictionary if need be. */
  method Segment(w: Window, mc: nat, iHigh: nat, lowest: nat, pattern: seq<byte>, ghost c: byte)
    returns (back: nat, forward: nat)
    requires w.Valid() && Uniform(pattern, c) && lowest <= mc && iHigh <= |w.data|
    requires if mc < w.dl then mc + 4 <= w.dl <= iHigh else mc + 4 <= iHigh
    requires w.data[mc..mc + 4] == pattern
    ensures lowest + back <= mc && forward >= 4 && AllSame(w.data, mc - back, mc + forward, c)
  {
    hide Repeating, RepeatingBack;
    var d, extDict := w.data, mc < w.dl;
    var iLimit := if extDict then w.dl else iHigh;
    forward := CountPattern(d, mc + 4, iLimit, pattern);
    RunForward(d, mc + 4, forward, pattern, c);
    forward := forward + 4;
    assert AllSame(d, mc, mc + forward, c) by { FourSame(d, mc, pattern, c); }
    if extDict && mc + forward == iLimit {
      var rotated := RotatePattern(forward, pattern);
      var more := CountPattern(d, w.dl, iHigh, rotated);
      RunForward(d, w.dl, more, rotated, c);
      forward := forward + more;
    }
    back := ReverseCountPattern(d, mc, if extDict then 0 else w.dl, pattern);
    RunBack(d, mc, back, pattern, c);
    if !extDict && mc - back == w.dl && w.dl > 0 {
      var rotated := RotatePattern(-(back as int), pattern);
      var more := ReverseCountPattern(d, w.dl, 0, rotated);
      RunBack(d, w.dl, more, rotated, c);
      back := back + more;
    }
    back := mc - Max(mc - back, lowest);
  }

  lemma FourSame(d: seq<byte>, i: nat, pattern: seq<byte>, c: byte)
    requires Uniform(pattern, c) && i + 4 <= |d| && d[i..i + 4] == pattern
    ensures AllSame(d, i, i + 4, c)
  {
    forall j | i <= j < i + 4 ensures d[j] == c {
      assert d[i..i + 4][j - i] == pattern[j - i];
    }
  }

  /** Two runs of one byte match each other. */
  lemma RunsMatch(d: seq<byte>, ip: nat, m: nat, n: nat, c: byte)
    requires m < ip && AllSame(d, ip, ip + n, c) && AllSame(d, m, m + n, c)
    ensures IsMatch(d, ip, ip - m, n)
  {}

  // --- Candidates ---

  /** `n` bytes at `i` and at `k` agree. */
  ghost predicate Same(d: seq<byte>, i: nat, k: nat, n: nat) {
    i + n <= |d| && k + n <= |d| && d[i..i + n] == d[k..k + n]
  }

  /** A match found going both ways from `ip`. */
  lemma BothWays(d: seq<byte>, ip: nat, m: nat, back: nat, n: nat)
    requires m < ip && back <= m && SameBefore(d, ip, d, m, back) && Same(d, ip, m, n)
    ensures IsMatch(d, ip - back, ip - m, back + n)
  {
    assert d[ip - back..ip] == d[m - back..m];
    assert d[ip - back..ip + n] == d[ip - back..ip] + d[ip..ip + n];
    assert d[m - back..m + n] == d[m - back..m] + d[m..m + n];
  }

  /** Counting on from bytes that agree. */
  lemma CountedOn(d: seq<byte>, ip: nat, m: nat, len: nat, limit: nat)
    requires m < ip && Same(d, ip, m, len) && ip + len <= limit <= |d|
    ensures Same(d, ip, m, len + CommonPrefix(d, ip + len, d, m + len, limit))
  {
    hide CommonPrefix;
    var n := CommonPrefix(d, ip + len, d, m + len, limit);
    CommonPrefixEqual(d, ip + len, d, m + len, limit);
    InTwo(d, ip, len, n);
    InTwo(d, m, len, n);
  }

  lemma InTwo(d: seq<byte>, i: nat, len: nat, n: nat)
    requires i + len + n <= |d|
    ensures d[i..i + len + n] == d[i..i + len] + d[i + len..i + len + n]
  {}

  lemma FourAgree(d: seq<byte>, ip: nat, m: nat)
    requires m < ip && ip + 4 <= |d| && d[m..m + 4] == d[ip..ip + 4]
    ensures Same(d, ip, m, 4)
  {}

  /** A candidate in the prefix: two bytes at the end of the best match so far are compared first. */
  method TryPrefix(w: Window, ip: nat, iLow: nat, iHigh: nat, m: nat, longest: nat) returns (len: nat, back: nat)
    requires w.Valid() && w.dl <= m < ip && w.dl <= iLow <= ip && ip + MINMATCH <= iHigh < |w.data|
    requires ip - iLow < longest && iLow + longest < |w.data| && ip - m <= DISTANCE_MAX
    ensures len == 0 || (len >= MINMATCH && Found(w, ip, iLow, iHigh, Match(ip - m, len, back)))
    ensures Exhausted(w, ip, iLow, iHigh, m, Max(longest, len))
  {
    hide Found, Exhausted;
    Reaching(w, ip, iLow, iHigh, m, longest);
    len, back := 0, 0;
    var d, lookBack := w.data, ip - iLow;
    if d[iLow + longest - 1..iLow + longest + 1] == d[m - lookBack + longest - 1..m - lookBack + longest + 1] {
      if d[m..m + 4] == d[ip..ip + 4] {
        FourAgree(d, ip, m);
        len, back := Extend(w, ip, iLow, iHigh, m, w.dl, iHigh);
        StillExhausted(w, ip, iLow, iHigh, m, len, Max(longest, len));
      }
    }
  }

  /** A candidate in the dictionary: the match may run on into the prefix. */
  method TryExtDict(w: Window, ip: nat, iLow: nat, iHigh: nat, m: nat) returns (len: nat, back: nat)
    requires w.Valid() && m < w.dl <= iLow <= ip && ip + MINMATCH <= iHigh <= |w.data| && ip - m <= DISTANCE_MAX
    ensures len == 0 || (len >= MINMATCH && Found(w, ip, iLow, iHigh, Match(ip - m, len, back)))
    ensures Exhausted(w, ip, iLow, iHigh, m, len)
  {
    hide Found, Exhausted;
    Agreeing(w, ip, iLow, iHigh, m);
    len, back := 0, 0;
    var d := w.data;
    if m + 4 <= w.dl && d[m..m + 4] == d[ip..ip + 4] {
      FourAgree(d, ip, m);
      len, back := Extend(w, ip, iLow, iHigh, m, 0, Min(ip + (w.dl - m), iHigh));
    }
  }

  /** Counts forward up to `vLimit`, and on from the start of the prefix when that was the end of the dictionary. */
  method CountForward(w: Window, ip: nat, iHigh: nat, m: nat, vLimit: nat) returns (len: nat)
    requires m < ip && ip + MINMATCH <= vLimit <= iHigh <= |w.data|
    requires Same(w.data, ip, m, 4) && (vLimit < iHigh ==> m < w.dl && vLimit == ip + (w.dl - m))
    ensures len >= MINMATCH && ip + len <= iHigh && Same(w.data, ip, m, len)
    ensures len == MINMATCH + CommonPrefix(w.data, ip + MINMATCH, w.data, m + MINMATCH, iHigh)
  {
    hide CommonPrefix, Same;
    var d := w.data;
    CountInTwo(d, ip + MINMATCH, m + MINMATCH, vLimit, iHigh);
    len := Count(d, ip + MINMATCH, d, m + MINMATCH, vLimit);
    CountedOn(d, ip, m, 4, vLimit);
    len := MINMATCH + len;
    if ip + len == vLimit && vLimit < iHigh {
      var more := Count(d, ip + len, d, w.dl, iHigh);
      CountedOn(d, ip, m, len, iHigh);
      len := len + more;
    }
  }

  /** Counts both ways, backward as far as both sides allow. */
  method Extend(w: Window, ip: nat, iLow: nat, iHigh: nat, m: nat, mMin: nat, vLimit: nat) returns (len: nat, back: nat)
    requires mMin <= m < ip && iLow <= ip && ip + MINMATCH <= vLimit <= iHigh <= |w.data| && ip - m <= DISTANCE_MAX
    requires Same(w.data, ip, m, 4) && (vLimit < iHigh ==> m < w.dl && vLimit == ip + (w.dl - m))
    requires mMin == if m < w.dl then 0 else w.dl
    ensures len >= MINMATCH && Found(w, ip, iLow, iHigh, Match(ip - m, len, back))
    ensures Exhausted(w, ip, iLow, iHigh, m, len)
  {
    hide IsMatch, SameBefore, Same, Exhausted, CommonPrefix;
    var n := CountForward(w, ip, iHigh, m, vLimit);
    back := 0;
    if ip > iLow {
      back := CountBack(w.data, ip, w.data, m, iLow, mMin);
    } else {
      NoneBefore(w.data, ip, w.data, m);
    }
    BothWays(w.data, ip, m, back, n);
    len := back + n;
    LongestBothWays(w, ip, iLow, iHigh, m, mMin, back);
  }

  /** The bytes a match agrees on, one by one. */
  lemma InMatch(w: Window, ip: nat, iLow: nat, iHigh: nat, m: nat, len: nat, back: nat, j: int)
    requires iLow <= ip && iHigh <= |w.data| && Takes(w, ip, iLow, iHigh, m, len, back)
    requires ip - back <= j < ip - back + len
    ensures 0 <= j < |w.data| && 0 <= j - (ip - m) && w.data[j] == w.data[j - (ip - m)]
  {
    var p, offset := ip - back, ip - m;
    assert w.data[p..p + len][j - p] == w.data[p - offset..p - offset + len][j - p];
  }

  /** How far a match can reach. */
  lemma MatchReach(w: Window, ip: nat, iLow: nat, iHigh: nat, m: nat, len: nat, back: nat)
    requires Takes(w, ip, iLow, iHigh, m, len, back)
    ensures m < ip && back <= m - (if m < w.dl then 0 else w.dl) && (m < w.dl ==> m + MINMATCH <= w.dl)
    ensures back <= ip - iLow && ip - back + len <= iHigh && back + MINMATCH <= len
  {}

  /** Counting both ways misses nothing. */
  lemma LongestBothWays(w: Window, ip: nat, iLow: nat, iHigh: nat, m: nat, mMin: nat, back: nat)
    requires mMin <= m < ip && iLow <= ip && ip + MINMATCH <= iHigh <= |w.data|
    requires mMin == if m < w.dl then 0 else w.dl
    requires IsCommonSuffix(w.data, ip, w.data, m, BackLimit(ip, iLow, m, mMin), back)
    ensures Exhausted(w, ip, iLow, iHigh, m,
                      back + MINMATCH + CommonPrefix(w.data, ip + MINMATCH, w.data, m + MINMATCH, iHigh))
  {
    hide CommonPrefix, Takes, SameBefore;
    var n := CommonPrefix(w.data, ip + MINMATCH, w.data, m + MINMATCH, iHigh);
    forall len: nat, back': nat | Takes(w, ip, iLow, iHigh, m, len, back') ensures len <= back + MINMATCH + n {
      MatchReach(w, ip, iLow, iHigh, m, len, back');
      if back' > back {
        InMatch(w, ip, iLow, iHigh, m, len, back', ip - back - 1);
      }
      if len - back' > MINMATCH + n {
        InMatch(w, ip, iLow, iHigh, m, len, back', ip + MINMATCH + n);
      }
    }
  }

  /** The two bytes at `i` and at `k` agree. */
  ghost predicate TwoAgree(d: seq<byte>, i: nat, k: nat) {
    i + 2 <= |d| && k + 2 <= |d| && d[i..i + 2] == d[k..k + 2]
  }

  /** A longer match agrees at the end of the best one so far, and in its first four bytes. */
  lemma Reaching(w: Window, ip: nat, iLow: nat, iHigh: nat, m: nat, longest: nat)
    requires w.Valid() && w.dl <= m < ip && w.dl <= iLow <= ip && ip + MINMATCH <= iHigh < |w.data|
    requires ip - iLow < longest && iLow + longest < |w.data|
    ensures
      || (TwoAgree(w.data, iLow + longest - 1, m - (ip - iLow) + longest - 1)
          && w.data[m..m + 4] == w.data[ip..ip + 4])
      || Exhausted(w, ip, iLow, iHigh, m, longest)
  {
    hide Takes;
    if !Exhausted(w, ip, iLow, iHigh, m, longest) {
      var len: nat, back: nat :| Takes(w, ip, iLow, iHigh, m, len, back) && len > longest;
      MatchReach(w, ip, iLow, iHigh, m, len, back);
      FourInMatch(w, ip, iLow, iHigh, m, len, back);
      InMatch(w, ip, iLow, iHigh, m, len, back, iLow + longest - 1);
      InMatch(w, ip, iLow, iHigh, m, len, back, iLow + longest);
    }
  }

  lemma FourInMatch(w: Window, ip: nat, iLow: nat, iHigh: nat, m: nat, len: nat, back: nat)
    requires iLow <= ip && iHigh <= |w.data| && Takes(w, ip, iLow, iHigh, m, len, back)
    ensures m + 4 <= |w.data| && ip + 4 <= |w.data| && w.data[m..m + 4] == w.data[ip..ip + 4]
  {
    hide Takes;
    MatchReach(w, ip, iLow, iHigh, m, len, back);
    InMatch(w, ip, iLow, iHigh, m, len, back, ip);
    InMatch(w, ip, iLow, iHigh, m, len, back, ip + 1);
    InMatch(w, ip, iLow, iHigh, m, len, back, ip + 2);
    InMatch(w, ip, iLow, iHigh, m, len, back, ip + 3);
  }

  lemma StillExhausted(w: Window, ip: nat, iLow: nat, iHigh: nat, m: nat, longest: nat, longer: nat)
    requires Exhausted(w, ip, iLow, iHigh, m, longest) && longest <= longer
    ensures Exhausted(w, ip, iLow, iHigh, m, longer)
  {}

  lemma Agreeing(w: Window, ip: nat, iLow: nat, iHigh: nat, m: nat)
    requires m < w.dl <= iLow <= ip && ip + MINMATCH <= iHigh <= |w.data|
    ensures (m + 4 <= w.dl && w.data[m..m + 4] == w.data[ip..ip + 4]) || Exhausted(w, ip, iLow, iHigh, m, 0)
  {
    if !Exhausted(w, ip, iLow, iHigh, m, 0) {
      var len: nat, back: nat :| Takes(w, ip, iLow, iHigh, m, len, back) && len > 0;
      FourInMatch(w, ip, iLow, iHigh, m, len, back);
    }
  }

  datatype Repeat = Untested | NotRepeat | Confirmed

  /** The best match so far: the length asked for, or one that was found. */
  ghost predicate BestSoFar(w: Window, ip: nat, iLow: nat, iHigh: nat, minLen: nat, best: Match) {
    best.len >= minLen && (best.len == minLen || Found(w, ip, iLow, iHigh, best))
  }

  lemma NothingBetter(w: Window, ip: nat, iLow: nat, iHigh: nat, minLen: nat)
    ensures BestSoFar(w, ip, iLow, iHigh, minLen, Match(0, minLen, 0))
  {}

  /** What a search is asked for: `iLow` is how far back the match may start, `iHigh` where it must end. */
  ghost predicate Searchable(w: Window, ip: nat, iLow: nat, iHigh: nat, minLen: nat) {
    && w.Valid() && w.dl <= iLow <= ip && ip + MINMATCH <= iHigh < |w.data|
    && ip - iLow < minLen && iLow + minLen < |w.data|
  }

  lemma OtherPlace(i: int, j: int)
    requires i < j < i + CHAIN_SIZE
    ensures i % CHAIN_SIZE != j % CHAIN_SIZE
  {}

  /** Where a search stops: the window, or the largest offset, ends there. */
  function LowestIndex(w: Window, ip: nat): nat {
    if w.low + DISTANCE_MAX + 1 > w.low + ip then w.low else w.low + ip - DISTANCE_MAX
  }

  /** LZ4HC_protectDictEnd: four bytes can be read at this index. */
  predicate ProtectDictEnd(prefixIdx: nat, matchIndex: nat) {
    matchIndex >= prefixIdx || matchIndex + 4 <= prefixIdx
  }

  class Finder {
    const slots: nat
    const hash: seq<byte> -> nat
    const hashTable: array<int>
    const chainTable: array<int>
    var nextToUpdate: nat

    /** What the searches returned so far, in order. */
    ghost var returned: seq<Span>

    /** Every index in the tables lies before nextToUpdate. */
    ghost predicate Valid(w: Window)
      reads this, hashTable, chainTable
    {
      && hashTable.Length == slots && chainTable.Length == CHAIN_SIZE && hashTable != chainTable
      && (forall s :: hash(s) < slots)
      && w.PrefixIdx() <= nextToUpdate <= w.low + |w.data|
      && (forall h :: 0 <= h < slots ==> 0 <= hashTable[h] < nextToUpdate)
      && (forall i :: 0 <= i < CHAIN_SIZE ==> 0 <= chainTable[i] <= DISTANCE_MAX)
    }

    constructor (slots: nat, hash: seq<byte> -> nat, w: Window)
      requires (forall s :: hash(s) < slots) && w.Valid()
      ensures Valid(w) && nextToUpdate == w.PrefixIdx() && fresh(hashTable) && fresh(chainTable)
      ensures this.slots == slots && this.hash == hash
    {
      this.slots, this.hash := slots, hash;
      hashTable := new int[slots](_ => 0);
      chainTable := new int[CHAIN_SIZE](_ => 0);
      nextToUpdate := w.PrefixIdx();
      returned := [];
    }

    /** DELTANEXTU16. */
    function DeltaNext(index: nat): (d: int)
      reads chainTable
      requires chainTable.Length == CHAIN_SIZE
    {
      chainTable[index % CHAIN_SIZE]
    }

    /** The four bytes at an index of the window hash to slot h. */
    ghost predicate InSlot(w: Window, index: int, h: int) {
      w.low <= index && index - w.low + 4 <= |w.data| && hash(w.data[index - w.low..index - w.low + 4]) == h
    }

    /** The slot of an index of the window. */
    ghost function SlotOf(w: Window, index: int): nat
      requires w.low <= index && index - w.low + 4 <= |w.data|
    {
      hash(w.data[index - w.low..index - w.low + 4])
    }

    /** What slot h holds when the indices from `from` up to `end` have entered: the last of them that hashes to it,
        or what it held before. */
    ghost function Head(w: Window, from: int, end: int, h: int, before: int): int
      decreases end - from
    {
      if end <= from then before else if InSlot(w, end - 1, h) then end - 1 else Head(w, from, end - 1, h, before)
    }

    /** Whatever else hashes to the slot is earlier. */
    lemma {:induction false} HeadIsLatest(w: Window, from: int, end: int, h: int, before: int)
      ensures Head(w, from, end, h, before) == before
           || (from <= Head(w, from, end, h, before) < end && InSlot(w, Head(w, from, end, h, before), h))
      ensures forall i :: from <= i < end && InSlot(w, i, h) ==> i <= Head(w, from, end, h, before)
      decreases end - from
    {
      if from < end && !InSlot(w, end - 1, h) {
        HeadIsLatest(w, from, end - 1, h, before);
      }
    }

    /** The chain entry of an index: the distance to what its slot held before, as far as 16 bits go. */
    ghost function Delta(w: Window, from: int, index: int, heads: seq<int>): int
      requires w.low <= index && index - w.low + 4 <= |w.data| && SlotOf(w, index) < |heads|
    {
      var h := SlotOf(w, index);
      Min(index - Head(w, from, index, h, heads[h]), DISTANCE_MAX)
    }

    /** The chain of the last 65536 indices before `end`: new entries from `from` on, and what was there before. */
    ghost predicate Chained(w: Window, from: int, end: int, heads: seq<int>, before: seq<int>, now: seq<int>)
      requires forall s :: hash(s) < slots
    {
      && |before| == |now| == CHAIN_SIZE && |heads| == slots && w.low <= from && end - w.low + 3 <= |w.data|
      && (forall i :: from <= i < end && end - i <= CHAIN_SIZE ==> now[i % CHAIN_SIZE] == Delta(w, from, i, heads))
      && (forall i :: end - CHAIN_SIZE <= i < from ==> now[i % CHAIN_SIZE] == before[i % CHAIN_SIZE])
    }

    /** LZ4HC_Insert: all positions before `ip` enter the tables. */
    method Insert(w: Window, ip: nat)
      requires w.Valid() && Valid(w) && nextToUpdate <= w.low + ip && ip + 3 <= |w.data|
      modifies `nextToUpdate, hashTable, chainTable
      ensures Valid(w) && nextToUpdate == w.low + ip
      ensures forall h :: 0 <= h < slots ==>
        hashTable[h] == Head(w, old(nextToUpdate), nextToUpdate, h, old(hashTable[h]))
      ensures Chained(w, old(nextToUpdate), nextToUpdate, old(hashTable[..]), old(chainTable[..]), chainTable[..])
    {
      hide Chained;
      var target := w.low + ip;
      var idx := nextToUpdate;
      ghost var heads, before := hashTable[..], chainTable[..];
      NothingChained(w, idx, heads, before);
      while idx < target
        invariant nextToUpdate == old(nextToUpdate) <= idx <= target && hashTable.Length == slots
        invariant chainTable.Length == CHAIN_SIZE
        invariant forall h :: 0 <= h < slots ==> 0 <= hashTable[h] < Max(idx, nextToUpdate)
        invariant forall i :: 0 <= i < CHAIN_SIZE ==> 0 <= chainTable[i] <= DISTANCE_MAX
        invariant forall h :: 0 <= h < slots ==> hashTable[h] == Head(w, nextToUpdate, idx, h, heads[h])
        invariant Chained(w, nextToUpdate, idx, heads, before, chainTable[..])
      {
        var p := idx - w.low;
        var h := hash(w.data[p..p + 4]);
        var delta := idx - hashTable[h];
        if delta > DISTANCE_MAX {
          delta := DISTANCE_MAX;
        }
        OneChained(w, nextToUpdate, idx, heads, before, chainTable[..]);
        chainTable[idx % CHAIN_SIZE] := delta;
        hashTable[h] := idx;
        idx := idx + 1;
      }
      nextToUpdate := target;
    }

    lemma NothingChained(w: Window, at: int, heads: seq<int>, now: seq<int>)
      requires (forall s :: hash(s) < slots) && |now| == CHAIN_SIZE && |heads| == slots
      requires w.low <= at && at - w.low + 3 <= |w.data|
      ensures Chained(w, at, at, heads, now, now)
    {}

    lemma OneChained(w: Window, from: int, idx: int, heads: seq<int>, before: seq<int>, now: seq<int>)
      requires (forall s :: hash(s) < slots) && Chained(w, from, idx, heads, before, now)
      requires from <= idx && idx - w.low + 4 <= |w.data|
      ensures Chained(w, from, idx + 1, heads, before, now[idx % CHAIN_SIZE := Delta(w, from, idx, heads)])
    {
      hide Delta;
      forall i | idx + 1 - CHAIN_SIZE <= i < idx ensures i % CHAIN_SIZE != idx % CHAIN_SIZE {
        OtherPlace(i, idx);
      }
    }

    /** One candidate, in prefix or dictionary: its length, 0 if it is no match, and the better of the two. */
    method TryCandidate(w: Window, ip: nat, iLow: nat, iHigh: nat, minLen: nat, matchIndex: nat, favorDecSpeed: bool,
                        best: Match)
      returns (len: nat, best': Match)
      requires Searchable(w, ip, iLow, iHigh, minLen) && BestSoFar(w, ip, iLow, iHigh, minLen, best)
      requires w.low <= matchIndex < w.low + ip && w.low + ip - matchIndex <= DISTANCE_MAX
      ensures BestSoFar(w, ip, iLow, iHigh, minLen, best') && best.len <= best'.len
      ensures !favorDecSpeed ==> Exhausted(w, ip, iLow, iHigh, matchIndex - w.low, best'.len)
    {
      hide IsMatch, Exhausted;
      len, best' := 0, best;
      var m, back := matchIndex - w.low, 0;
      if favorDecSpeed && ip - m < 8 {
      } else if matchIndex >= w.PrefixIdx() {
        len, back := TryPrefix(w, ip, iLow, iHigh, m, best.len);
      } else {
        len, back := TryExtDict(w, ip, iLow, iHigh, m);
      }
      if len > best.len {
        best' := Match(ip - m, len, back);
      }
      if !favorDecSpeed && len <= best'.len && Exhausted(w, ip, iLow, iHigh, m, len) {
        StillExhausted(w, ip, iLow, iHigh, m, len, best'.len);
      }
    }

    /** chainSwap: the position inside the match from which the chain goes back furthest. */
    method BetterChain(matchIndex: nat, longest: nat, chainPos: nat) returns (distance: int, pos': nat)
      requires chainTable.Length == CHAIN_SIZE && forall i :: 0 <= i < CHAIN_SIZE ==> 0 <= chainTable[i] <= DISTANCE_MAX
      ensures 1 <= distance <= DISTANCE_MAX
    {
      distance, pos' := 1, chainPos;
      var step, accel, pos := 1, 16, 0;
      var end := longest - MINMATCH + 1;
      while pos < end
        invariant 1 <= distance <= DISTANCE_MAX && accel >= 16 && pos >= 0
        decreases end - pos
      {
        var candidate := DeltaNext(matchIndex + pos);
        step := accel / 16;
        accel := accel + 1;
        if candidate > distance {
          distance, pos', accel := candidate, pos, 16;
        }
        pos := pos + step;
      }
    }

    /** A run of one byte: goes to the place in the run that fits best; without lookback the match
        is claimed without comparing bytes. */
    method FollowRun(w: Window, ip: nat, iLow: nat, iHigh: nat, minLen: nat, candidate: nat, lowest: nat,
                     pattern: seq<byte>,
                     srcLen: nat, best: Match, ghost c: byte)
      returns (matchIndex: nat, best': Match, stop: bool)
      requires Searchable(w, ip, iLow, iHigh, minLen) && BestSoFar(w, ip, iLow, iHigh, minLen, best)
      requires w.low <= lowest <= candidate && candidate + 1 < w.low + ip && w.low + ip - lowest <= DISTANCE_MAX
      requires ProtectDictEnd(w.PrefixIdx(), candidate) && w.data[candidate - w.low..candidate - w.low + 4] == pattern
      requires Uniform(pattern, c) && AllSame(w.data, ip, ip + srcLen, c) && MINMATCH <= srcLen <= iHigh - ip
      requires chainTable.Length == CHAIN_SIZE && forall i :: 0 <= i < CHAIN_SIZE ==> 0 <= chainTable[i] <= DISTANCE_MAX
      ensures BestSoFar(w, ip, iLow, iHigh, minLen, best') && matchIndex < w.low + ip && best.len <= best'.len
    {
      hide IsMatch, AllSame;
      best', stop := best, false;
      var ipIndex := w.low + ip;
      var back, forward := Segment(w, candidate - w.low, iHigh, lowest - w.low, pattern, c);
      var segment := back + forward;
      if segment >= srcLen && forward <= srcLen {
        var index := candidate + forward - srcLen;
        matchIndex := if ProtectDictEnd(w.PrefixIdx(), index) then index else w.PrefixIdx();
        return;
      }
      var index := candidate - back;
      if !ProtectDictEnd(w.PrefixIdx(), index) {
        matchIndex := w.PrefixIdx();
        return;
      }
      matchIndex := index;
      if ip == iLow {
        var maxML := Min(segment, srcLen);
        if best.len < maxML {
          if ipIndex - matchIndex > DISTANCE_MAX {
            stop := true;
            return;
          }
          ClaimedRun(w, ip, matchIndex - w.low, maxML, segment, srcLen, c);
          best' := Match(ipIndex - matchIndex, maxML, 0);
        }
        var dist := DeltaNext(matchIndex);
        if dist > matchIndex {
          stop := true;
          return;
        }
        matchIndex := matchIndex - dist;
      }
    }

    /** The index a search along the chain from `head` has reached after `k` links. */
    ghost function Visited(lowest: nat, head: int, k: nat): int
      requires chainTable.Length == CHAIN_SIZE
      reads chainTable
    {
      if k == 0 then head
      else
        var index := Visited(lowest, head, k - 1);
        if index >= lowest then index - DeltaNext(index) else index
    }

    /** No match with any of the first `n` indices of the chain is longer. */
    ghost predicate ChainExhausted(w: Window, ip: nat, iLow: nat, iHigh: nat, lowest: nat, head: int, n: nat,
                                   longest: nat)
      requires chainTable.Length == CHAIN_SIZE && w.low <= lowest
      reads chainTable
    {
      forall k: nat :: k < n && Visited(lowest, head, k) >= lowest ==>
        Exhausted(w, ip, iLow, iHigh, Visited(lowest, head, k) - w.low, longest)
    }

    /** LZ4HC_InsertAndGetWiderMatch without an attached dictionary: any match it returns is a true one, and none
        at the head of the chain is longer, nor, without shortcuts, at any place it has attempts for. */
    method GetWiderMatch(w: Window, ip: nat, iLow: nat, iHigh: nat, minLen: nat, maxNbAttempts: nat,
                         patternAnalysis: bool, chainSwap: bool, favorDecSpeed: bool)
      returns (best: Match)
      requires Valid(w) && Searchable(w, ip, iLow, iHigh, minLen) && nextToUpdate <= w.low + ip
      modifies `nextToUpdate, `returned, hashTable, chainTable
      ensures Valid(w) && nextToUpdate == w.low + ip && BestSoFar(w, ip, iLow, iHigh, minLen, best)
      ensures forall h :: 0 <= h < slots ==>
        hashTable[h] == Head(w, old(nextToUpdate), nextToUpdate, h, old(hashTable[h]))
      ensures Chained(w, old(nextToUpdate), nextToUpdate, old(hashTable[..]), old(chainTable[..]), chainTable[..])
      ensures !favorDecSpeed ==>
        ChainExhausted(w, ip, iLow, iHigh, LowestIndex(w, ip), hashTable[SlotOf(w, w.low + ip)],
                       if patternAnalysis || chainSwap then Min(1, maxNbAttempts) else maxNbAttempts, best.len)
      ensures best.len > minLen ==> best.back <= ip
      ensures returned
        == old(returned) + if best.len > minLen then [Span(ip - best.back, best.off, best.len)] else []
    {
      hide Chained, BestSoFar, ChainExhausted, Head;
      Insert(w, ip);
      best := FollowChain(w, ip, iLow, iHigh, minLen, maxNbAttempts, patternAnalysis, chainSwap, favorDecSpeed);
      BetterStarts(w, ip, iLow, iHigh, minLen, best);
      if best.len > minLen {
        returned := returned + [Span(ip - best.back, best.off, best.len)];
      }
    }

    /** A run of one byte is under way: how long it is, from `ip` on. */
    ghost predicate Running(w: Window, ip: nat, iHigh: nat, pattern: seq<byte>, repeat: Repeat, srcLen: nat)
      requires |pattern| == 4
    {
      repeat == Confirmed ==>
        && Uniform(pattern, pattern[0]) && AllSame(w.data, ip, ip + srcLen, pattern[0])
        && MINMATCH <= srcLen <= iHigh - ip
    }

    /** The next index to look at: along the chain of `matchIndex`, or by one of the two shortcuts. */
    method NextCandidate(w: Window, ip: nat, iLow: nat, iHigh: nat, minLen: nat, matchIndex: nat, lowest: nat,
                         pattern: seq<byte>, patternAnalysis: bool, chainSwap: bool, len: nat, best: Match,
                         chainPos: nat, repeat: Repeat, srcLen: nat)
      returns (next: nat, best': Match, chainPos': nat, repeat': Repeat, srcLen': nat, stop: bool)
      requires Searchable(w, ip, iLow, iHigh, minLen) && BestSoFar(w, ip, iLow, iHigh, minLen, best)
      requires w.low <= lowest <= matchIndex < w.low + ip && w.low + ip - lowest <= DISTANCE_MAX
      requires pattern == w.data[ip..ip + 4] && Running(w, ip, iHigh, pattern, repeat, srcLen)
      requires chainTable.Length == CHAIN_SIZE && forall i :: 0 <= i < CHAIN_SIZE ==> 0 <= chainTable[i] <= DISTANCE_MAX
      ensures BestSoFar(w, ip, iLow, iHigh, minLen, best') && best.len <= best'.len && next < w.low + ip
      ensures Running(w, ip, iHigh, pattern, repeat', srcLen')
      ensures !chainSwap && !patternAnalysis ==>
        best' == best && !stop && next == matchIndex - DeltaNext(matchIndex + chainPos)
      ensures !chainSwap ==> chainPos' == chainPos
    {
      hide IsMatch, AllSame, Uniform, Found, BestSoFar;
      next, best', chainPos', repeat', srcLen', stop := matchIndex, best, chainPos, repeat, srcLen, false;
      if chainSwap && len == best.len && matchIndex + best.len <= w.low + ip {
        var distance;
        distance, chainPos' := BetterChain(matchIndex, best.len, chainPos);
        if distance > 1 {
          if distance > matchIndex {
            stop := true;
            return;
          }
          next := matchIndex - distance;
          return;
        }
      }
      if patternAnalysis && DeltaNext(matchIndex) == 1 && chainPos' == 0 {
        var candidate := matchIndex - 1;
        if repeat' == Untested {
          repeat', srcLen' := TestRepeat(w, ip, iHigh, pattern);
        }
        if repeat' == Confirmed && candidate >= lowest && ProtectDictEnd(w.PrefixIdx(), candidate)
          && w.data[candidate - w.low..candidate - w.low + 4] == pattern {
          next, best', stop := FollowRun(w, ip, iLow, iHigh, minLen, candidate, lowest, pattern, srcLen', best,
            pattern[0]);
          return;
        }
      }
      next := matchIndex - DeltaNext(matchIndex + chainPos');
    }

    /** Its search: from the head of the chain back, as long as candidates are in reach and attempts are left. */
    method FollowChain(w: Window, ip: nat, iLow: nat, iHigh: nat, minLen: nat, maxNbAttempts: nat,
                       patternAnalysis: bool, chainSwap: bool, favorDecSpeed: bool)
      returns (best: Match)
      requires Valid(w) && Searchable(w, ip, iLow, iHigh, minLen) && nextToUpdate == w.low + ip
      ensures BestSoFar(w, ip, iLow, iHigh, minLen, best)
      ensures !favorDecSpeed ==>
        ChainExhausted(w, ip, iLow, iHigh, LowestIndex(w, ip), hashTable[SlotOf(w, w.low + ip)],
                       if patternAnalysis || chainSwap then Min(1, maxNbAttempts) else maxNbAttempts, best.len)
    {
      hide IsMatch, AllSame, Uniform, Found, BestSoFar, ChainExhausted, Visited, Exhausted;
      var ipIndex := w.low + ip;
      var lowest := LowestIndex(w, ip);
      var pattern := w.data[ip..ip + 4];
      var matchIndex: nat := hashTable[hash(pattern)];
      ghost var head, k, shortcuts := matchIndex, 0, patternAnalysis || chainSwap;
      best := Match(0, minLen, 0);
      NothingBetter(w, ip, iLow, iHigh, minLen);
      NoneVisited(w, ip, iLow, iHigh, lowest, head, best.len);
      var attempts, chainPos, repeat, srcLen: nat := maxNbAttempts, 0, Untested, 0;
      while matchIndex >= lowest && attempts > 0
        invariant matchIndex < ipIndex && BestSoFar(w, ip, iLow, iHigh, minLen, best)
        invariant Running(w, ip, iHigh, pattern, repeat, srcLen)
        invariant k + attempts == maxNbAttempts && (!chainSwap ==> chainPos == 0)
        invariant !shortcuts || k == 0 ==> matchIndex == Visited(lowest, head, k)
        invariant !favorDecSpeed ==>
          ChainExhausted(w, ip, iLow, iHigh, lowest, head, if shortcuts then Min(1, k) else k, best.len)
        decreases attempts
      {
        attempts := attempts - 1;
        var len;
        ghost var was := best.len;
        len, best := TryCandidate(w, ip, iLow, iHigh, minLen, matchIndex, favorDecSpeed, best);
        if !shortcuts || k == 0 {
          OneVisited(w, ip, iLow, iHigh, lowest, head, k, was, best.len, favorDecSpeed);
        } else if !favorDecSpeed {
          StillVisited(w, ip, iLow, iHigh, lowest, head, 1, was, best.len);
        }
        k, was := k + 1, best.len;
        var stop;
        matchIndex, best, chainPos, repeat, srcLen, stop := NextCandidate(w, ip, iLow, iHigh, minLen, matchIndex,
          lowest, pattern, patternAnalysis, chainSwap, len, best, chainPos, repeat, srcLen);
        if shortcuts && !favorDecSpeed {
          StillVisited(w, ip, iLow, iHigh, lowest, head, 1, was, best.len);
        }
        if stop {
          break;
        }
      }
      if !favorDecSpeed && (!shortcuts || k == 0) && attempts > 0 {
        AllVisited(w, ip, iLow, iHigh, lowest, head, k, maxNbAttempts, best.len);
        FewerVisited(w, ip, iLow, iHigh, lowest, head, maxNbAttempts, 1, best.len);
      }
    }

    lemma NoneVisited(w: Window, ip: nat, iLow: nat, iHigh: nat, lowest: nat, head: int, longest: nat)
      requires chainTable.Length == CHAIN_SIZE && w.low <= lowest
      ensures ChainExhausted(w, ip, iLow, iHigh, lowest, head, 0, longest) && Visited(lowest, head, 0) == head
    {}

    lemma OneVisited(w: Window, ip: nat, iLow: nat, iHigh: nat, lowest: nat, head: int, n: nat, longest: nat,
                     longer: nat, skips: bool)
      requires chainTable.Length == CHAIN_SIZE && w.low <= lowest <= Visited(lowest, head, n) && longest <= longer
      requires !skips ==>
        && ChainExhausted(w, ip, iLow, iHigh, lowest, head, n, longest)
        && Exhausted(w, ip, iLow, iHigh, Visited(lowest, head, n) - w.low, longer)
      ensures var index := Visited(lowest, head, n); Visited(lowest, head, n + 1) == index - DeltaNext(index)
      ensures !skips ==> ChainExhausted(w, ip, iLow, iHigh, lowest, head, n + 1, longer)
    {
      hide Exhausted;
      if !skips {
        forall k: nat | k < n + 1 && Visited(lowest, head, k) >= lowest
          ensures Exhausted(w, ip, iLow, iHigh, Visited(lowest, head, k) - w.low, longer)
        {
          if k < n {
            StillExhausted(w, ip, iLow, iHigh, Visited(lowest, head, k) - w.low, longest, longer);
          }
        }
      }
    }

    lemma {:induction false} StaysBelow(lowest: nat, head: int, n: nat, k: nat)
      requires chainTable.Length == CHAIN_SIZE && Visited(lowest, head, n) < lowest && n <= k
      ensures Visited(lowest, head, k) < lowest
      decreases k
    {
      if n < k {
        StaysBelow(lowest, head, n, k - 1);
      }
    }

    lemma AllVisited(w: Window, ip: nat, iLow: nat, iHigh: nat, lowest: nat, head: int, n: nat, all: nat, longest: nat)
      requires chainTable.Length == CHAIN_SIZE && w.low <= lowest && Visited(lowest, head, n) < lowest && n <= all
      requires ChainExhausted(w, ip, iLow, iHigh, lowest, head, n, longest)
      ensures ChainExhausted(w, ip, iLow, iHigh, lowest, head, all, longest)
    {
      hide Exhausted;
      forall k: nat | n <= k < all ensures Visited(lowest, head, k) < lowest {
        StaysBelow(lowest, head, n, k);
      }
    }

    lemma FewerVisited(w: Window, ip: nat, iLow: nat, iHigh: nat, lowest: nat, head: int, n: nat, fewer: nat,
                       longest: nat)
      requires chainTable.Length == CHAIN_SIZE && w.low <= lowest && fewer <= n
      requires ChainExhausted(w, ip, iLow, iHigh, lowest, head, n, longest)
      ensures ChainExhausted(w, ip, iLow, iHigh, lowest, head, fewer, longest)
    {}

    lemma StillVisited(w: Window, ip: nat, iLow: nat, iHigh: nat, lowest: nat, head: int, n: nat, longest: nat,
                       longer: nat)
      requires chainTable.Length == CHAIN_SIZE && w.low <= lowest && longest <= longer
      requires ChainExhausted(w, ip, iLow, iHigh, lowest, head, n, longest)
      ensures ChainExhausted(w, ip, iLow, iHigh, lowest, head, n, longer)
    {}

    lemma BetterStarts(w: Window, ip: nat, iLow: nat, iHigh: nat, minLen: nat, best: Match)
      requires Searchable(w, ip, iLow, iHigh, minLen) && BestSoFar(w, ip, iLow, iHigh, minLen, best)
      ensures best.len > minLen ==> best.back <= ip
    {
      hide IsMatch;
    }
  }

  /** Whether the four bytes at `ip` are one byte repeated, and how far that goes. */
  method TestRepeat(w: Window, ip: nat, iHigh: nat, pattern: seq<byte>) returns (repeat: Repeat, srcLen: nat)
    requires ip + 4 <= iHigh <= |w.data| && pattern == w.data[ip..ip + 4]
    ensures repeat != Untested
    ensures repeat == Confirmed ==>
      Uniform(pattern, pattern[0]) && AllSame(w.data, ip, ip + srcLen, pattern[0]) && MINMATCH <= srcLen <= iHigh - ip
  {
    hide Repeating;
    if pattern[0] == pattern[2] && pattern[1] == pattern[3] && pattern[0] == pattern[3] {
      var n := CountPattern(w.data, ip + 4, iHigh, pattern);
      RunForward(w.data, ip + 4, n, pattern, pattern[0]);
      FourSame(w.data, ip, pattern, pattern[0]);
      return Confirmed, n + 4;
    }
    return NotRepeat, 0;
  }

  lemma ClaimedRun(w: Window, ip: nat, m: nat, n: nat, segment: nat, srcLen: nat, c: byte)
    requires m < ip && n <= segment && n <= srcLen
    requires AllSame(w.data, ip, ip + srcLen, c) && AllSame(w.data, m, m + segment, c)
    ensures IsMatch(w.data, ip, ip - m, n)
  {
    RunsMatch(w.data, ip, m, n, c);
  }
}
