/**
 * Wide-character paths as the filter driver handles them: NUL-terminated text inside
 * fixed buffers, ASCII folding, bounded normalization and the three-way comparison
 * that orders the blocklist.
 */
module Paths {

  const MAX_PATH := 520

  type WChar = c: int | 0 <= c < 0x1_0000

  const NUL: WChar := 0

  datatype Status = Success | Duplicate | NotFound | AllocFail | PathTooLong | NullArg

  /** Number of characters before the first NUL, or the whole buffer when it has none. */
  function TextLen(s: seq<WChar>): (n: nat)
    ensures n <= |s|
    ensures forall i :: 0 <= i < n ==> s[i] != NUL
    ensures n < |s| ==> s[n] == NUL
  {
    if s == [] || s[0] == NUL then 0 else 1 + TextLen(s[1..])
  }

  /** The C string a buffer holds; what follows the NUL is ignored. */
  function Text(s: seq<WChar>): seq<WChar> {
    s[..TextLen(s)]
  }

  /** A caller may pass a source buffer only if scanning it stays inside it. */
  predicate Readable(s: seq<WChar>) {
    TextLen(s) < |s| || MAX_PATH <= |s|
  }

  /** How many characters scanning a buffer reads: up to its first NUL, or as many as a path may have. */
  function Reads(s: seq<WChar>): nat {
    (if TextLen(s) < MAX_PATH - 1 then TextLen(s) else MAX_PATH - 1) + 1
  }

  /** Scanning stays in the buffer exactly when the buffer is readable. */
  lemma ReadableIff(s: seq<WChar>)
    ensures Readable(s) <==> Reads(s) <= |s|
  {
  }

  /** ASCII upper-casing, then '/' to '\'. */
  function Fold(c: WChar): WChar {
    var u: WChar := if 'a' as int <= c <= 'z' as int then c - 'a' as int + 'A' as int else c;
    if u == '/' as int then '\\' as int else u
  }

  /** The same character up to ASCII case and slash direction. */
  predicate SameChar(c: WChar, d: WChar) {
    || c == d
    || ('A' as int <= c <= 'Z' as int && d == c + 32)
    || ('A' as int <= d <= 'Z' as int && c == d + 32)
    || (c in {'/' as int, '\\' as int} && d in {'/' as int, '\\' as int})
  }

  predicate SameText(s: seq<WChar>, t: seq<WChar>) {
    |s| == |t| && forall i :: 0 <= i < |s| ==> SameChar(s[i], t[i])
  }

  lemma FoldIff(c: WChar, d: WChar)
    ensures Fold(c) == Fold(d) <==> SameChar(c, d)
  {
  }

  function Folded(s: seq<WChar>): (r: seq<WChar>)
    ensures |r| == |s|
  {
    seq(|s|, i requires 0 <= i < |s| => Fold(s[i]))
  }

  /** The key under which a caller's buffer is filed. */
  function Key(s: seq<WChar>): seq<WChar> {
    Folded(Text(s))
  }

  predicate InLimit(s: seq<WChar>) {
    TextLen(s) < MAX_PATH
  }

  /** The text of a buffer is fixed by any terminated prefix of it. */
  lemma {:induction false} TextIs(s: seq<WChar>, n: nat)
    requires n <= |s|
    requires forall i :: 0 <= i < n ==> s[i] != NUL
    requires n < |s| ==> s[n] == NUL
    ensures TextLen(s) == n && Text(s) == s[..n]
  {
    if n < TextLen(s) {
      assert n < |s|;
    }
  }

  /** Normalizing a second time, whatever the terminated buffer holds after its NUL, changes nothing. */
  lemma KeyIdempotent(s: seq<WChar>, tail: seq<WChar>)
    ensures Key(Key(s) + [NUL] + tail) == Key(s)
  {
    var k := Key(s);
    var t := k + [NUL] + tail;
    forall i | 0 <= i < |k| ensures t[i] != NUL {
      assert t[i] == Fold(Text(s)[i]);
    }
    TextIs(t, |k|);
    assert Text(t) == k;
    assert Folded(k) == k;
  }

  lemma FoldedIff(s: seq<WChar>, t: seq<WChar>)
    ensures Folded(s) == Folded(t) <==> SameText(s, t)
  {
    if |s| == |t| {
      forall i | 0 <= i < |s| ensures Folded(s)[i] == Folded(t)[i] <==> SameChar(s[i], t[i]) {
        FoldIff(s[i], t[i]);
      }
    }
  }

  /** Two buffers share a key exactly when their texts agree up to ASCII case and slash direction. */
  lemma KeyEquality(s: seq<WChar>, t: seq<WChar>)
    ensures Key(s) == Key(t) <==> SameText(Text(s), Text(t))
  {
    FoldedIff(Text(s), Text(t));
  }

  /** A key is the text itself up to case and slashes, spelled without lower-case letters and forward slashes. */
  lemma KeySpelling(s: seq<WChar>)
    ensures SameText(Text(s), Key(s))
    ensures forall i :: 0 <= i < |Key(s)| ==> !('a' as int <= Key(s)[i] <= 'z' as int) && Key(s)[i] != '/' as int
  {
    forall i | 0 <= i < |Key(s)|
      ensures SameChar(Text(s)[i], Key(s)[i]) && !('a' as int <= Key(s)[i] <= 'z' as int) && Key(s)[i] != '/' as int
    {
      assert Key(s)[i] == Fold(Text(s)[i]);
    }
  }

  /** `scanned` counts the characters of the source that are looked at. */
  method NormalizePath(dst: array?<WChar>, src: array?<WChar>) returns (rc: Status, ghost scanned: nat)
    requires dst != null ==> MAX_PATH <= dst.Length
    requires src != null ==> Readable(src[..])
    modifies dst
    ensures scanned == if dst == null || src == null then 0 else Reads(old(src[..]))
    ensures dst == null || src == null ==> rc == NullArg && (dst != null ==> dst[..] == old(dst[..]))
    ensures dst != null && src != null ==>
              && rc == (if InLimit(old(src[..])) then Success else PathTooLong)
              && dst[MAX_PATH..] == old(dst[MAX_PATH..])
              && (rc == Success ==>
                    && Text(dst[..]) == Key(old(src[..]))
                    && dst[TextLen(dst[..]) + 1..] == old(dst[TextLen(src[..]) + 1..]))
  {
    scanned := 0;
    if dst == null || src == null {
      return NullArg, scanned;
    }
    ghost var s := src[..];
    var i := FoldInto(dst, src);
    scanned := i + 1;
    assert src[i] == src[i..][0] == s[i..][0];
    if MAX_PATH - 1 <= i && src[i] != NUL {
      return PathTooLong, scanned;
    }
    dst[i] := NUL;
    TextIs(dst[..], i);
    assert Text(dst[..]) == Folded(Text(s));
    return Success, scanned;
  }

  /** The loop: folds the text, up to the last place a terminator must have; the buffers may be one. */
  method FoldInto(dst: array<WChar>, src: array<WChar>) returns (i: nat)
    requires MAX_PATH <= dst.Length && Readable(src[..])
    modifies dst
    ensures i == (if TextLen(old(src[..])) < MAX_PATH - 1 then TextLen(old(src[..])) else MAX_PATH - 1) < src.Length
    ensures forall k :: 0 <= k < i ==> dst[k] == Fold(old(src[k]))
    ensures dst[i..] == old(dst[i..]) && src[i..] == old(src[i..])
  {
    ghost var s := src[..];
    i := 0;
    while i < MAX_PATH - 1 && src[i] != NUL
      invariant 0 <= i <= MAX_PATH - 1 && i <= TextLen(s) && i < src.Length
      invariant forall k :: 0 <= k < i ==> dst[k] == Fold(s[k])
      invariant forall k :: i <= k < dst.Length ==> dst[k] == old(dst[k])
      invariant forall k :: i <= k < src.Length ==> src[k] == s[k]
    {
      var ch := src[i];
      if 'a' as int <= ch <= 'z' as int {
        ch := ch - 'a' as int + 'A' as int;
      }
      if ch == '/' as int {
        ch := '\\' as int;
      }
      dst[i] := ch;
      i := i + 1;
    }
  }

  // ---------- The order of the list ----------

  /** Lexicographic order on texts; a proper prefix comes first. */
  predicate Less(p: seq<WChar>, q: seq<WChar>) {
    q != [] && (p == [] || p[0] < q[0] || (p[0] == q[0] && Less(p[1..], q[1..])))
  }

  lemma {:induction false} LessIrreflexive(p: seq<WChar>)
    ensures !Less(p, p)
  {
    if p != [] {
      LessIrreflexive(p[1..]);
    }
  }

  lemma {:induction false} LessTransitive(p: seq<WChar>, q: seq<WChar>, r: seq<WChar>)
    requires Less(p, q) && Less(q, r)
    ensures Less(p, r)
  {
    if p != [] && p[0] == q[0] == r[0] {
      LessTransitive(p[1..], q[1..], r[1..]);
    }
  }

  lemma {:induction false} LessTotal(p: seq<WChar>, q: seq<WChar>)
    ensures p == q || Less(p, q) || Less(q, p)
  {
    if p != [] && q != [] && p[0] == q[0] {
      LessTotal(p[1..], q[1..]);
      if p[1..] == q[1..] {
        assert p == [p[0]] + p[1..] == q;
      }
    }
  }

  /** The first place where two texts differ decides their order. */
  lemma {:induction false} LessAtMismatch(p: seq<WChar>, q: seq<WChar>, k: nat)
    requires k <= |p| && k < |q| && p[..k] == q[..k]
    requires k == |p| || p[k] < q[k]
    ensures Less(p, q) && !Less(q, p) && p != q
  {
    if k > 0 {
      assert p[0] == p[..k][0] == q[..k][0] == q[0];
      assert p[1..][..k - 1] == p[..k][1..] == q[..k][1..] == q[1..][..k - 1];
      LessAtMismatch(p[1..], q[1..], k - 1);
    }
  }

  /** The order, in one phrase: what differs first decides, and a text ends before any character. */
  lemma {:induction false} LessIff(p: seq<WChar>, q: seq<WChar>)
    ensures Less(p, q) <==>
              exists k :: 0 <= k <= |p| && k < |q| && p[..k] == q[..k] && (k == |p| || p[k] < q[k])
  {
    if k :| 0 <= k <= |p| && k < |q| && p[..k] == q[..k] && (k == |p| || p[k] < q[k]) {
      LessAtMismatch(p, q, k);
    }
    if Less(p, q) {
      LessHasMismatch(p, q);
    }
  }

  lemma {:induction false} LessHasMismatch(p: seq<WChar>, q: seq<WChar>)
    requires Less(p, q)
    ensures exists k :: 0 <= k <= |p| && k < |q| && p[..k] == q[..k] && (k == |p| || p[k] < q[k])
  {
    if p == [] || p[0] < q[0] {
      assert p[..0] == q[..0];
    } else {
      LessHasMismatch(p[1..], q[1..]);
      var k :| 0 <= k <= |p[1..]| && k < |q[1..]| && p[1..][..k] == q[1..][..k] && (k == |p[1..]| || p[1..][k] < q[1..][k]);
      assert p[..k + 1] == [p[0]] + p[1..][..k] == [q[0]] + q[1..][..k] == q[..k + 1];
    }
  }

  /** Three-way comparison of two buffers, bounded by the buffer size. */
  method Compare(a: seq<WChar>, b: seq<WChar>) returns (r: int)
    requires |a| == |b| == MAX_PATH
    ensures r < 0 <==> Less(Text(a), Text(b))
    ensures r == 0 <==> Text(a) == Text(b)
    ensures r > 0 <==> Less(Text(b), Text(a))
  {
    var i := 0;
    while i < MAX_PATH
      invariant 0 <= i <= MAX_PATH
      invariant forall k :: 0 <= k < i ==> a[k] == b[k] && a[k] != NUL
    {
      if a[i] != b[i] {
        MismatchOrder(a, b, i);
        return a[i] as int - b[i] as int;
      }
      if a[i] == NUL {
        TextIs(a, i);
        TextIs(b, i);
        LessIrreflexive(Text(a));
        assert Text(a) == Text(b);
        return 0;
      }
      i := i + 1;
    }
    assert a == b;
    LessIrreflexive(Text(a));
    return 0;
  }

  lemma MismatchOrder(a: seq<WChar>, b: seq<WChar>, i: nat)
    requires i < |a| == |b| && a[i] != b[i]
    requires forall k :: 0 <= k < i ==> a[k] == b[k] && a[k] != NUL
    ensures Text(a) != Text(b)
    ensures a[i] < b[i] <==> Less(Text(a), Text(b))
    ensures b[i] < a[i] <==> Less(Text(b), Text(a))
  {
    assert i <= TextLen(a) && i <= TextLen(b);
    assert Text(a)[..i] == Text(b)[..i];
    if a[i] < b[i] {
      LessAtMismatch(Text(a), Text(b), i);
    } else {
      LessAtMismatch(Text(b), Text(a), i);
    }
  }

  /** Strictly ascending keys, the invariant of the list. */
  predicate Ascending(keys: seq<seq<WChar>>) {
    forall i, j {:trigger Less(keys[i], keys[j])} :: 0 <= i < j < |keys| ==> Less(keys[i], keys[j])
  }

  lemma AscendingInsert(keys: seq<seq<WChar>>, k: nat, p: seq<WChar>)
    requires k <= |keys| && Ascending(keys)
    requires forall i :: 0 <= i < k ==> Less(keys[i], p)
    requires k < |keys| ==> Less(p, keys[k])
    ensures Ascending(keys[..k] + [p] + keys[k..])
    ensures forall i :: 0 <= i < |keys| ==> keys[i] != p
  {
    forall i | k <= i < |keys| ensures Less(p, keys[i]) {
      if k < i {
        LessTransitive(p, keys[k], keys[i]);
      }
    }
    LessIrreflexive(p);
  }
}
