/**
 * The order Rust's `sort` puts a `Vec<(&str, &str)>` in: tuples compare by
 * their first component and then by their second, and `str` compares its
 * UTF-8 bytes lexicographically, which is the lexicographic order of its
 * scalar values. The module proves that this is a total order,
 * that a sorted permutation of a sequence is unique, and gives an insertion
 * sort as a specification function and as an in-place method on an array.
 */
module Ordering {
  import opened Utf8

  /** Lexicographic order on byte strings (Rust's `Ord` for `[u8]`): a proper prefix comes first. */
  predicate BytesLt(a: seq<byte>, b: seq<byte>)
    decreases |a|
  {
    |b| > 0 && (|a| == 0 || a[0] < b[0] || (a[0] == b[0] && BytesLt(a[1..], b[1..])))
  }

  lemma {:induction false} BytesLtIrreflexive(a: seq<byte>)
    ensures !BytesLt(a, a)
    decreases |a|
  {
    if |a| > 0 {
      BytesLtIrreflexive(a[1..]);
    }
  }

  lemma {:induction false} BytesLtTransitive(a: seq<byte>, b: seq<byte>, c: seq<byte>)
    requires BytesLt(a, b) && BytesLt(b, c)
    ensures BytesLt(a, c)
    decreases |a|
  {
    if |a| > 0 && a[0] == b[0] && b[0] == c[0] {
      BytesLtTransitive(a[1..], b[1..], c[1..]);
    }
  }

  lemma {:induction false} BytesLtTotal(a: seq<byte>, b: seq<byte>)
    ensures a == b || BytesLt(a, b) || BytesLt(b, a)
    decreases |a|
  {
    if |a| > 0 && |b| > 0 && a[0] == b[0] {
      BytesLtTotal(a[1..], b[1..]);
      if a[1..] == b[1..] {
        assert a == [a[0]] + a[1..] && b == [b[0]] + b[1..];
      }
    }
  }

  lemma BytesLtAsymmetric(a: seq<byte>, b: seq<byte>)
    requires BytesLt(a, b)
    ensures !BytesLt(b, a)
  {
    BytesLtIrreflexive(a);
    if BytesLt(b, a) {
      BytesLtTransitive(a, b, a);
    }
  }

  /** Byte strings that agree before position `k` and differ there are ordered by that byte. */
  lemma {:induction false} BytesLtAt(a: seq<byte>, b: seq<byte>, k: nat)
    requires k < |a| && k < |b| && a[..k] == b[..k] && a[k] < b[k]
    ensures BytesLt(a, b)
    decreases k
  {
    if k > 0 {
      assert a[0] == a[..k][0] == b[..k][0] == b[0];
      assert a[1..][..k - 1] == a[..k][1..] == b[..k][1..] == b[1..][..k - 1];
      BytesLtAt(a[1..], b[1..], k - 1);
    }
  }

  /** A common prefix does not change the order. */
  lemma {:induction false} BytesLtCommonPrefix(e: seq<byte>, a: seq<byte>, b: seq<byte>)
    ensures BytesLt(e + a, e + b) == BytesLt(a, b)
    decreases |e|
  {
    if |e| > 0 {
      assert (e + a)[1..] == e[1..] + a && (e + b)[1..] == e[1..] + b;
      BytesLtCommonPrefix(e[1..], a, b);
    } else {
      assert e + a == a && e + b == b;
    }
  }

  /**
   * `str` order. Rust compares the UTF-8 bytes of two strings; this is the
   * lexicographic order of their scalar values, which `StrLtIsByteOrder`
   * proves to be the same order.
   */
  predicate StrLt(s: string, t: string)
    decreases |s|
  {
    |t| > 0 && (|s| == 0 || s[0] < t[0] || (s[0] == t[0] && StrLt(s[1..], t[1..])))
  }

  /** The first difference of two encodings of the same length two. */
  lemma FirstDifference2(c: char, d: char) returns (k: nat)
    requires 0x80 <= c as int < d as int < 0x800
    ensures k < 2 && EncodeChar(c)[..k] == EncodeChar(d)[..k] && EncodeChar(c)[k] < EncodeChar(d)[k]
  {
    var n, m := c as int, d as int;
    k := if n / 0x40 < m / 0x40 then 0 else 1;
    assert EncodeChar(c)[..k] == EncodeChar(d)[..k];
  }

  /** The first difference of two encodings of the same length three. */
  lemma FirstDifference3(c: char, d: char) returns (k: nat)
    requires 0x800 <= c as int < d as int < 0x1_0000
    ensures k < 3 && EncodeChar(c)[..k] == EncodeChar(d)[..k] && EncodeChar(c)[k] < EncodeChar(d)[k]
  {
    var n, m := c as int, d as int;
    Digits3(n);
    Digits3(m);
    var e, f := EncodeChar(c), EncodeChar(d);
    assert e[0] as int == 0xE0 + n / 0x1000 && f[0] as int == 0xE0 + m / 0x1000;
    assert e[1] as int == 0x80 + n / 0x40 % 0x40 && f[1] as int == 0x80 + m / 0x40 % 0x40;
    assert e[2] as int == 0x80 + n % 0x40 && f[2] as int == 0x80 + m % 0x40;
    if e[0] < f[0] {
      k := 0;
    } else if e[1] < f[1] {
      k := 1;
      assert e[..1] == [e[0]] && f[..1] == [f[0]];
    } else {
      k := 2;
      assert e[..2] == [e[0], e[1]] && f[..2] == [f[0], f[1]];
    }
  }

  /** The first difference of two encodings of the same length four. */
  lemma FirstDifference4(c: char, d: char) returns (k: nat)
    requires 0x1_0000 <= c as int < d as int
    ensures k < 4 && EncodeChar(c)[..k] == EncodeChar(d)[..k] && EncodeChar(c)[k] < EncodeChar(d)[k]
  {
    var n, m := c as int, d as int;
    Digits4(n);
    Digits4(m);
    var e, f := EncodeChar(c), EncodeChar(d);
    assert e[0] as int == 0xF0 + n / 0x4_0000 && f[0] as int == 0xF0 + m / 0x4_0000;
    assert e[1] as int == 0x80 + n / 0x1000 % 0x40 && f[1] as int == 0x80 + m / 0x1000 % 0x40;
    assert e[2] as int == 0x80 + n / 0x40 % 0x40 && f[2] as int == 0x80 + m / 0x40 % 0x40;
    assert e[3] as int == 0x80 + n % 0x40 && f[3] as int == 0x80 + m % 0x40;
    if e[0] < f[0] {
      k := 0;
    } else if e[1] < f[1] {
      k := 1;
      assert e[..1] == [e[0]] && f[..1] == [f[0]];
    } else if e[2] < f[2] {
      k := 2;
      assert e[..2] == [e[0], e[1]] && f[..2] == [f[0], f[1]];
    } else {
      k := 3;
      assert e[..3] == [e[0], e[1], e[2]] && f[..3] == [f[0], f[1], f[2]];
    }
  }

  /**
   * Where the encodings of two different scalar values first differ, the
   * smaller value has the smaller byte (the order-preservation property of
   * section 1 of RFC 3629).
   */
  lemma EncodeCharFirstDifference(c: char, d: char) returns (k: nat)
    requires c < d
    ensures k < |EncodeChar(c)| && k < |EncodeChar(d)|
    ensures EncodeChar(c)[..k] == EncodeChar(d)[..k] && EncodeChar(c)[k] < EncodeChar(d)[k]
  {
    var n, m := c as int, d as int;
    if n < 0x80 || (n < 0x800 && 0x800 <= m) || (n < 0x1_0000 && 0x1_0000 <= m) {
      k := 0;
    } else if n < 0x800 {
      k := FirstDifference2(c, d);
    } else if n < 0x1_0000 {
      k := FirstDifference3(c, d);
    } else {
      k := FirstDifference4(c, d);
    }
  }

  /** A string whose first scalar value is smaller has the smaller encoding. */
  lemma EncodeLeadLess(s: string, t: string)
    requires |s| > 0 && |t| > 0 && s[0] < t[0]
    ensures BytesLt(Encode(s), Encode(t))
  {
    var k := EncodeCharFirstDifference(s[0], t[0]);
    var e, f := EncodeChar(s[0]), EncodeChar(t[0]);
    assert Encode(s)[..k] == e[..k] && Encode(t)[..k] == f[..k];
    BytesLtAt(Encode(s), Encode(t), k);
  }

  /** Comparing scalar values is comparing UTF-8 bytes: `str`'s order is `StrLt`. */
  lemma {:induction false} StrLtIsByteOrder(s: string, t: string)
    ensures StrLt(s, t) <==> BytesLt(Encode(s), Encode(t))
    decreases |s|
  {
    if |s| == 0 || |t| == 0 {
    } else if s[0] < t[0] {
      EncodeLeadLess(s, t);
    } else if s[0] == t[0] {
      StrLtIsByteOrder(s[1..], t[1..]);
      BytesLtCommonPrefix(EncodeChar(s[0]), Encode(s[1..]), Encode(t[1..]));
    } else {
      EncodeLeadLess(t, s);
      BytesLtAsymmetric(Encode(t), Encode(s));
    }
  }

  /** One key/value pair of a request, in the order Rust's tuple `Ord` gives it. */
  type Pair = (string, string)

  predicate PairLt(p: Pair, q: Pair) {
    StrLt(p.0, q.0) || (p.0 == q.0 && StrLt(p.1, q.1))
  }

  predicate PairLe(p: Pair, q: Pair) {
    p == q || PairLt(p, q)
  }

  lemma StrLtTotal(s: string, t: string)
    ensures s == t || StrLt(s, t) || StrLt(t, s)
  {
    StrLtIsByteOrder(s, t);
    StrLtIsByteOrder(t, s);
    BytesLtTotal(Encode(s), Encode(t));
    if Encode(s) == Encode(t) {
      EncodeInjective(s, t);
    }
  }

  lemma StrLtAsymmetric(s: string, t: string)
    requires StrLt(s, t)
    ensures !StrLt(t, s) && s != t
  {
    StrLtIsByteOrder(s, t);
    StrLtIsByteOrder(t, s);
    BytesLtIrreflexive(Encode(s));
    BytesLtAsymmetric(Encode(s), Encode(t));
  }

  lemma StrLtTransitive(s: string, t: string, u: string)
    requires StrLt(s, t) && StrLt(t, u)
    ensures StrLt(s, u)
  {
    StrLtIsByteOrder(s, t);
    StrLtIsByteOrder(t, u);
    StrLtIsByteOrder(s, u);
    BytesLtTransitive(Encode(s), Encode(t), Encode(u));
  }

  /** Any two pairs are comparable, and `PairLt` is the strict part of `PairLe`. */
  lemma PairLeTotal(p: Pair, q: Pair)
    ensures PairLe(p, q) || PairLe(q, p)
    ensures !PairLt(p, q) ==> PairLe(q, p)
  {
    StrLtTotal(p.0, q.0);
    StrLtTotal(p.1, q.1);
  }

  lemma PairLeAntisymmetric(p: Pair, q: Pair)
    requires PairLe(p, q) && PairLe(q, p)
    ensures p == q
  {
    if p != q {
      if StrLt(p.0, q.0) {
        StrLtAsymmetric(p.0, q.0);
      } else {
        StrLtAsymmetric(p.1, q.1);
        if StrLt(q.0, p.0) {
          StrLtAsymmetric(q.0, p.0);
        }
      }
    }
  }

  lemma PairLeTransitive(p: Pair, q: Pair, r: Pair)
    requires PairLe(p, q) && PairLe(q, r)
    ensures PairLe(p, r)
  {
    if p != q && q != r {
      if StrLt(p.0, q.0) && StrLt(q.0, r.0) {
        StrLtTransitive(p.0, q.0, r.0);
      } else if p.0 == q.0 && q.0 == r.0 {
        StrLtTransitive(p.1, q.1, r.1);
      }
    }
  }

  /** Every pair is at most every later pair. */
  ghost predicate Sorted(s: seq<Pair>) {
    forall i, j {:trigger PairLe(s[i], s[j])} :: 0 <= i < j < |s| ==> PairLe(s[i], s[j])
  }

  /** Every pair is at most its successor; equivalent to `Sorted` (see `ChainedIsSorted`). */
  ghost predicate Chained(s: seq<Pair>) {
    forall k :: 0 < k < |s| ==> PairLe(s[k - 1], s[k])
  }

  lemma {:induction false} ChainedIsSorted(s: seq<Pair>)
    requires Chained(s)
    ensures Sorted(s)
  {
    if |s| > 1 {
      var t := s[1..];
      assert Chained(t) by {
        forall k | 0 < k < |t| ensures PairLe(t[k - 1], t[k]) {
          assert t[k - 1] == s[k] && t[k] == s[k + 1];
        }
      }
      ChainedIsSorted(t);
      forall i, j | 0 <= i < j < |s| ensures PairLe(s[i], s[j]) {
        if i > 0 {
          assert s[i] == t[i - 1] && s[j] == t[j - 1];
        } else if j > 1 {
          assert s[1] == t[0] && s[j] == t[j - 1];
          PairLeTransitive(s[0], s[1], s[j]);
        }
      }
    }
  }

  /** The first pair of a sorted sequence is at most each of its elements. */
  lemma SortedHeadIsLeast(s: seq<Pair>, x: Pair)
    requires Sorted(s) && x in multiset(s)
    ensures |s| > 0 && PairLe(s[0], x)
  {
    var k :| 0 <= k < |s| && s[k] == x;
    if k > 0 {
      assert PairLe(s[0], s[k]);
    }
  }

  lemma SortedTail(s: seq<Pair>)
    requires Sorted(s) && |s| > 0
    ensures Sorted(s[1..])
  {
    forall i, j | 0 <= i < j < |s| - 1 ensures PairLe(s[1..][i], s[1..][j]) {
      assert s[1..][i] == s[i + 1] && s[1..][j] == s[j + 1];
    }
  }

  lemma MultisetTails<T>(a: seq<T>, b: seq<T>)
    requires multiset(a) == multiset(b) && |a| > 0 && |b| > 0 && a[0] == b[0]
    ensures multiset(a[1..]) == multiset(b[1..])
  {
    assert a == [a[0]] + a[1..] && b == [b[0]] + b[1..];
    assert multiset(a[1..]) == multiset(a) - multiset{a[0]};
    assert multiset(b[1..]) == multiset(b) - multiset{b[0]};
  }

  /**
   * A sorted arrangement of a multiset is unique: two sorted sequences with
   * the same elements are equal. So the result of sorting depends only on the
   * multiset of what was sorted, whatever algorithm does it.
   */
  lemma {:induction false} SortedUnique(a: seq<Pair>, b: seq<Pair>)
    requires Sorted(a) && Sorted(b) && multiset(a) == multiset(b)
    ensures a == b
    decreases |a|
  {
    assert |a| == |multiset(a)| == |multiset(b)| == |b|;
    if |a| > 0 {
      assert a[0] in multiset(a) && b[0] in multiset(b);
      SortedHeadIsLeast(b, a[0]);
      SortedHeadIsLeast(a, b[0]);
      PairLeAntisymmetric(a[0], b[0]);
      MultisetTails(a, b);
      SortedTail(a);
      SortedTail(b);
      SortedUnique(a[1..], b[1..]);
      assert a == [a[0]] + a[1..] && b == [b[0]] + b[1..];
    }
  }

  /** No two pairs share a key. */
  ghost predicate DistinctKeys(s: seq<Pair>) {
    forall i, j :: 0 <= i < j < |s| ==> s[i].0 != s[j].0
  }

  lemma RepeatedCountsTwice<T>(s: seq<T>, i: nat, j: nat)
    requires i < j < |s| && s[i] == s[j]
    ensures multiset(s)[s[i]] >= 2
  {
    assert s == s[..j] + [s[j]] + s[j + 1..];
    assert s[..j][i] == s[i];
    assert multiset(s[..j])[s[i]] >= 1;
  }

  lemma {:induction false} CountedTwiceRepeats<T>(s: seq<T>, x: T)
    requires multiset(s)[x] >= 2
    ensures exists i, j :: 0 <= i < j < |s| && s[i] == x && s[j] == x
  {
    assert s == [s[0]] + s[1..];
    var t := s[1..];
    if s[0] == x {
      assert x in multiset(t);
      var k :| 0 <= k < |t| && t[k] == x;
      assert s[0] == x && s[k + 1] == x;
    } else {
      assert multiset(t)[x] == multiset(s)[x];
      CountedTwiceRepeats(t, x);
      var i, j :| 0 <= i < j < |t| && t[i] == x && t[j] == x;
      assert s[i + 1] == x && s[j + 1] == x;
    }
  }

  /** Rearranging pairs cannot make two of them share a key. */
  lemma PermutationKeepsDistinctKeys(a: seq<Pair>, b: seq<Pair>)
    requires multiset(a) == multiset(b) && DistinctKeys(a)
    ensures DistinctKeys(b)
  {
    forall i, j | 0 <= i < j < |b| ensures b[i].0 != b[j].0 {
      if b[i] == b[j] {
        RepeatedCountsTwice(b, i, j);
        CountedTwiceRepeats(a, b[i]);
      } else {
        assert b[i] in multiset(a) && b[j] in multiset(a);
        var k :| 0 <= k < |a| && a[k] == b[i];
        var l :| 0 <= l < |a| && a[l] == b[j];
        if k < l {
          assert a[k].0 != a[l].0;
        } else {
          assert a[l].0 != a[k].0;
        }
      }
    }
  }

  /** Insert `p` before the first pair it is at most. */
  function Insert(p: Pair, s: seq<Pair>): (r: seq<Pair>)
    ensures |r| == |s| + 1
    ensures multiset(r) == multiset(s) + multiset{p}
  {
    if |s| == 0 then [p]
    else if PairLe(p, s[0]) then [p] + s
    else
      assert s == [s[0]] + s[1..];
      [s[0]] + Insert(p, s[1..])
  }

  lemma {:induction false} InsertKeepsSorted(p: Pair, s: seq<Pair>)
    requires Sorted(s)
    ensures Sorted(Insert(p, s))
  {
    var r := Insert(p, s);
    if |s| == 0 {
    } else if PairLe(p, s[0]) {
      forall i, j | 0 <= i < j < |r| ensures PairLe(r[i], r[j]) {
        if i == 0 {
          if j > 1 { PairLeTransitive(p, s[0], s[j - 1]); }
        } else {
          assert r[i] == s[i - 1] && r[j] == s[j - 1];
        }
      }
    } else {
      PairLeTotal(p, s[0]);
      var t := Insert(p, s[1..]);
      assert Sorted(s[1..]) by {
        forall i, j | 0 <= i < j < |s[1..]| ensures PairLe(s[1..][i], s[1..][j]) {
          assert s[1..][i] == s[i + 1] && s[1..][j] == s[j + 1];
        }
      }
      InsertKeepsSorted(p, s[1..]);
      forall i, j | 0 <= i < j < |r| ensures PairLe(r[i], r[j]) {
        if i == 0 {
          assert r[j] == t[j - 1];
          assert t[j - 1] in multiset(s[1..]) + multiset{p};
          if t[j - 1] != p {
            assert t[j - 1] in s[1..];
            var k :| 0 <= k < |s[1..]| && s[1..][k] == t[j - 1];
            assert s[1..][k] == s[k + 1];
          }
        } else {
          assert r[i] == t[i - 1] && r[j] == t[j - 1];
        }
      }
    }
  }

  /** Insertion sort, as a specification: the sorted permutation of `s`. */
  function SortPairs(s: seq<Pair>): (r: seq<Pair>)
    ensures |r| == |s|
    ensures Sorted(r) && multiset(r) == multiset(s)
  {
    if |s| == 0 then []
    else
      assert s == [s[0]] + s[1..];
      var rest := SortPairs(s[1..]);
      InsertKeepsSorted(s[0], rest);
      Insert(s[0], rest)
  }

  /** Any sorted permutation of `s` is the one `SortPairs` gives. */
  lemma SortedPermutationIsSortPairs(s: seq<Pair>, r: seq<Pair>)
    requires Sorted(r) && multiset(r) == multiset(s)
    ensures r == SortPairs(s)
  {
    SortedUnique(r, SortPairs(s));
  }

  /** Exchange `a[i]` and `a[i + 1]`. */
  method SwapAdjacent(a: array<Pair>, i: nat)
    requires i + 1 < a.Length
    modifies a
    ensures a[i] == old(a[i + 1]) && a[i + 1] == old(a[i])
    ensures forall k :: 0 <= k < a.Length && k != i && k != i + 1 ==> a[k] == old(a[k])
    ensures multiset(a[..]) == multiset(old(a[..]))
  {
    a[i], a[i + 1] := a[i + 1], a[i];
  }

  /**
   * One pass of insertion sort: with `a[..i]` in order, move `a[i]` left past
   * every pair greater than it, so that `a[..i + 1]` is in order.
   */
  method InsertAt(a: array<Pair>, i: nat)
    requires i < a.Length
    requires forall k :: 0 < k < i ==> PairLe(a[k - 1], a[k])
    modifies a
    ensures forall k :: 0 < k <= i ==> PairLe(a[k - 1], a[k])
    ensures multiset(a[..]) == multiset(old(a[..]))
  {
    var j := i;
    while j > 0 && PairLt(a[j], a[j - 1])
      invariant 0 <= j <= i
      invariant forall k :: 0 < k < j ==> PairLe(a[k - 1], a[k])
      invariant forall k :: j < k <= i ==> PairLe(a[k - 1], a[k])
      invariant 0 < j < i ==> PairLe(a[j - 1], a[j + 1])
      invariant multiset(a[..]) == multiset(old(a[..]))
    {
      SwapAdjacent(a, j - 1);
      j := j - 1;
    }
    if j > 0 {
      PairLeTotal(a[j], a[j - 1]);
    }
  }

  /**
   * Sort `a` in place (Rust's `slice::sort` on the request's pair vector), by
   * insertion: pass `i` inserts `a[i]` into the sorted prefix `a[..i]`.
   */
  method SortInPlace(a: array<Pair>)
    modifies a
    ensures Sorted(a[..]) && multiset(a[..]) == multiset(old(a[..]))
    ensures a[..] == SortPairs(old(a[..]))
  {
    var i := 0;
    while i < a.Length
      invariant 0 <= i <= a.Length
      invariant forall k :: 0 < k < i ==> PairLe(a[k - 1], a[k])
      invariant multiset(a[..]) == multiset(old(a[..]))
    {
      InsertAt(a, i);
      i := i + 1;
    }
    assert Chained(a[..]);
    ChainedIsSorted(a[..]);
    SortedPermutationIsSortPairs(old(a[..]), a[..]);
  }
}
