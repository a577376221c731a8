/** The ordering step of `process_versions` (src/scanner.py:330-331):
    `sorted(all_versions, key=lambda x: x.get("version", "0.0.0"),
    reverse=True)`. The key is the version STRING, so the order is Python's
    lexicographic string order, descending; Python's sort is stable, and
    with `reverse=True` records with equal keys keep their original order. */
module VersionSort {
  import opened Base
  import opened Records

  /** `x.get("version", "0.0.0")` */
  function SortKey(r: VersionRecord): string {
    r.version.GetOr("0.0.0")
  }

  /** `a` may come before `b` in the descending order */
  predicate Before(a: VersionRecord, b: VersionRecord) {
    !StrLess(SortKey(a), SortKey(b))
  }

  /** Non-increasing keys */
  predicate SortedDesc(s: seq<VersionRecord>) {
    forall i, j :: 0 <= i < j < |s| ==> Before(s[i], s[j])
  }

  /** `x` placed into the sorted `t` after every record whose key is at
      least its own */
  function Insert(t: seq<VersionRecord>, x: VersionRecord): seq<VersionRecord>
    decreases |t|
  {
    if t == [] then [x]
    else if StrLess(SortKey(t[|t| - 1]), SortKey(x)) then Insert(t[..|t| - 1], x) + [t[|t| - 1]]
    else t + [x]
  }

  /** The stable descending sort, as insertion of each record in turn */
  function SortDesc(s: seq<VersionRecord>): seq<VersionRecord>
    decreases |s|
  {
    if s == [] then [] else Insert(SortDesc(s[..|s| - 1]), s[|s| - 1])
  }

  /** The records of `s` with key `k`, in order */
  function WithKey(s: seq<VersionRecord>, k: string): seq<VersionRecord>
    decreases |s|
  {
    if s == [] then []
    else WithKey(s[..|s| - 1], k) + (if SortKey(s[|s| - 1]) == k then [s[|s| - 1]] else [])
  }

  /* ---------- the order on keys ---------- */

  lemma BeforeTransitive(a: VersionRecord, b: VersionRecord, c: VersionRecord)
    requires Before(a, b) && Before(b, c)
    ensures Before(a, c)
  {
    var ka, kb, kc := SortKey(a), SortKey(b), SortKey(c);
    StrLessTrichotomy(kb, kc);
    if kb != kc && StrLess(ka, kc) {
      StrLessTransitive(ka, kc, kb);
    }
  }

  /* ---------- insertion ---------- */

  lemma {:induction false} InsertMultiset(t: seq<VersionRecord>, x: VersionRecord)
    ensures multiset(Insert(t, x)) == multiset(t) + multiset{x}
    decreases |t|
  {
    if t != [] {
      var n := |t| - 1;
      assert t == t[..n] + [t[n]];
      if StrLess(SortKey(t[n]), SortKey(x)) {
        InsertMultiset(t[..n], x);
      }
    }
  }

  lemma {:induction false} InsertLength(t: seq<VersionRecord>, x: VersionRecord)
    ensures |Insert(t, x)| == |t| + 1
    decreases |t|
  {
    if t != [] && StrLess(SortKey(t[|t| - 1]), SortKey(x)) {
      InsertLength(t[..|t| - 1], x);
    }
  }

  /** Every element of an insertion is the inserted record or one of `t`. */
  lemma InsertElements(t: seq<VersionRecord>, x: VersionRecord, y: VersionRecord)
    requires y in Insert(t, x)
    ensures y == x || y in t
  {
    InsertMultiset(t, x);
    assert y in multiset(Insert(t, x));
  }

  lemma {:induction false} InsertSorted(t: seq<VersionRecord>, x: VersionRecord)
    requires SortedDesc(t)
    ensures SortedDesc(Insert(t, x))
    decreases |t|
  {
    if t != [] {
      var n := |t| - 1;
      if StrLess(SortKey(t[n]), SortKey(x)) {
        var r := Insert(t[..n], x);
        InsertSorted(t[..n], x);
        InsertLength(t[..n], x);
        forall i | 0 <= i < |r|
          ensures Before(r[i], t[n])
        {
          InsertElements(t[..n], x, r[i]);
          if r[i] == x {
            StrLessAsymmetric(SortKey(t[n]), SortKey(x));
          }
        }
        assert (r + [t[n]])[..|r|] == r;
      } else {
        forall i | 0 <= i < |t|
          ensures Before(t[i], x)
        {
          if i < n {
            BeforeTransitive(t[i], t[n], x);
          }
        }
      }
    }
  }

  /** `WithKey` on a list with one more record at its end */
  lemma WithKeySnoc(s: seq<VersionRecord>, y: VersionRecord, k: string)
    ensures WithKey(s + [y], k) == WithKey(s, k) + (if SortKey(y) == k then [y] else [])
  {
    assert (s + [y])[..|s|] == s;
  }

  /** Records that follow `x` after insertion have keys strictly below
      `x`'s, so inserting keeps the order among equal keys. */
  lemma {:induction false} InsertWithKey(t: seq<VersionRecord>, x: VersionRecord, k: string)
    ensures WithKey(Insert(t, x), k) == WithKey(t, k) + (if SortKey(x) == k then [x] else [])
    decreases |t|
  {
    var xs := if SortKey(x) == k then [x] else [];
    if t == [] {
      WithKeySnoc([], x, k);
      assert [] + [x] == [x];
    } else {
      var n := |t| - 1;
      var last := t[n];
      var ys := if SortKey(last) == k then [last] else [];
      if StrLess(SortKey(last), SortKey(x)) {
        var r := Insert(t[..n], x);
        if SortKey(last) == k {
          StrLessIrreflexive(k);
        }
        calc {
          WithKey(Insert(t, x), k);
          WithKey(r + [last], k);
          { WithKeySnoc(r, last, k); }
          WithKey(r, k) + ys;
          { InsertWithKey(t[..n], x, k); }
          WithKey(t[..n], k) + xs + ys;
          // at most one of `x` and `last` has key `k`
          WithKey(t[..n], k) + ys + xs;
          { WithKeySnoc(t[..n], last, k); assert t[..n] + [last] == t; }
          WithKey(t, k) + xs;
        }
      } else {
        assert Insert(t, x) == t + [x];
        WithKeySnoc(t, x, k);
      }
    }
  }

  /* ---------- the sort ---------- */

  /** The result is in descending key order. */
  lemma {:induction false} SortDescSorted(s: seq<VersionRecord>)
    ensures SortedDesc(SortDesc(s))
    decreases |s|
  {
    if s != [] {
      SortDescSorted(s[..|s| - 1]);
      InsertSorted(SortDesc(s[..|s| - 1]), s[|s| - 1]);
    }
  }

  /** The result holds exactly the same records. */
  lemma {:induction false} SortDescPermutation(s: seq<VersionRecord>)
    ensures multiset(SortDesc(s)) == multiset(s)
    decreases |s|
  {
    if s != [] {
      var n := |s| - 1;
      SortDescPermutation(s[..n]);
      InsertMultiset(SortDesc(s[..n]), s[n]);
      assert s == s[..n] + [s[n]];
    }
  }

  /** Records with equal keys keep their relative order (stability). */
  lemma {:induction false} SortDescStable(s: seq<VersionRecord>, k: string)
    ensures WithKey(SortDesc(s), k) == WithKey(s, k)
    decreases |s|
  {
    if s != [] {
      var n := |s| - 1;
      SortDescStable(s[..n], k);
      InsertWithKey(SortDesc(s[..n]), s[n], k);
    }
  }

  /** Sorting a list already in descending order changes nothing. */
  lemma {:induction false} SortDescOfSorted(s: seq<VersionRecord>)
    requires SortedDesc(s)
    ensures SortDesc(s) == s
    decreases |s|
  {
    if s != [] {
      var n := |s| - 1;
      SortDescOfSorted(s[..n]);
      if n > 0 {
        assert Before(s[n - 1], s[n]);
      }
      assert s[..n] + [s[n]] == s;
    }
  }

  /** The order is on strings: a "1.10.0" record sorts after a "1.9.0"
      one, although 1.10.0 is the later version. */
  lemma LexicographicNotNumeric(a: VersionRecord, b: VersionRecord)
    requires a.version == Some("1.10.0") && b.version == Some("1.9.0")
    ensures SortDesc([a, b]) == [b, a]
  {
    assert StrLess("1.10.0", "1.9.0") by {
      assert "1.10.0"[1..] == ".10.0" && "1.9.0"[1..] == ".9.0";
      assert ".10.0"[1..] == "10.0" && ".9.0"[1..] == "9.0";
    }
    assert SortKey(a) == "1.10.0" && SortKey(b) == "1.9.0";
    assert [a, b][..1] == [a] && [a][..0] == [];
    assert SortDesc([a]) == Insert([], a) == [a];
    assert Insert([a], b) == Insert([], b) + [a];
  }

  /* ---------- the sort in place ---------- */

  /** An insertion sort over the array: after it, the array holds the
      stable descending order of what it held before. */
  method SortInPlace(a: array<VersionRecord>)
    modifies a
    ensures a[..] == SortDesc(old(a[..]))
  {
    ghost var s := a[..];
    for i := 0 to a.Length
      invariant a[..i] == SortDesc(s[..i])
      invariant a[i..] == s[i..]
    {
      assert a[i] == s[i];
      InsertInto(a, i);
      assert s[..i + 1][..i] == s[..i];
    }
    assert s[..a.Length] == s;
  }

  /** One step of the insertion sort: `a[i]` moves left past every record
      whose key is smaller than its own. */
  method InsertInto(a: array<VersionRecord>, i: int)
    requires 0 <= i < a.Length
    modifies a
    ensures a[..i + 1] == Insert(old(a[..i]), old(a[i]))
    ensures a[i + 1..] == old(a[i + 1..])
  {
    ghost var t := a[..i];
    var x := a[i];
    var j := i;
    assert t[..j] == t && t[j..] == [];
    while j > 0 && StrLess(SortKey(a[j - 1]), SortKey(x))
      invariant 0 <= j <= i
      invariant forall k :: 0 <= k < j ==> a[k] == t[k]
      invariant forall k :: j < k <= i ==> a[k] == t[k - 1]
      invariant forall k :: i < k < a.Length ==> a[k] == old(a[k])
      invariant Insert(t, x) == Insert(t[..j], x) + t[j..]
    {
      InsertShift(t, x, j);
      a[j] := a[j - 1];
      j := j - 1;
    }
    a[j] := x;
    Placed(t, x, j, a[..]);
  }

  /** After the loop: the front of the array is `t` with `x` put at `j`,
      which is where the insertion puts it. */
  lemma Placed(t: seq<VersionRecord>, x: VersionRecord, j: int, b: seq<VersionRecord>)
    requires 0 <= j <= |t| < |b|
    requires forall k :: 0 <= k < j ==> b[k] == t[k]
    requires b[j] == x
    requires forall k :: j < k <= |t| ==> b[k] == t[k - 1]
    requires Insert(t, x) == Insert(t[..j], x) + t[j..]
    requires j == 0 || !StrLess(SortKey(t[j - 1]), SortKey(x))
    ensures b[..|t| + 1] == Insert(t, x)
  {
    InsertStop(t, x, j);
    var placed := t[..j] + [x] + t[j..];
    forall k | 0 <= k <= |t|
      ensures b[k] == placed[k]
    {
      if k > j {
        assert placed[k] == t[j..][k - j - 1];
      }
    }
  }

  /** Moving past a smaller key: the insertion point lies further left. */
  lemma InsertShift(t: seq<VersionRecord>, x: VersionRecord, j: int)
    requires 0 < j <= |t| && StrLess(SortKey(t[j - 1]), SortKey(x))
    requires Insert(t, x) == Insert(t[..j], x) + t[j..]
    ensures Insert(t, x) == Insert(t[..j - 1], x) + t[j - 1..]
  {
    assert t[..j][..j - 1] == t[..j - 1];
    assert [t[j - 1]] + t[j..] == t[j - 1..];
  }

  /** At the front, or behind a key at least `x`'s, `x` goes right here. */
  lemma InsertStop(t: seq<VersionRecord>, x: VersionRecord, j: int)
    requires 0 <= j <= |t| && (j == 0 || !StrLess(SortKey(t[j - 1]), SortKey(x)))
    ensures Insert(t[..j], x) == t[..j] + [x]
  {
  }
}
