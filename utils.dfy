/** `compare_versions` and the platform reordering that `save_json_file`
    applies to every record before writing (src/utils.py). */
module Utils {
  import opened Base
  import opened OrderedDict
  import opened Records

  /* ---------- int(part) ---------- */

  /** The value of a run of decimal digits, most significant first */
  function DigitsValue(s: string): nat
    requires AllDigits(s)
    decreases |s|
  {
    if s == [] then 0
    else DigitsValue(s[..|s| - 1]) * 10 + (s[|s| - 1] as int - '0' as int)
  }

  /** `int(part)`: an optional sign followed by at least one digit;
      anything else raises, which is `None` here. */
  function ParseInt(s: string): Option<int> {
    if |s| >= 2 && (s[0] == '+' || s[0] == '-') && AllDigits(s[1..]) then
      var n: int := DigitsValue(s[1..]);
      Some(if s[0] == '-' then -n else n)
    else if s != [] && AllDigits(s) then Some(DigitsValue(s))
    else None
  }

  /** `[int(part) for part in parts]`, or `None` if any part raises */
  function ParseAll(parts: seq<string>): (r: Option<seq<int>>)
    ensures r.Some? <==> forall k :: 0 <= k < |parts| ==> ParseInt(parts[k]).Some?
    ensures r.Some? ==> (|r.value| == |parts|
      && forall k :: 0 <= k < |parts| ==> r.value[k] == ParseInt(parts[k]).value)
    decreases |parts|
  {
    if parts == [] then Some([])
    else
      var head := ParseInt(parts[0]);
      var rest := ParseAll(parts[1..]);
      if head.None? then None
      else if rest.None? then
        assert exists k :: 1 <= k < |parts| && !ParseInt(parts[k]).Some? by {
          var k :| 0 <= k < |parts| - 1 && !ParseInt(parts[1..][k]).Some?;
          assert parts[1..][k] == parts[k + 1];
        }
        None
      else Some([head.value] + rest.value)
  }

  /** The numeric components of a version string, when all of them parse */
  function VersionParts(v: string): Option<seq<int>> {
    ParseAll(Split(v, '.'))
  }

  /* ---------- component-wise comparison with zero padding ---------- */

  /** Component `k` of a version once padded with trailing zeros */
  function At(a: seq<int>, k: nat): int {
    if k < |a| then a[k] else 0
  }

  function Tail(a: seq<int>): seq<int> {
    if a == [] then [] else a[1..]
  }

  /** Three-way comparison of two component lists, the shorter one read
      as if padded with zeros. */
  function PaddedCmp(a: seq<int>, b: seq<int>): (r: int)
    ensures -1 <= r <= 1
    decreases |a| + |b|
  {
    if a == [] && b == [] then 0
    else if At(a, 0) > At(b, 0) then 1
    else if At(a, 0) < At(b, 0) then -1
    else PaddedCmp(Tail(a), Tail(b))
  }

  lemma AtTail(a: seq<int>, k: nat)
    ensures At(Tail(a), k) == At(a, k + 1)
  {
  }

  /** The first component where the padded lists differ decides. */
  lemma {:induction false} PaddedCmpDecides(a: seq<int>, b: seq<int>, k: nat)
    requires forall j :: 0 <= j < k ==> At(a, j) == At(b, j)
    requires At(a, k) != At(b, k)
    ensures PaddedCmp(a, b) == if At(a, k) > At(b, k) then 1 else -1
    decreases k
  {
    if k > 0 {
      assert At(a, 0) == At(b, 0);
      forall j | 0 <= j < k - 1
        ensures At(Tail(a), j) == At(Tail(b), j)
      {
        AtTail(a, j);
        AtTail(b, j);
      }
      AtTail(a, k - 1);
      AtTail(b, k - 1);
      PaddedCmpDecides(Tail(a), Tail(b), k - 1);
    }
  }

  /** The comparison is 0 exactly when the padded lists agree everywhere. */
  lemma {:induction false} PaddedCmpZero(a: seq<int>, b: seq<int>)
    ensures PaddedCmp(a, b) == 0 <==> forall k :: 0 <= k < |a| + |b| ==> At(a, k) == At(b, k)
    decreases |a| + |b|
  {
    if !(a == [] && b == []) && At(a, 0) == At(b, 0) {
      PaddedCmpZero(Tail(a), Tail(b));
      if PaddedCmp(a, b) == 0 {
        forall k | 0 <= k < |a| + |b|
          ensures At(a, k) == At(b, k)
        {
          if k > 0 {
            AtTail(a, k - 1);
            AtTail(b, k - 1);
            if k - 1 >= |Tail(a)| + |Tail(b)| {
              assert At(a, k) == 0 == At(b, k);
            }
          }
        }
      } else {
        var k :| 0 <= k < |Tail(a)| + |Tail(b)| && At(Tail(a), k) != At(Tail(b), k);
        AtTail(a, k);
        AtTail(b, k);
      }
    }
  }

  /** Swapping the operands negates the result. */
  lemma {:induction false} PaddedCmpAntisymmetric(a: seq<int>, b: seq<int>)
    ensures PaddedCmp(a, b) == -PaddedCmp(b, a)
    decreases |a| + |b|
  {
    if !(a == [] && b == []) && At(a, 0) == At(b, 0) {
      PaddedCmpAntisymmetric(Tail(a), Tail(b));
    }
  }

  /* ---------- compare_versions ---------- */

  /** What `compare_versions` computes: numeric, zero-padded comparison
      when every component of both strings is an integer, and plain
      string comparison otherwise. */
  function VersionCompare(v1: string, v2: string): (r: int)
    ensures VersionParts(v1).None? || VersionParts(v2).None? ==>
      (r == 1 <==> StrLess(v2, v1)) && (r == -1 <==> StrLess(v1, v2)) && (r == 0 <==> v1 == v2)
  {
    match (VersionParts(v1), VersionParts(v2))
    case (Some(a), Some(b)) => PaddedCmp(a, b)
    case _ => StrCmp(v1, v2)
  }

  /** `compare_versions(version1, version2)`: pad both part lists with
      zeros to equal length, then scan for the first difference. */
  method CompareVersions(version1: string, version2: string) returns (r: int)
    ensures r == VersionCompare(version1, version2)
  {
    var p1 := VersionParts(version1);
    var p2 := VersionParts(version2);
    if p1.None? || p2.None? {
      // the `except` branch: string comparison
      if StrLess(version2, version1) {
        return 1;
      } else if StrLess(version1, version2) {
        return -1;
      } else {
        return 0;
      }
    }
    ghost var target := PaddedCmp(p1.value, p2.value);
    var v1Parts, v2Parts := p1.value, p2.value;
    while |v1Parts| < |v2Parts|
      invariant PaddedCmp(v1Parts, v2Parts) == target
      decreases |v2Parts| - |v1Parts|
    {
      PadRight(v1Parts, v2Parts);
      v1Parts := v1Parts + [0];
    }
    while |v2Parts| < |v1Parts|
      invariant |v1Parts| >= |v2Parts|
      invariant PaddedCmp(v1Parts, v2Parts) == target
      decreases |v1Parts| - |v2Parts|
    {
      PaddedCmpAntisymmetric(v1Parts, v2Parts);
      PaddedCmpAntisymmetric(v1Parts, v2Parts + [0]);
      PadRight(v2Parts, v1Parts);
      v2Parts := v2Parts + [0];
    }
    var i := 0;
    while i < |v1Parts|
      invariant 0 <= i <= |v1Parts| == |v2Parts|
      invariant PaddedCmp(v1Parts[i..], v2Parts[i..]) == target
    {
      assert Tail(v1Parts[i..]) == v1Parts[i + 1..] && Tail(v2Parts[i..]) == v2Parts[i + 1..];
      if v1Parts[i] > v2Parts[i] {
        return 1;
      } else if v1Parts[i] < v2Parts[i] {
        return -1;
      }
      i := i + 1;
    }
    return 0;
  }

  /** Appending a zero component does not change the comparison. */
  lemma PadRight(a: seq<int>, b: seq<int>)
    ensures PaddedCmp(a + [0], b) == PaddedCmp(a, b)
  {
    forall j | 0 <= j < |a| + |b| + 1
      ensures At(a + [0], j) == At(a, j)
    {
    }
    PaddedCmpZero(a + [0], b);
    PaddedCmpZero(a, b);
    if PaddedCmp(a, b) != 0 {
      var k := FirstDiff(a, b, 0);
      forall j | 0 <= j < k
        ensures At(a + [0], j) == At(b, j)
      {
      }
      PaddedCmpDecides(a, b, k);
      PaddedCmpDecides(a + [0], b, k);
    }
  }

  /** The first position at or after `from` where the padded lists differ */
  function FirstDiff(a: seq<int>, b: seq<int>, from: nat): (k: nat)
    requires forall j :: 0 <= j < from ==> At(a, j) == At(b, j)
    requires exists j :: from <= j < |a| + |b| && At(a, j) != At(b, j)
    ensures from <= k < |a| + |b| && At(a, k) != At(b, k)
    ensures forall j :: 0 <= j < k ==> At(a, j) == At(b, j)
    decreases |a| + |b| - from
  {
    if At(a, from) != At(b, from) then from else FirstDiff(a, b, from + 1)
  }

  /* ---------- properties of compare_versions ---------- */

  /** The result is always 1, -1 or 0. */
  lemma VersionCompareRange(v1: string, v2: string)
    ensures VersionCompare(v1, v2) in {-1, 0, 1}
  {
  }

  /** Swapping the arguments negates the result, and a version equals
      itself. */
  lemma VersionCompareAntisymmetric(v1: string, v2: string)
    ensures VersionCompare(v1, v2) == -VersionCompare(v2, v1)
    ensures VersionCompare(v1, v1) == 0
  {
    if VersionParts(v1).Some? && VersionParts(v2).Some? {
      PaddedCmpAntisymmetric(VersionParts(v1).value, VersionParts(v2).value);
    }
    if VersionParts(v1).Some? {
      PaddedCmpZero(VersionParts(v1).value, VersionParts(v1).value);
    }
  }

  /** For numeric versions, the first differing component decides. */
  lemma VersionCompareFirstDifference(v1: string, v2: string, k: nat)
    requires VersionParts(v1).Some? && VersionParts(v2).Some?
    requires forall j :: 0 <= j < k ==> At(VersionParts(v1).value, j) == At(VersionParts(v2).value, j)
    requires At(VersionParts(v1).value, k) != At(VersionParts(v2).value, k)
    ensures VersionCompare(v1, v2) ==
      if At(VersionParts(v1).value, k) > At(VersionParts(v2).value, k) then 1 else -1
  {
    PaddedCmpDecides(VersionParts(v1).value, VersionParts(v2).value, k);
  }

  /** A numeric version equals itself with a trailing ".0" component
      ("1.2" against "1.2.0"). */
  lemma TrailingZeroEqual(v: string)
    requires VersionParts(v).Some?
    ensures VersionCompare(v, v + ".0") == 0
  {
    SplitAppend(v, "0", '.');
    assert v + ".0" == v + ['.'] + "0";
    var ps := Split(v, '.');
    SplitNoSep("0", '.');
    assert ParseInt("0") == Some(0);
    var a := VersionParts(v).value;
    var b := VersionParts(v + ".0").value;
    assert |b| == |a| + 1 && b[|a|] == 0;
    forall k | 0 <= k < |a| + |b|
      ensures At(a, k) == At(b, k)
    {
      if k < |a| {
        assert (ps + ["0"])[k] == ps[k];
      }
    }
    PaddedCmpZero(a, b);
  }

  /** A version of three digit groups parses to their three values. */
  lemma ThreeGroupParts(x: string, y: string, z: string)
    requires x != [] && y != [] && z != []
    requires AllDigits(x) && AllDigits(y) && AllDigits(z)
    ensures VersionParts(x + "." + y + "." + z) == Some([DigitsValue(x), DigitsValue(y), DigitsValue(z)])
  {
    ThreeGroupSplit(x, y, z);
    assert ParseInt(x) == Some(DigitsValue(x));
    assert ParseInt(y) == Some(DigitsValue(y));
    assert ParseInt(z) == Some(DigitsValue(z));
    ParseThree(x, y, z);
  }

  lemma ParseThree(x: string, y: string, z: string)
    requires ParseInt(x).Some? && ParseInt(y).Some? && ParseInt(z).Some?
    ensures ParseAll([x, y, z]) == Some([ParseInt(x).value, ParseInt(y).value, ParseInt(z).value])
  {
    var ps := [x, y, z];
    assert ps[0] == x && ps[1] == y && ps[2] == z;
    assert forall k :: 0 <= k < |ps| ==> ParseInt(ps[k]).Some?;
    var p := ParseAll(ps).value;
    assert |p| == 3;
    assert p[0] == ParseInt(ps[0]).value;
    assert p[1] == ParseInt(ps[1]).value;
    assert p[2] == ParseInt(ps[2]).value;
    assert p == [ParseInt(x).value, ParseInt(y).value, ParseInt(z).value];
  }

  /** Comparison is numeric, not textual: "1.10.0" is newer than "1.9.0",
      although it is the smaller string. */
  lemma NumericNotLexicographic()
    ensures VersionCompare("1.10.0", "1.9.0") == 1
    ensures StrLess("1.10.0", "1.9.0")
  {
    assert "1.10.0" == "1" + "." + "10" + "." + "0";
    assert "1.9.0" == "1" + "." + "9" + "." + "0";
    assert DigitsValue("1") == 1 && DigitsValue("10") == 10;
    assert DigitsValue("9") == 9 && DigitsValue("0") == 0;
    ThreeGroupParts("1", "10", "0");
    ThreeGroupParts("1", "9", "0");
    PaddedCmpDecides([1, 10, 0], [1, 9, 0], 1);
  }

  /* ---------- save_json_file: reorder every record's downloads ---------- */

  /** The loop over ["mac", "windows", "linux"] that rebuilds a downloads
      dictionary; used by `save_json_file`, `process_versions` and
      `_ensure_complete_downloads`. */
  method ReorderDownloads(downloads: Downloads) returns (ordered: Downloads)
    ensures ordered == Reorder(downloads)
  {
    ordered := [];
    for i := 0 to |PlatformOrder|
      invariant ordered == ReorderBy(downloads, PlatformOrder[..i])
      invariant forall j :: 0 <= j < |ordered| ==> ordered[j].0 in PlatformOrder[..i]
    {
      var platform := PlatformOrder[i];
      assert PlatformOrder[..i + 1][..i] == PlatformOrder[..i];
      if HasKey(downloads, platform) {
        assert !HasKey(ordered, platform);
        ordered := Put(ordered, platform, Lookup(downloads, platform).value);
      }
    }
    assert PlatformOrder[..|PlatformOrder|] == PlatformOrder;
  }

  /** The in-place rewrite of `version["downloads"]` for every record of
      `data["versions"]` in `save_json_file`. */
  method NormaliseVersions(versions: seq<VersionRecord>) returns (out: seq<VersionRecord>)
    ensures |out| == |versions|
    ensures forall i :: 0 <= i < |versions| ==> out[i] == Normalised(versions[i])
  {
    out := versions;
    for i := 0 to |out|
      invariant |out| == |versions|
      invariant forall j :: 0 <= j < i ==> out[j] == Normalised(versions[j])
      invariant forall j :: i <= j < |out| ==> out[j] == versions[j]
    {
      var ordered := ReorderDownloads(out[i].downloads);
      out := out[i := out[i].(downloads := ordered)];
    }
  }

  /** Saving normalises each record once and for all: normalising a
      normalised record changes nothing, and the per-platform dictionaries
      are those of the record before. */
  lemma NormalisedStable(r: VersionRecord, p: string)
    ensures Normalised(Normalised(r)) == Normalised(r)
    ensures Normalised(r).version == r.version && Normalised(r).date == r.date
      && Normalised(r).buildId == r.buildId
    ensures Lookup(Normalised(r).downloads, p) == if p in PlatformOrder then Lookup(r.downloads, p) else None
  {
    ReorderIdempotent(r.downloads);
    ReorderLookup(r.downloads, p);
  }
}
