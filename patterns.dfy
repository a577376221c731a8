/** The three regular expressions that `_fetch_all_platforms` searches
    download URLs with (src/scanner.py:128, 164-165, 177-178), written as
    hand-made scanners with `re.search` semantics: the leftmost position
    where the pattern matches wins, and the captured group is returned.

      WinVersion   CursorSetup-(?:x64|arm64)-(\d+\.\d+\.\d+)\.exe
      LinuxVersion Cursor-(\d+\.\d+\.\d+)-(?:x86_64|aarch64)\.AppImage
      BuildId      production/([a-f0-9]{40})/

    Every `\d+` here is followed by a non-digit, so only the longest run of
    digits can lead to a match and no backtracking is needed. */
module Patterns {
  import opened Base

  datatype Pattern = WinVersion | LinuxVersion | BuildId

  predicate IsLowerHex(c: char) {
    IsDigit(c) || 'a' <= c <= 'f'
  }

  /** `\d+\.\d+\.\d+` as a whole string: three non-empty digit groups */
  predicate IsDottedVersion(v: string) {
    var parts := Split(v, '.');
    |parts| == 3 && forall k :: 0 <= k < 3 ==> parts[k] != [] && AllDigits(parts[k])
  }

  /** A 40-character lower-case hexadecimal build id */
  predicate IsBuildId(h: string) {
    |h| == 40 && forall k :: 0 <= k < |h| ==> IsLowerHex(h[k])
  }

  /* ---------- what it means for a pattern to match at a position ---------- */

  /** The pattern matches at `i` and captures `v` */
  predicate Matches(p: Pattern, s: string, i: nat, v: string) {
    match p
    case WinVersion =>
      IsDottedVersion(v)
      && (StartsAt(s, i, WinX64 + v + ".exe") || StartsAt(s, i, WinArm64 + v + ".exe"))
    case LinuxVersion =>
      IsDottedVersion(v)
      && (StartsAt(s, i, LinuxPrefix + v + LinuxX64) || StartsAt(s, i, LinuxPrefix + v + LinuxArm64))
    case BuildId =>
      IsBuildId(v) && StartsAt(s, i, "production/" + v + "/")
  }

  /* ---------- the scanners ---------- */

  /** The end of the longest run of digits starting at `i` */
  function DigitsEnd(s: string, i: nat): (e: nat)
    requires i <= |s|
    ensures i <= e <= |s|
    ensures AllDigits(s[i..e])
    ensures e == |s| || !IsDigit(s[e])
    decreases |s| - i
  {
    if i < |s| && IsDigit(s[i]) then
      var e := DigitsEnd(s, i + 1);
      assert s[i..e] == [s[i]] + s[i + 1..e];
      e
    else i
  }

  /** `\d+\.\d+\.\d+` starting at `i`: where the match ends */
  function DottedEnd(s: string, i: nat): (e: Option<nat>)
    requires i <= |s|
    ensures e.Some? ==> i < e.value <= |s|
  {
    var e1 := DigitsEnd(s, i);
    if e1 == i || e1 == |s| || s[e1] != '.' then None
    else
      var e2 := DigitsEnd(s, e1 + 1);
      if e2 == e1 + 1 || e2 == |s| || s[e2] != '.' then None
      else
        var e3 := DigitsEnd(s, e2 + 1);
        if e3 == e2 + 1 then None else Some(e3)
  }

  /** What `DottedEnd` finds is a dotted version followed by a non-digit. */
  lemma DottedEndSound(s: string, i: nat)
    requires i <= |s| && DottedEnd(s, i).Some?
    ensures IsDottedVersion(s[i..DottedEnd(s, i).value])
    ensures DottedEnd(s, i).value == |s| || !IsDigit(s[DottedEnd(s, i).value])
  {
    var e1 := DigitsEnd(s, i);
    var e2 := DigitsEnd(s, e1 + 1);
    var e3 := DigitsEnd(s, e2 + 1);
    DottedSlice(s, i, e1, e2, e3);
  }

  lemma DottedSlice(s: string, i: nat, e1: nat, e2: nat, e3: nat)
    requires i < e1 < e2 < e3 <= |s|
    requires e1 + 1 < e2 && e2 + 1 < e3
    requires s[e1] == '.' && s[e2] == '.'
    requires AllDigits(s[i..e1]) && AllDigits(s[e1 + 1..e2]) && AllDigits(s[e2 + 1..e3])
    ensures IsDottedVersion(s[i..e3])
  {
    var x, y, z := s[i..e1], s[e1 + 1..e2], s[e2 + 1..e3];
    assert s[i..e3] == s[i..e1] + s[e1..e1 + 1] + s[e1 + 1..e2] + s[e2..e2 + 1] + s[e2 + 1..e3];
    assert s[e1..e1 + 1] == "." && s[e2..e2 + 1] == ".";
    assert s[i..e3] == x + "." + y + "." + z;
    assert '.' !in x && '.' !in y && '.' !in z by {
      assert !IsDigit('.');
    }
    ThreeGroupSplit(x, y, z);
  }

  const WinX64: string := "CursorSetup-x64-"
  const WinArm64: string := "CursorSetup-arm64-"
  const LinuxPrefix: string := "Cursor-"
  const LinuxX64: string := "-x86_64.AppImage"
  const LinuxArm64: string := "-aarch64.AppImage"

  /** `(\d+\.\d+\.\d+)` at `k` followed by one of two suffixes: the
      captured version */
  function VersionThen(s: string, k: nat, suffix1: string, suffix2: string): Option<string>
    requires k <= |s|
  {
    match DottedEnd(s, k)
    case None => None
    case Some(e) => if StartsAt(s, e, suffix1) || StartsAt(s, e, suffix2) then Some(s[k..e]) else None
  }

  /** The Windows version pattern at `i`: the captured version. The two
      alternatives differ at their 13th character, so at most one of them
      stands at `i`. */
  function WinVersionAt(s: string, i: nat): Option<string>
    requires i <= |s|
  {
    if StartsAt(s, i, WinX64) then VersionThen(s, i + |WinX64|, ".exe", ".exe")
    else if StartsAt(s, i, WinArm64) then VersionThen(s, i + |WinArm64|, ".exe", ".exe")
    else None
  }

  /** The Linux version pattern at `i`: the captured version */
  function LinuxVersionAt(s: string, i: nat): Option<string>
    requires i <= |s|
  {
    if StartsAt(s, i, LinuxPrefix) then VersionThen(s, i + |LinuxPrefix|, LinuxX64, LinuxArm64) else None
  }

  /** The build-id pattern at `i`: the captured 40 hex characters */
  function BuildIdAt(s: string, i: nat): Option<string>
    requires i <= |s|
  {
    if StartsAt(s, i, "production/") && i + 51 < |s|
       && (forall k :: i + 11 <= k < i + 51 ==> IsLowerHex(s[k])) && s[i + 51] == '/'
    then Some(s[i + 11..i + 51])
    else None
  }

  function MatchAt(p: Pattern, s: string, i: nat): Option<string>
    requires i <= |s|
  {
    match p
    case WinVersion => WinVersionAt(s, i)
    case LinuxVersion => LinuxVersionAt(s, i)
    case BuildId => BuildIdAt(s, i)
  }

  /** The leftmost position at or after `i` where the pattern matches */
  function FirstMatch(p: Pattern, s: string, i: nat): (r: Option<nat>)
    requires i <= |s|
    ensures r.Some? ==> i <= r.value <= |s| && MatchAt(p, s, r.value).Some?
    ensures forall j :: i <= j <= |s| && (r.None? || j < r.value) ==> MatchAt(p, s, j).None?
    decreases |s| - i
  {
    if MatchAt(p, s, i).Some? then Some(i)
    else if i == |s| then None
    else FirstMatch(p, s, i + 1)
  }

  /** `re.search(pattern, s).group(1)`, or None when there is no match:
      the capture at the leftmost matching position. */
  function Search(p: Pattern, s: string): (r: Option<string>)
    ensures r.None? ==> forall i :: 0 <= i <= |s| ==> MatchAt(p, s, i).None?
    ensures r.Some? ==>
      exists i :: 0 <= i <= |s| && MatchAt(p, s, i) == r && forall j :: 0 <= j < i ==> MatchAt(p, s, j).None?
  {
    match FirstMatch(p, s, 0)
    case None => None
    case Some(i) => MatchAt(p, s, i)
  }

  /* ---------- the scanners match exactly the patterns ---------- */

  lemma StartsAtConcat(s: string, i: nat, a: string, b: string)
    ensures StartsAt(s, i, a + b) <==> StartsAt(s, i, a) && StartsAt(s, i + |a|, b)
  {
    if StartsAt(s, i, a) && StartsAt(s, i + |a|, b) {
      assert s[i..i + |a + b|] == s[i..i + |a|] + s[i + |a|..i + |a| + |b|];
    }
    if StartsAt(s, i, a + b) {
      assert s[i..i + |a|] == s[i..i + |a + b|][..|a|];
      assert s[i + |a|..i + |a| + |b|] == s[i..i + |a + b|][|a|..];
    }
  }

  /** A digit run that ends at a non-digit is exactly what `DigitsEnd` finds. */
  lemma {:induction false} DigitsEndExact(s: string, k: nat, n: nat)
    requires k + n <= |s| && AllDigits(s[k..k + n])
    requires k + n == |s| || !IsDigit(s[k + n])
    ensures DigitsEnd(s, k) == k + n
    decreases n
  {
    if n > 0 {
      assert IsDigit(s[k..k + n][0]);
      assert s[k + 1..k + n] == s[k..k + n][1..];
      DigitsEndExact(s, k + 1, n - 1);
    }
  }

  /** A dotted version is three digit groups joined by dots. */
  lemma DottedGroups(v: string) returns (x: string, y: string, z: string)
    requires IsDottedVersion(v)
    ensures v == x + "." + y + "." + z
    ensures x != [] && y != [] && z != [] && AllDigits(x) && AllDigits(y) && AllDigits(z)
  {
    var parts := Split(v, '.');
    x, y, z := parts[0], parts[1], parts[2];
    JoinSplit(v, '.');
    assert parts == [x, y, z];
    assert parts[1..] == [y, z] && [y, z][1..] == [z];
    assert JoinWith([y, z], ".") == y + "." + z;
  }

  lemma StartsAtChar(s: string, i: nat, c: char)
    requires StartsAt(s, i, [c])
    ensures i < |s| && s[i] == c
  {
    assert s[i..i + 1][0] == s[i];
  }

  /** Three digit groups separated by dots at `k`, followed by a
      non-digit: `DottedEnd` finds their end. */
  lemma DottedEndOfGroups(s: string, k: nat, nx: nat, ny: nat, nz: nat)
    requires nx > 0 && ny > 0 && nz > 0 && k + nx + ny + nz + 2 <= |s|
    requires AllDigits(s[k..k + nx]) && s[k + nx] == '.'
    requires AllDigits(s[k + nx + 1..k + nx + 1 + ny]) && s[k + nx + 1 + ny] == '.'
    requires AllDigits(s[k + nx + ny + 2..k + nx + ny + nz + 2])
    requires k + nx + ny + nz + 2 == |s| || !IsDigit(s[k + nx + ny + nz + 2])
    ensures DottedEnd(s, k) == Some(k + nx + ny + nz + 2)
  {
    DigitsEndExact(s, k, nx);
    DigitsEndExact(s, k + nx + 1, ny);
    DigitsEndExact(s, k + nx + ny + 2, nz);
  }

  /** Where a dotted version `v` stands at `k`, followed by a non-digit,
      `DottedEnd` finds its end. */
  lemma DottedEndExact(s: string, k: nat, v: string)
    requires IsDottedVersion(v) && StartsAt(s, k, v)
    requires k + |v| == |s| || !IsDigit(s[k + |v|])
    ensures DottedEnd(s, k) == Some(k + |v|)
  {
    var x, y, z := DottedGroups(v);
    StartsAtConcat(s, k, x + "." + y + ".", z);
    StartsAtConcat(s, k, x + "." + y, ".");
    StartsAtConcat(s, k, x + ".", y);
    StartsAtConcat(s, k, x, ".");
    StartsAtChar(s, k + |x|, '.');
    StartsAtChar(s, k + |x| + 1 + |y|, '.');
    DottedEndOfGroups(s, k, |x|, |y|, |z|);
  }

  /** `a + v + b` stands at `i` when its three parts stand one after the other. */
  lemma StartsAt3(s: string, i: nat, a: string, v: string, b: string)
    ensures StartsAt(s, i, a + v + b) <==>
      StartsAt(s, i, a) && StartsAt(s, i + |a|, v) && StartsAt(s, i + |a| + |v|, b)
  {
    StartsAtConcat(s, i, a + v, b);
    StartsAtConcat(s, i, a, v);
  }

  /** The version step captures `v` exactly when a dotted `v` followed by
      one of the suffixes stands at `k`. */
  lemma VersionThenExact(s: string, k: nat, v: string, suffix1: string, suffix2: string)
    requires k <= |s|
    requires suffix1 != [] && !IsDigit(suffix1[0]) && suffix2 != [] && !IsDigit(suffix2[0])
    ensures VersionThen(s, k, suffix1, suffix2) == Some(v) <==>
      IsDottedVersion(v) && (StartsAt(s, k, v + suffix1) || StartsAt(s, k, v + suffix2))
  {
    StartsAtConcat(s, k, v, suffix1);
    StartsAtConcat(s, k, v, suffix2);
    if VersionThen(s, k, suffix1, suffix2) == Some(v) {
      DottedEndSound(s, k);
    }
    if IsDottedVersion(v) && (StartsAt(s, k, v + suffix1) || StartsAt(s, k, v + suffix2)) {
      var suffix := if StartsAt(s, k, v + suffix1) then suffix1 else suffix2;
      assert s[k + |v|..k + |v| + |suffix|][0] == s[k + |v|];
      DottedEndExact(s, k, v);
    }
  }

  /** Two literals that differ at position `n` do not both stand at `i`. */
  lemma StartsAtDiffer(s: string, i: nat, a: string, b: string, n: nat)
    requires n < |a| && n < |b| && a[n] != b[n]
    ensures !(StartsAt(s, i, a) && StartsAt(s, i, b))
  {
  }

  lemma WinVersionAtExact(s: string, i: nat, v: string)
    requires i <= |s|
    ensures WinVersionAt(s, i) == Some(v) <==> Matches(WinVersion, s, i, v)
  {
    StartsAt3(s, i, WinX64, v, ".exe");
    StartsAt3(s, i, WinArm64, v, ".exe");
    StartsAtConcat(s, i + |WinX64|, v, ".exe");
    StartsAtConcat(s, i + |WinArm64|, v, ".exe");
    StartsAtDiffer(s, i, WinX64, WinArm64, 12);
    if i + |WinX64| <= |s| {
      VersionThenExact(s, i + |WinX64|, v, ".exe", ".exe");
    }
    if i + |WinArm64| <= |s| {
      VersionThenExact(s, i + |WinArm64|, v, ".exe", ".exe");
    }
  }

  lemma LinuxVersionAtExact(s: string, i: nat, v: string)
    requires i <= |s|
    ensures LinuxVersionAt(s, i) == Some(v) <==> Matches(LinuxVersion, s, i, v)
  {
    StartsAt3(s, i, LinuxPrefix, v, LinuxX64);
    StartsAt3(s, i, LinuxPrefix, v, LinuxArm64);
    StartsAtConcat(s, i + |LinuxPrefix|, v, LinuxX64);
    StartsAtConcat(s, i + |LinuxPrefix|, v, LinuxArm64);
    if i + |LinuxPrefix| <= |s| {
      VersionThenExact(s, i + |LinuxPrefix|, v, LinuxX64, LinuxArm64);
    }
  }

  lemma BuildIdAtExact(s: string, i: nat, v: string)
    requires i <= |s|
    ensures BuildIdAt(s, i) == Some(v) <==> Matches(BuildId, s, i, v)
  {
    StartsAt3(s, i, "production/", v, "/");
    if BuildIdAt(s, i) == Some(v) {
      assert s[i + 11..i + 51] == v;
      assert forall k :: 0 <= k < 40 ==> v[k] == s[i + 11 + k];
    }
    if Matches(BuildId, s, i, v) {
      assert s[i + 11..i + 51] == v;
      assert forall k :: i + 11 <= k < i + 51 ==> s[k] == v[k - i - 11];
      assert s[i + 51..i + 52] == "/";
    }
  }

  /** Each scanner reports a capture exactly where its regular expression
      matches with that capture. */
  lemma MatchAtExact(p: Pattern, s: string, i: nat, v: string)
    requires i <= |s|
    ensures MatchAt(p, s, i) == Some(v) <==> Matches(p, s, i, v)
  {
    match p
    case WinVersion => WinVersionAtExact(s, i, v);
    case LinuxVersion => LinuxVersionAtExact(s, i, v);
    case BuildId => BuildIdAtExact(s, i, v);
  }
}
