/** The pure half of `_fetch_all_platforms` (src/scanner.py:117-202):
    sorting the fetched URLs into per-platform dictionaries, and recovering
    the version and the build id from them, Windows first, Linux as a
    fallback. The network lookups themselves are an input: `FetchResults`
    maps a platform id to the URL its download endpoint answered with; an
    id that is absent stands for a failed lookup. */
module Extraction {
  import opened Base
  import opened OrderedDict
  import opened Records
  import opened Patterns

  type FetchResults = map<string, string>

  const WinPlatforms: seq<string> := ["win32-x64", "win32-arm64"]
  const MacPlatforms: seq<string> := ["darwin-universal", "darwin-x64", "darwin-arm64"]
  const MacDisplayNames: seq<string> := ["universal", "x64", "arm64"]
  const LinuxPlatforms: seq<string> := ["linux-x64", "linux-arm64"]
  /** The keys the Windows and Linux loops file URLs under: "x64" when the
      platform id contains "x64", "arm64" otherwise */
  const ArchKeys: seq<string> := ["x64", "arm64"]

  /** `url = await self._fetch_latest_download_url(platform); if url:` */
  function FetchedUrl(f: FetchResults, id: string): (r: Option<string>)
    ensures r.Some? <==> id in f && f[id] != ""
    ensures r.Some? ==> r.value == f[id]
  {
    if id in f && f[id] != "" then Some(f[id]) else None
  }

  /* ---------- sorting the URLs into platforms ---------- */

  /** A fetched URL the platform loop keeps. Windows URLs are kept only
      when the version pattern finds something in them. */
  function KeptUrl(f: FetchResults, id: string, winFilter: bool): (r: Option<string>)
    ensures r.Some? <==> FetchedUrl(f, id).Some? && (!winFilter || Search(WinVersion, FetchedUrl(f, id).value).Some?)
    ensures r.Some? ==> r == FetchedUrl(f, id)
  {
    match FetchedUrl(f, id)
    case None => None
    case Some(u) => if !winFilter || Search(WinVersion, u).Some? then Some(u) else None
  }

  /** A Windows URL the loop keeps holds `CursorSetup-x64-v.exe` or
      `CursorSetup-arm64-v.exe` somewhere, with `v` three dot-separated
      digit groups, and any other kept URL is the non-empty fetched one. */
  lemma KeptUrlMatches(f: FetchResults, id: string, winFilter: bool)
    requires KeptUrl(f, id, winFilter).Some?
    ensures id in f && KeptUrl(f, id, winFilter).value == f[id] != ""
    ensures winFilter ==>
      exists i, v :: 0 <= i <= |f[id]| && Matches(WinVersion, f[id], i, v)
  {
    if winFilter {
      var u := f[id];
      var i :| 0 <= i <= |u| && MatchAt(WinVersion, u, i) == Search(WinVersion, u);
      MatchAtExact(WinVersion, u, i, Search(WinVersion, u).value);
    }
  }

  /** The dictionary one platform loop builds: `urls[name] = url` for
      every kept URL, in the order of the platform ids */
  function Bucket(f: FetchResults, ids: seq<string>, names: seq<string>, winFilter: bool): ArchUrls
    requires |ids| == |names|
    decreases |ids|
  {
    if ids == [] then []
    else
      var n := |ids| - 1;
      var b := Bucket(f, ids[..n], names[..n], winFilter);
      match KeptUrl(f, ids[n], winFilter)
      case None => b
      case Some(u) => Put(b, names[n], u)
  }

  /** The names whose URL was kept, in table order */
  function KeptNames(f: FetchResults, ids: seq<string>, names: seq<string>, winFilter: bool): seq<string>
    requires |ids| == |names|
    decreases |ids|
  {
    if ids == [] then []
    else
      var n := |ids| - 1;
      KeptNames(f, ids[..n], names[..n], winFilter) + (if KeptUrl(f, ids[n], winFilter).Some? then [names[n]] else [])
  }

  predicate Distinct(names: seq<string>) {
    forall i, j :: 0 <= i < j < |names| ==> names[i] != names[j]
  }

  function WinBucket(f: FetchResults): ArchUrls {
    Bucket(f, WinPlatforms, ArchKeys, true)
  }

  function MacBucket(f: FetchResults): ArchUrls {
    Bucket(f, MacPlatforms, MacDisplayNames, false)
  }

  function LinuxBucket(f: FetchResults): ArchUrls {
    Bucket(f, LinuxPlatforms, ArchKeys, false)
  }

  /** Only names of the table appear as keys. */
  lemma {:induction false} BucketKeysIn(f: FetchResults, ids: seq<string>, names: seq<string>, winFilter: bool, a: string)
    requires |ids| == |names|
    ensures HasKey(Bucket(f, ids, names, winFilter), a) ==> a in names
    decreases |ids|
  {
    if ids != [] {
      var n := |ids| - 1;
      var b := Bucket(f, ids[..n], names[..n], winFilter);
      BucketKeysIn(f, ids[..n], names[..n], winFilter, a);
      match KeptUrl(f, ids[n], winFilter)
      case None =>
      case Some(u) =>
        PutLookup(b, names[n], u, a);
    }
  }

  /** With distinct names, the keys are the names whose URL was kept, in
      table order. */
  lemma {:induction false} BucketKeys(f: FetchResults, ids: seq<string>, names: seq<string>, winFilter: bool)
    requires |ids| == |names| && Distinct(names)
    ensures Keys(Bucket(f, ids, names, winFilter)) == KeptNames(f, ids, names, winFilter)
    decreases |ids|
  {
    if ids != [] {
      var n := |ids| - 1;
      BucketKeys(f, ids[..n], names[..n], winFilter);
      BucketKeysIn(f, ids[..n], names[..n], winFilter, names[n]);
    }
  }

  /** With distinct names, the bucket holds under each name the URL kept
      for its platform id. */
  lemma {:induction false} BucketLookup(f: FetchResults, ids: seq<string>, names: seq<string>, winFilter: bool, i: nat)
    requires |ids| == |names| && Distinct(names) && i < |ids|
    ensures Lookup(Bucket(f, ids, names, winFilter), names[i]) == KeptUrl(f, ids[i], winFilter)
    decreases |ids|
  {
    var n := |ids| - 1;
    var b := Bucket(f, ids[..n], names[..n], winFilter);
    if i < n {
      BucketLookup(f, ids[..n], names[..n], winFilter, i);
    } else {
      BucketKeysIn(f, ids[..n], names[..n], winFilter, names[n]);
    }
    match KeptUrl(f, ids[n], winFilter)
    case None =>
    case Some(u) =>
      PutLookup(b, names[n], u, names[i]);
  }

  /** Under each architecture, the Windows dictionary holds the URL
      fetched for it if that URL carries a version, and nothing else. */
  lemma WinBucketByArch(f: FetchResults, a: string)
    ensures Lookup(WinBucket(f), a) ==
      if a == "x64" then KeptUrl(f, "win32-x64", true)
      else if a == "arm64" then KeptUrl(f, "win32-arm64", true)
      else None
  {
    var names := ArchKeys;
    BucketKeysIn(f, WinPlatforms, names, true, a);
    BucketLookup(f, WinPlatforms, names, true, 0);
    BucketLookup(f, WinPlatforms, names, true, 1);
  }

  /** Under each display name, the mac dictionary holds the URL fetched
      for it, and nothing else. */
  lemma MacBucketByArch(f: FetchResults, a: string)
    ensures Lookup(MacBucket(f), a) ==
      if a == "universal" then FetchedUrl(f, "darwin-universal")
      else if a == "x64" then FetchedUrl(f, "darwin-x64")
      else if a == "arm64" then FetchedUrl(f, "darwin-arm64")
      else None
  {
    BucketKeysIn(f, MacPlatforms, MacDisplayNames, false, a);
    BucketLookup(f, MacPlatforms, MacDisplayNames, false, 0);
    BucketLookup(f, MacPlatforms, MacDisplayNames, false, 1);
    BucketLookup(f, MacPlatforms, MacDisplayNames, false, 2);
  }

  /** Under each architecture, the Linux dictionary holds the URL fetched
      for it, and nothing else. */
  lemma LinuxBucketByArch(f: FetchResults, a: string)
    ensures Lookup(LinuxBucket(f), a) ==
      if a == "x64" then FetchedUrl(f, "linux-x64")
      else if a == "arm64" then FetchedUrl(f, "linux-arm64")
      else None
  {
    var names := ArchKeys;
    BucketKeysIn(f, LinuxPlatforms, names, false, a);
    BucketLookup(f, LinuxPlatforms, names, false, 0);
    BucketLookup(f, LinuxPlatforms, names, false, 1);
  }

  /** `if win_urls: downloads["windows"] = win_urls`, then mac, then linux */
  function Assemble(win: ArchUrls, mac: ArchUrls, linux: ArchUrls): Downloads {
    (if win != [] then [(Windows, win)] else [])
    + (if mac != [] then [(Mac, mac)] else [])
    + (if linux != [] then [(Linux, linux)] else [])
  }

  /* ---------- recovering the version and the build id ---------- */

  /** What has been recovered so far */
  datatype Found = Found(version: Option<string>, hash: Option<string>) {
    predicate Complete() {
      version.Some? && hash.Some?
    }
  }

  /** One iteration of the Windows loop: a match replaces what was found */
  function WinStep(s: Found, url: string): Found {
    var vm := Search(WinVersion, url);
    var cm := Search(BuildId, url);
    Found(if vm.Some? then vm else s.version, if cm.Some? then cm else s.hash)
  }

  /** One iteration of the Linux loop: a match only fills what is missing */
  function LinuxStep(s: Found, url: string): Found {
    var vm := Search(LinuxVersion, url);
    var cm := Search(BuildId, url);
    Found(if vm.Some? && s.version.None? then vm else s.version,
          if cm.Some? && s.hash.None? then cm else s.hash)
  }

  /** A loop over URLs that skips empty ones and stops once both are found */
  function Pass(urls: seq<string>, s: Found, linux: bool): Found
    decreases |urls|
  {
    if urls == [] then s
    else if urls[0] == "" then Pass(urls[1..], s, linux)
    else
      var s' := if linux then LinuxStep(s, urls[0]) else WinStep(s, urls[0]);
      if s'.Complete() then s' else Pass(urls[1..], s', linux)
  }

  /** Windows first; Linux only when something is still missing */
  function Extract(winUrls: seq<string>, linuxUrls: seq<string>): Found {
    var s := Pass(winUrls, Found(None, None), false);
    if s.Complete() then s else Pass(linuxUrls, s, true)
  }

  /** What `Search` captures is what its pattern describes. */
  lemma SearchShape(p: Pattern, url: string)
    requires Search(p, url).Some?
    ensures p != BuildId ==> IsDottedVersion(Search(p, url).value)
    ensures p == BuildId ==> IsBuildId(Search(p, url).value)
  {
    var i :| 0 <= i <= |url| && MatchAt(p, url, i) == Search(p, url);
    MatchAtExact(p, url, i, Search(p, url).value);
  }

  /** `url` yields `v` for the version pattern of its platform */
  predicate VersionFrom(url: string, linux: bool, v: string) {
    Search(if linux then LinuxVersion else WinVersion, url) == Some(v)
  }

  /** The Linux pass never replaces what the Windows pass found. */
  lemma {:induction false} LinuxPassKeeps(urls: seq<string>, s: Found)
    ensures s.version.Some? ==> Pass(urls, s, true).version == s.version
    ensures s.hash.Some? ==> Pass(urls, s, true).hash == s.hash
    decreases |urls|
  {
    if urls != [] {
      if urls[0] == "" {
        LinuxPassKeeps(urls[1..], s);
      } else {
        LinuxPassKeeps(urls[1..], LinuxStep(s, urls[0]));
      }
    }
  }

  /** Everything a pass finds was there before or comes from one of its
      URLs. */
  lemma {:induction false} PassSound(urls: seq<string>, s: Found, linux: bool)
    ensures var r := Pass(urls, s, linux);
      (r.version.Some? ==> r.version == s.version || exists u :: u in urls && VersionFrom(u, linux, r.version.value))
      && (r.hash.Some? ==> r.hash == s.hash || exists u :: u in urls && Search(BuildId, u) == r.hash)
    decreases |urls|
  {
    if urls != [] {
      var s' := if urls[0] == "" then s else if linux then LinuxStep(s, urls[0]) else WinStep(s, urls[0]);
      PassSound(urls[1..], s', linux);
      var r := Pass(urls, s, linux);
      assert r == Pass(urls[1..], s', linux) || r == s';
      assert forall u :: u in urls[1..] ==> u in urls;
      if r.version.Some? && r.version != s.version && r.version == s'.version {
        assert VersionFrom(urls[0], linux, r.version.value);
      }
      if r.hash.Some? && r.hash != s.hash && r.hash == s'.hash {
        assert Search(BuildId, urls[0]) == r.hash;
      }
    }
  }

  /** Whatever extraction recovers has the shape of a version and of a
      build id, and was read from one of the fetched URLs. */
  lemma ExtractSound(winUrls: seq<string>, linuxUrls: seq<string>)
    ensures var r := Extract(winUrls, linuxUrls);
      (r.version.Some? ==>
        IsDottedVersion(r.version.value)
        && ((exists u :: u in winUrls && VersionFrom(u, false, r.version.value))
            || (exists u :: u in linuxUrls && VersionFrom(u, true, r.version.value))))
      && (r.hash.Some? ==>
        IsBuildId(r.hash.value)
        && exists u :: (u in winUrls || u in linuxUrls) && Search(BuildId, u) == r.hash)
  {
    var s := Pass(winUrls, Found(None, None), false);
    PassSound(winUrls, Found(None, None), false);
    PassSound(linuxUrls, s, true);
    var r := Extract(winUrls, linuxUrls);
    if r.version.Some? {
      if u :| u in winUrls && VersionFrom(u, false, r.version.value) {
        SearchShape(WinVersion, u);
      } else {
        var u :| u in linuxUrls && VersionFrom(u, true, r.version.value);
        SearchShape(LinuxVersion, u);
      }
    }
    if r.hash.Some? {
      var u :| (u in winUrls || u in linuxUrls) && Search(BuildId, u) == r.hash;
      SearchShape(BuildId, u);
    }
  }

  /** A pass never loses a value once it holds one. */
  lemma {:induction false} PassKeepsFound(urls: seq<string>, s: Found, linux: bool)
    ensures s.version.Some? ==> Pass(urls, s, linux).version.Some?
    ensures s.hash.Some? ==> Pass(urls, s, linux).hash.Some?
    decreases |urls|
  {
    if urls != [] {
      var s' := if urls[0] == "" then s else if linux then LinuxStep(s, urls[0]) else WinStep(s, urls[0]);
      PassKeepsFound(urls[1..], s', linux);
    }
  }

  /** A pass finds a version when one of its non-empty URLs carries one, and
      a build id when one of them carries one. */
  lemma {:induction false} PassFinds(urls: seq<string>, s: Found, linux: bool, u: string)
    requires u in urls && u != ""
    ensures Search(if linux then LinuxVersion else WinVersion, u).Some? ==> Pass(urls, s, linux).version.Some?
    ensures Search(BuildId, u).Some? ==> Pass(urls, s, linux).hash.Some?
    decreases |urls|
  {
    var s' := if urls[0] == "" then s else if linux then LinuxStep(s, urls[0]) else WinStep(s, urls[0]);
    if urls[0] == u {
      PassKeepsFound(urls[1..], s', linux);
    } else {
      PassFinds(urls[1..], s', linux, u);
    }
  }

  /** No pattern matches in the empty string. */
  lemma SearchEmpty(p: Pattern)
    ensures Search(p, "") == None
  {
    assert MatchAt(p, "", 0) == None;
  }

  /** Extraction recovers a version exactly when some Windows URL or some
      Linux URL carries one, and a build id exactly when some fetched URL
      carries one: nothing a URL offers is missed. */
  lemma ExtractComplete(winUrls: seq<string>, linuxUrls: seq<string>)
    ensures Extract(winUrls, linuxUrls).version.Some? <==>
      (exists u :: u in winUrls && Search(WinVersion, u).Some?)
      || (exists u :: u in linuxUrls && Search(LinuxVersion, u).Some?)
    ensures Extract(winUrls, linuxUrls).hash.Some? <==>
      exists u :: (u in winUrls || u in linuxUrls) && Search(BuildId, u).Some?
  {
    var s := Pass(winUrls, Found(None, None), false);
    var r := Extract(winUrls, linuxUrls);
    PassSound(winUrls, Found(None, None), false);
    PassSound(linuxUrls, s, true);
    if !s.Complete() {
      PassKeepsFound(linuxUrls, s, true);
    }
    SearchEmpty(WinVersion);
    SearchEmpty(LinuxVersion);
    SearchEmpty(BuildId);
    if u :| u in winUrls && Search(WinVersion, u).Some? {
      PassFinds(winUrls, Found(None, None), false, u);
    }
    if u :| u in linuxUrls && Search(LinuxVersion, u).Some? {
      if !s.Complete() {
        PassFinds(linuxUrls, s, true, u);
      }
    }
    if u :| u in winUrls && Search(BuildId, u).Some? {
      PassFinds(winUrls, Found(None, None), false, u);
    }
    if u :| u in linuxUrls && Search(BuildId, u).Some? {
      if !s.Complete() {
        PassFinds(linuxUrls, s, true, u);
      }
    }
  }

  /** The capture of the last URL in `urls` that carries one */
  function LastCapture(p: Pattern, urls: seq<string>): Option<string>
    decreases |urls|
  {
    if urls == [] then None
    else
      var later := LastCapture(p, urls[1..]);
      if later.Some? then later else Search(p, urls[0])
  }

  /** The Windows loop overwrites: a pass that never holds both values ends
      with the version of the last URL carrying one, and the build id of
      the last URL carrying one, keeping what it started with only when no
      URL carries any. */
  lemma {:induction false} WinPassLast(urls: seq<string>, s: Found)
    requires !Pass(urls, s, false).Complete()
    ensures Pass(urls, s, false).version ==
      if LastCapture(WinVersion, urls).Some? then LastCapture(WinVersion, urls) else s.version
    ensures Pass(urls, s, false).hash ==
      if LastCapture(BuildId, urls).Some? then LastCapture(BuildId, urls) else s.hash
    decreases |urls|
  {
    if urls != [] {
      if urls[0] == "" {
        SearchEmpty(WinVersion);
        SearchEmpty(BuildId);
        WinPassLast(urls[1..], s);
      } else {
        var s' := WinStep(s, urls[0]);
        assert !s'.Complete();
        WinPassLast(urls[1..], s');
      }
    }
  }

  /** A later Windows URL's version replaces an earlier one's: with `u1`
      carrying only a version and `u2` carrying both, `u2` decides. */
  lemma WinLaterWins(u1: string, u2: string, linuxUrls: seq<string>)
    requires u1 != "" && u2 != ""
    requires Search(WinVersion, u1).Some? && Search(BuildId, u1).None?
    requires Search(WinVersion, u2).Some? && Search(BuildId, u2).Some?
    ensures Extract([u1, u2], linuxUrls) == Found(Search(WinVersion, u2), Search(BuildId, u2))
  {
    var s1 := WinStep(Found(None, None), u1);
    assert !s1.Complete();
    assert [u1, u2][1..] == [u2];
    assert Pass([u1, u2], Found(None, None), false) == Pass([u2], s1, false);
    assert [u2][1..] == [];
  }

  /** A pass over `a + b` is the pass over `a`, continued over `b` only
      when `a` did not already supply both values: the loop stops at the
      first URL after which both are held. */
  lemma {:induction false} PassConcat(a: seq<string>, b: seq<string>, s: Found, linux: bool)
    requires !s.Complete()
    ensures Pass(a + b, s, linux) ==
      if Pass(a, s, linux).Complete() then Pass(a, s, linux) else Pass(b, Pass(a, s, linux), linux)
    decreases |a|
  {
    if a == [] {
      assert a + b == b;
    } else {
      assert (a + b)[0] == a[0];
      assert (a + b)[1..] == a[1..] + b;
      var s' := if a[0] == "" then s else if linux then LinuxStep(s, a[0]) else WinStep(s, a[0]);
      if !s'.Complete() {
        PassConcat(a[1..], b, s', linux);
      }
    }
  }

  /** The Windows loop breaks at the first URL carrying both values: a
      later URL carrying both does not replace them. */
  lemma FirstBothWins(u1: string, u2: string)
    requires u1 != ""
    requires Search(WinVersion, u1).Some? && Search(BuildId, u1).Some?
    ensures Pass([u1, u2], Found(None, None), false) == Found(Search(WinVersion, u1), Search(BuildId, u1))
  {
  }

  /** Once a URL of the pass yields both a version and a build id, the
      pass ends with both. */
  lemma {:induction false} PassCompletes(urls: seq<string>, s: Found, linux: bool, u: string)
    requires u in urls && u != ""
    requires Search(if linux then LinuxVersion else WinVersion, u).Some? && Search(BuildId, u).Some?
    ensures Pass(urls, s, linux).Complete()
    decreases |urls|
  {
    if urls[0] != u {
      var s' := if urls[0] == "" then s else if linux then LinuxStep(s, urls[0]) else WinStep(s, urls[0]);
      if !(urls[0] != "" && s'.Complete()) {
        PassCompletes(urls[1..], s', linux, u);
      }
    }
  }

  /** A Windows URL carrying both the version and the build id decides
      both: the Linux URLs are then not consulted. */
  lemma WindowsPreferred(winUrls: seq<string>, linuxUrls: seq<string>, u: string)
    requires u in winUrls && u != ""
    requires Search(WinVersion, u).Some? && Search(BuildId, u).Some?
    ensures Extract(winUrls, linuxUrls) == Pass(winUrls, Found(None, None), false)
    ensures Extract(winUrls, linuxUrls).Complete()
  {
    PassCompletes(winUrls, Found(None, None), false, u);
  }

  /* ---------- the loops ---------- */

  /** A platform loop of `_fetch_all_platforms` */
  method CollectUrls(f: FetchResults, ids: seq<string>, names: seq<string>, winFilter: bool) returns (urls: ArchUrls)
    requires |ids| == |names|
    ensures urls == Bucket(f, ids, names, winFilter)
  {
    urls := [];
    for i := 0 to |ids|
      invariant urls == Bucket(f, ids[..i], names[..i], winFilter)
    {
      assert ids[..i + 1][..i] == ids[..i] && names[..i + 1][..i] == names[..i];
      var fetched := FetchedUrl(f, ids[i]);
      if fetched.Some? {
        var url := fetched.value;
        if !winFilter || Search(WinVersion, url).Some? {
          urls := Put(urls, names[i], url);
        }
      }
    }
    assert ids[..|ids|] == ids && names[..|names|] == names;
  }

  /** The two extraction loops of `_fetch_all_platforms`, with their
      `break`s */
  method ExtractVersion(winUrls: seq<string>, linuxUrls: seq<string>) returns (version: Option<string>, hash: Option<string>)
    ensures Found(version, hash) == Extract(winUrls, linuxUrls)
  {
    version, hash := None, None;
    var i := 0;
    while i < |winUrls|
      invariant 0 <= i <= |winUrls|
      invariant Pass(winUrls[i..], Found(version, hash), false) == Pass(winUrls, Found(None, None), false)
      invariant !Found(version, hash).Complete()
    {
      var url := winUrls[i];
      assert winUrls[i..][1..] == winUrls[i + 1..];
      if url != "" {
        var versionMatch := Search(WinVersion, url);
        var commitMatch := Search(BuildId, url);
        if versionMatch.Some? {
          version := versionMatch;
        }
        if commitMatch.Some? {
          hash := commitMatch;
        }
        if version.Some? && hash.Some? {
          break;
        }
      }
      i := i + 1;
    }
    assert Found(version, hash) == Pass(winUrls, Found(None, None), false);
    if version.None? || hash.None? {
      ghost var s := Found(version, hash);
      var j := 0;
      while j < |linuxUrls|
        invariant 0 <= j <= |linuxUrls|
        invariant Pass(linuxUrls[j..], Found(version, hash), true) == Pass(linuxUrls, s, true)
        invariant !Found(version, hash).Complete()
      {
        var url := linuxUrls[j];
        assert linuxUrls[j..][1..] == linuxUrls[j + 1..];
        if url != "" {
          var versionMatch := Search(LinuxVersion, url);
          var commitMatch := Search(BuildId, url);
          if versionMatch.Some? && version.None? {
            version := versionMatch;
          }
          if commitMatch.Some? && hash.None? {
            hash := commitMatch;
          }
          if version.Some? && hash.Some? {
            break;
          }
        }
        j := j + 1;
      }
    }
  }
}
