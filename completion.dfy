/** `_ensure_complete_downloads` (src/scanner.py:204-253): every
    (platform, architecture) slot missing from the fetched downloads is
    filled with a URL built from the version and the build id, fetched URLs
    are never replaced, and the platforms are put in the order mac,
    windows, linux. */
module Completion {
  import opened Base
  import opened OrderedDict
  import opened Records
  import Utils

  const Host: string := "https://downloads.cursor.com/production/"

  function MacUrl(hash: string, arch: string): string {
    Host + hash + "/darwin/" + arch + "/Cursor-darwin-" + arch + ".dmg"
  }

  function WinUrl(version: string, hash: string, arch: string): string {
    Host + hash + "/win32/" + arch + "/system-setup/CursorSetup-" + arch + "-" + version + ".exe"
  }

  /** `fileArch` is the architecture as the AppImage file names it */
  function LinuxUrl(version: string, hash: string, arch: string, fileArch: string): string {
    Host + hash + "/linux/" + arch + "/Cursor-" + version + "-" + fileArch + ".AppImage"
  }

  /** The URL to synthesise for each architecture of each platform, in the
      order the source inserts them */
  function MacTemplate(hash: string): ArchUrls {
    [("universal", MacUrl(hash, "universal")), ("x64", MacUrl(hash, "x64")), ("arm64", MacUrl(hash, "arm64"))]
  }

  function WinTemplate(version: string, hash: string): ArchUrls {
    [("x64", WinUrl(version, hash, "x64")), ("arm64", WinUrl(version, hash, "arm64"))]
  }

  function LinuxTemplate(version: string, hash: string): ArchUrls {
    [("x64", LinuxUrl(version, hash, "x64", "x86_64")), ("arm64", LinuxUrl(version, hash, "arm64", "aarch64"))]
  }

  function Template(platform: string, version: string, hash: string): ArchUrls {
    if platform == Mac then MacTemplate(hash)
    else if platform == Windows then WinTemplate(version, hash)
    else LinuxTemplate(version, hash)
  }

  /** `for arch, url in template: if arch not in m: m[arch] = url` */
  function Fill(m: ArchUrls, t: ArchUrls): ArchUrls
    decreases |t|
  {
    if t == [] then m
    else Fill(if HasKey(m, t[0].0) then m else Put(m, t[0].0, t[0].1), t[1..])
  }

  /** The downloads after `_ensure_complete_downloads`, as a value */
  function CompleteDownloads(d: Downloads, version: string, hash: string): Downloads {
    CompleteWith(d, MacTemplate(hash), WinTemplate(version, hash), LinuxTemplate(version, hash))
  }

  /** Completion against any three templates, one per platform */
  function CompleteWith(d: Downloads, mac: ArchUrls, win: ArchUrls, linux: ArchUrls): Downloads {
    [(Mac, Fill(GetOrEmpty(d, Mac), mac)), (Windows, Fill(GetOrEmpty(d, Windows), win)), (Linux, Fill(GetOrEmpty(d, Linux), linux))]
  }

  /* ---------- properties of filling ---------- */

  /** Filling keeps what was there: a URL already present is not replaced,
      an architecture in neither is not invented, and a missing one gets
      its template URL. */
  lemma {:induction false} FillLookup(m: ArchUrls, t: ArchUrls, a: string)
    ensures Lookup(Fill(m, t), a) == if HasKey(m, a) then Lookup(m, a) else Lookup(t, a)
    decreases |t|
  {
    if t == [] {
      assert Fill(m, t) == m;
    } else {
      var (k, v) := t[0];
      assert Lookup(t, a) == if k == a then Some(v) else Lookup(t[1..], a);
      if HasKey(m, k) {
        assert Fill(m, t) == Fill(m, t[1..]);
        FillLookup(m, t[1..], a);
      } else {
        var m' := Put(m, k, v);
        assert Fill(m, t) == Fill(m', t[1..]);
        PutLookup(m, k, v, a);
        assert HasKey(m', a) <==> (a == k || HasKey(m, a));
        FillLookup(m', t[1..], a);
      }
    }
  }

  /** The fetched architectures keep their places at the front, in the
      order they were fetched; synthesised ones follow. */
  lemma {:induction false} FillPrefix(m: ArchUrls, t: ArchUrls)
    ensures |Fill(m, t)| >= |m| && Fill(m, t)[..|m|] == m
    decreases |t|
  {
    if t != [] {
      var m' := if HasKey(m, t[0].0) then m else Put(m, t[0].0, t[0].1);
      FillPrefix(m', t[1..]);
      assert m'[..|m|] == m;
    }
  }

  /** Filling preserves unique keys. */
  lemma {:induction false} FillUnique(m: ArchUrls, t: ArchUrls)
    requires UniqueKeys(m)
    ensures UniqueKeys(Fill(m, t))
    decreases |t|
  {
    if t != [] {
      var m' := if HasKey(m, t[0].0) then m else Put(m, t[0].0, t[0].1);
      if !HasKey(m, t[0].0) {
        PutUnique(m, t[0].0, t[0].1);
      }
      FillUnique(m', t[1..]);
    }
  }

  /* ---------- properties of the completed downloads ---------- */

  /** The platform keys after completion are mac, windows, linux, once
      each, and each platform holds its fetched dictionary filled from its
      template. */
  lemma CompleteWithShape(d: Downloads, mac: ArchUrls, win: ArchUrls, linux: ArchUrls, p: string)
    requires p in PlatformOrder
    ensures Keys(CompleteWith(d, mac, win, linux)) == PlatformOrder
    ensures UniqueKeys(CompleteWith(d, mac, win, linux))
    ensures Lookup(CompleteWith(d, mac, win, linux), p) ==
      Some(Fill(GetOrEmpty(d, p), if p == Mac then mac else if p == Windows then win else linux))
  {
    var c := CompleteWith(d, mac, win, linux);
    assert Keys(c) == [c[0].0] + Keys(c[1..]);
    assert Keys(c[1..]) == [c[1].0] + Keys(c[2..]);
    assert Keys(c[2..]) == [c[2].0] + Keys(c[3..]);
    var i := if p == Mac then 0 else if p == Windows then 1 else 2;
    assert c[i].0 == p;
  }

  /** Each (platform, arch) slot of the completed downloads holds the
      fetched URL if there was one, else the template URL, and nothing
      else: fetched URLs are never overwritten and no architecture outside
      the fetched ones and the template appears. */
  lemma CompleteDownloadsLookup(d: Downloads, version: string, hash: string, p: string, a: string)
    requires p in PlatformOrder
    ensures Keys(CompleteDownloads(d, version, hash)) == PlatformOrder
    ensures UniqueKeys(CompleteDownloads(d, version, hash))
    ensures Lookup(CompleteDownloads(d, version, hash), p) == Some(Fill(GetOrEmpty(d, p), Template(p, version, hash)))
    ensures Lookup(Fill(GetOrEmpty(d, p), Template(p, version, hash)), a) ==
      if HasKey(GetOrEmpty(d, p), a) then Lookup(GetOrEmpty(d, p), a)
      else Lookup(Template(p, version, hash), a)
  {
    var t := Template(p, version, hash);
    CompleteWithShape(d, MacTemplate(hash), WinTemplate(version, hash), LinuxTemplate(version, hash), p);
    FillLookup(GetOrEmpty(d, p), t, a);
  }

  /** When the fetched architectures of a platform are among the
      template's, the completed platform holds exactly the template's
      architectures. */
  lemma CompletedArchs(d: Downloads, version: string, hash: string, p: string, a: string)
    requires p in PlatformOrder
    requires forall b :: HasKey(GetOrEmpty(d, p), b) ==> HasKey(Template(p, version, hash), b)
    ensures HasKey(Fill(GetOrEmpty(d, p), Template(p, version, hash)), a)
      <==> HasKey(Template(p, version, hash), a)
  {
    CompleteDownloadsLookup(d, version, hash, p, a);
  }

  /** Reordering a dictionary whose three platforms hold the filled
      dictionaries gives the completed downloads. */
  lemma ReorderFilled(d: Downloads, downloads: Downloads, mac: ArchUrls, win: ArchUrls, linux: ArchUrls)
    requires Lookup(d, Mac) == Some(Fill(GetOrEmpty(downloads, Mac), mac))
    requires Lookup(d, Windows) == Some(Fill(GetOrEmpty(downloads, Windows), win))
    requires Lookup(d, Linux) == Some(Fill(GetOrEmpty(downloads, Linux), linux))
    ensures Reorder(d) == CompleteWith(downloads, mac, win, linux)
  {
    ReorderExplicit(d);
  }

  /** One platform's block of `_ensure_complete_downloads`: create the
      platform's dictionary if it is missing, then add each template URL
      whose architecture is missing. Other platforms are untouched. */
  method FillPlatform(d: Downloads, p: string, template: ArchUrls) returns (d': Downloads)
    ensures Lookup(d', p) == Some(Fill(GetOrEmpty(d, p), template))
    ensures forall q :: q != p ==> Lookup(d', q) == Lookup(d, q)
  {
    d' := d;
    if !HasKey(d', p) {
      PutLookup(d', p, [], p);
      forall q | q != p
        ensures Lookup(Put(d, p, []), q) == Lookup(d, q)
      {
        PutLookup(d, p, [], q);
      }
      d' := Put(d', p, []);
    }
    var urls := Lookup(d', p).value;
    for i := 0 to |template|
      invariant Fill(urls, template[i..]) == Fill(GetOrEmpty(d, p), template)
    {
      if !HasKey(urls, template[i].0) {
        urls := Put(urls, template[i].0, template[i].1);
      }
    }
    assert template[|template|..] == [];
    PutLookup(d', p, urls, p);
    forall q | q != p
      ensures Lookup(Put(d', p, urls), q) == Lookup(d', q)
    {
      PutLookup(d', p, urls, q);
    }
    d' := Put(d', p, urls);
  }

  /** `_ensure_complete_downloads(version_info, version, commit_hash)`:
      the three platform blocks, then the reordering. */
  method EnsureCompleteDownloads(downloads: Downloads, version: string, hash: string) returns (out: Downloads)
    ensures out == CompleteDownloads(downloads, version, hash)
  {
    out := CompleteAndReorder(downloads, MacTemplate(hash), WinTemplate(version, hash), LinuxTemplate(version, hash));
  }

  method CompleteAndReorder(downloads: Downloads, mac: ArchUrls, win: ArchUrls, linux: ArchUrls) returns (out: Downloads)
    ensures out == CompleteWith(downloads, mac, win, linux)
  {
    var d1 := FillPlatform(downloads, Mac, mac);
    var d2 := FillPlatform(d1, Windows, win);
    var d3 := FillPlatform(d2, Linux, linux);
    ReorderFilled(d3, downloads, mac, win, linux);
    out := Utils.ReorderDownloads(d3);
  }
}
