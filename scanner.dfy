/** `CursorVersionScanner` (src/scanner.py): the in-memory version data,
    the assembly of a new version record from the fetched download URLs,
    the merge of new records into the known ones, and the update that
    saves the result. The fetches, the clock and the outcome of the file
    write are parameters. */
module Scanner {
  import opened Base
  import opened OrderedDict
  import opened Records
  import opened Patterns
  import opened Utils
  import opened Extraction
  import opened Completion
  import opened VersionSort

  /* ---------- the new record ---------- */

  /** The per-architecture dictionary fetched for a platform */
  function BucketOf(f: FetchResults, p: string): ArchUrls {
    if p == Mac then MacBucket(f) else if p == Windows then WinBucket(f) else LinuxBucket(f)
  }

  /** What `_fetch_all_platforms` returns: no record when the version or
      the build id could not be recovered, else one record dated `today`
      whose downloads are the fetched ones, completed. */
  function FetchSpec(f: FetchResults, today: string): seq<VersionRecord> {
    var win := WinBucket(f);
    var mac := MacBucket(f);
    var linux := LinuxBucket(f);
    var found := Extract(Values(win), Values(linux));
    if !found.Complete() then []
    else
      [VersionRecord(found.version, Some(today), found.hash,
         CompleteDownloads(Assemble(win, mac, linux), found.version.value, found.hash.value))]
  }

  /** The dictionary assembled from the three loops holds each non-empty
      one under its platform. */
  lemma AssembleLookup(win: ArchUrls, mac: ArchUrls, linux: ArchUrls)
    ensures GetOrEmpty(Assemble(win, mac, linux), Windows) == win
    ensures GetOrEmpty(Assemble(win, mac, linux), Mac) == mac
    ensures GetOrEmpty(Assemble(win, mac, linux), Linux) == linux
  {
    var d := Assemble(win, mac, linux);
    var w := if win != [] then 1 else 0;
    var m := if mac != [] then 1 else 0;
    if win != [] {
      assert d[0] == (Windows, win);
    }
    if mac != [] {
      assert d[w] == (Mac, mac);
    }
    if linux != [] {
      assert d[w + m] == (Linux, linux);
    }
  }

  /** A dotted version is what `compare_versions` can parse: three
      non-negative components. */
  lemma DottedVersionParses(v: string)
    requires IsDottedVersion(v)
    ensures VersionParts(v).Some? && |VersionParts(v).value| == 3
    ensures forall k :: 0 <= k < 3 ==> VersionParts(v).value[k] >= 0
  {
    var parts := Split(v, '.');
    forall k | 0 <= k < |parts|
      ensures ParseInt(parts[k]) == Some(DigitsValue(parts[k]))
    {
      assert IsDigit(parts[k][0]);
    }
  }

  /** A new record, when there is one, carries a well-formed version that
      `compare_versions` parses, a 40-digit build id, today's date, and the
      three platforms in canonical order. */
  lemma FetchSpecShape(f: FetchResults, today: string)
    ensures |FetchSpec(f, today)| <= 1
    ensures FetchSpec(f, today) == [] <==> !Extract(Values(WinBucket(f)), Values(LinuxBucket(f))).Complete()
    ensures FetchSpec(f, today) != [] ==>
      var r := FetchSpec(f, today)[0];
      r.version.Some? && IsDottedVersion(r.version.value) && VersionParts(r.version.value).Some?
      && r.buildId.Some? && IsBuildId(r.buildId.value)
      && r.version == Extract(Values(WinBucket(f)), Values(LinuxBucket(f))).version
      && r.buildId == Extract(Values(WinBucket(f)), Values(LinuxBucket(f))).hash
      && r.date == Some(today)
      && Keys(r.downloads) == PlatformOrder
  {
    var found := Extract(Values(WinBucket(f)), Values(LinuxBucket(f)));
    ExtractSound(Values(WinBucket(f)), Values(LinuxBucket(f)));
    if found.Complete() {
      DottedVersionParses(found.version.value);
      CompleteWithShape(Assemble(WinBucket(f), MacBucket(f), LinuxBucket(f)),
        MacTemplate(found.hash.value), WinTemplate(found.version.value, found.hash.value),
        LinuxTemplate(found.version.value, found.hash.value), Mac);
    }
  }

  /** In the new record each (platform, arch) slot holds the URL fetched
      for it, and a URL built from the version and build id where nothing
      was fetched. */
  lemma FetchSpecDownloads(f: FetchResults, today: string, p: string, a: string)
    requires FetchSpec(f, today) != [] && p in PlatformOrder
    ensures var r := FetchSpec(f, today)[0];
      Lookup(r.downloads, p).Some?
      && Lookup(Lookup(r.downloads, p).value, a) ==
        if HasKey(BucketOf(f, p), a) then Lookup(BucketOf(f, p), a)
        else Lookup(Template(p, r.version.value, r.buildId.value), a)
  {
    var r := FetchSpec(f, today)[0];
    var d := Assemble(WinBucket(f), MacBucket(f), LinuxBucket(f));
    AssembleLookup(WinBucket(f), MacBucket(f), LinuxBucket(f));
    assert GetOrEmpty(d, p) == BucketOf(f, p);
    CompleteDownloadsLookup(d, r.version.value, r.buildId.value, p, a);
  }

  /** The architecture names a platform's loop files URLs under */
  function ArchNames(p: string): seq<string> {
    if p == Mac then MacDisplayNames else ArchKeys
  }

  /** Each template covers exactly the architecture names of its platform. */
  lemma TemplateKeys(p: string, version: string, hash: string, a: string)
    requires p in PlatformOrder
    ensures HasKey(Template(p, version, hash), a) <==> a in ArchNames(p)
  {
    var t := Template(p, version, hash);
    var names := ArchNames(p);
    assert |t| == |names| && forall i :: 0 <= i < |t| ==> t[i].0 == names[i];
    if a in names {
      var i :| 0 <= i < |names| && names[i] == a;
      assert t[i].0 == a;
    }
  }

  /** Only names of its platform's table are keys of a fetched bucket. */
  lemma BucketOfKeys(f: FetchResults, p: string, a: string)
    requires p in PlatformOrder
    ensures HasKey(BucketOf(f, p), a) ==> a in ArchNames(p)
  {
    if p == Mac {
      BucketKeysIn(f, MacPlatforms, MacDisplayNames, false, a);
    } else if p == Windows {
      BucketKeysIn(f, WinPlatforms, ArchKeys, true, a);
    } else {
      BucketKeysIn(f, LinuxPlatforms, ArchKeys, false, a);
    }
  }

  /** In the new record every platform offers exactly its own
      architectures: universal, x64 and arm64 for mac, x64 and arm64 for
      windows and linux, whichever of them were fetched. */
  lemma FetchSpecArchs(f: FetchResults, today: string, p: string, a: string)
    requires FetchSpec(f, today) != [] && p in PlatformOrder
    ensures var r := FetchSpec(f, today)[0];
      Lookup(r.downloads, p).Some?
      && (HasKey(Lookup(r.downloads, p).value, a) <==> a in ArchNames(p))
  {
    var r := FetchSpec(f, today)[0];
    var v, h := r.version.value, r.buildId.value;
    var d := Assemble(WinBucket(f), MacBucket(f), LinuxBucket(f));
    AssembleLookup(WinBucket(f), MacBucket(f), LinuxBucket(f));
    assert GetOrEmpty(d, p) == BucketOf(f, p);
    CompleteDownloadsLookup(d, v, h, p, a);
    forall b | HasKey(GetOrEmpty(d, p), b)
      ensures HasKey(Template(p, v, h), b)
    {
      BucketOfKeys(f, p, b);
      TemplateKeys(p, v, h, b);
    }
    CompletedArchs(d, v, h, p, a);
    TemplateKeys(p, v, h, a);
  }

  /* ---------- merging ---------- */

  /** Some known record has this `version` value (both may be missing) */
  predicate Exists(existing: seq<VersionRecord>, v: Option<string>) {
    exists i :: 0 <= i < |existing| && existing[i].version == v
  }

  /** The new records that are not known yet, with their platforms in
      canonical order */
  function Fresh(existing: seq<VersionRecord>, newVersions: seq<VersionRecord>): seq<VersionRecord>
    decreases |newVersions|
  {
    if newVersions == [] then []
    else
      var n := |newVersions| - 1;
      Fresh(existing, newVersions[..n])
      + (if Exists(existing, newVersions[n].version) then [] else [Normalised(newVersions[n])])
  }

  /** What `process_versions` returns */
  function Process(existing: seq<VersionRecord>, newVersions: seq<VersionRecord>): seq<VersionRecord> {
    if newVersions == [] then [] else SortDesc(existing + Fresh(existing, newVersions))
  }

  /** The records saved: every record normalised */
  function NormaliseAll(s: seq<VersionRecord>): (r: seq<VersionRecord>)
    ensures |r| == |s|
    ensures forall i :: 0 <= i < |s| ==> r[i] == Normalised(s[i])
  {
    seq(|s|, i requires 0 <= i < |s| => Normalised(s[i]))
  }

  /** `n` is merged, as `x`, into a list holding `existing` */
  predicate Merges(existing: seq<VersionRecord>, n: VersionRecord, x: VersionRecord) {
    x == Normalised(n) && !Exists(existing, n.version)
  }

  /** A record is merged exactly when its version is not known yet. */
  lemma {:induction false} FreshMembers(existing: seq<VersionRecord>, newVersions: seq<VersionRecord>, x: VersionRecord)
    ensures x in Fresh(existing, newVersions) <==>
      exists k :: 0 <= k < |newVersions| && Merges(existing, newVersions[k], x)
    decreases |newVersions|
  {
    if newVersions != [] {
      var n := |newVersions| - 1;
      var init := newVersions[..n];
      FreshMembers(existing, init, x);
      assert forall k :: 0 <= k < n ==> init[k] == newVersions[k];
      assert x in Fresh(existing, newVersions) <==> x in Fresh(existing, init) || Merges(existing, newVersions[n], x);
    }
  }

  /** When every new version is already known, nothing is merged. */
  lemma {:induction false} FreshEmpty(existing: seq<VersionRecord>, newVersions: seq<VersionRecord>)
    requires forall k :: 0 <= k < |newVersions| ==> Exists(existing, newVersions[k].version)
    ensures Fresh(existing, newVersions) == []
    decreases |newVersions|
  {
    if newVersions != [] {
      var n := |newVersions| - 1;
      assert forall k :: 0 <= k < n ==> newVersions[..n][k] == newVersions[k];
      FreshEmpty(existing, newVersions[..n]);
    }
  }

  /** The merged list is in descending key order. */
  lemma ProcessSorted(existing: seq<VersionRecord>, newVersions: seq<VersionRecord>)
    ensures SortedDesc(Process(existing, newVersions))
  {
    if newVersions != [] {
      SortDescSorted(existing + Fresh(existing, newVersions));
    }
  }

  /** The merged list holds the known records, none dropped or repeated,
      plus the new records whose versions were not known. */
  lemma ProcessContents(existing: seq<VersionRecord>, newVersions: seq<VersionRecord>)
    requires newVersions != []
    ensures multiset(Process(existing, newVersions)) == multiset(existing) + multiset(Fresh(existing, newVersions))
  {
    SortDescPermutation(existing + Fresh(existing, newVersions));
  }

  /** Every version that was in the list or was fetched is in the merged
      list. */
  lemma ProcessCovers(existing: seq<VersionRecord>, newVersions: seq<VersionRecord>, k: nat)
    requires newVersions != [] && k < |newVersions|
    ensures Exists(Process(existing, newVersions), newVersions[k].version)
  {
    var r := Process(existing, newVersions);
    ProcessContents(existing, newVersions);
    if Exists(existing, newVersions[k].version) {
      var i :| 0 <= i < |existing| && existing[i].version == newVersions[k].version;
      assert existing[i] in multiset(r);
      var j :| 0 <= j < |r| && r[j] == existing[i];
    } else {
      var x := Normalised(newVersions[k]);
      FreshMembers(existing, newVersions, x);
      assert Merges(existing, newVersions[k], x);
      assert x in multiset(r);
      var j :| 0 <= j < |r| && r[j] == x;
    }
  }

  /** Merging the same fetch a second time changes nothing. */
  lemma ProcessIdempotent(existing: seq<VersionRecord>, newVersions: seq<VersionRecord>)
    requires newVersions != []
    ensures Process(Process(existing, newVersions), newVersions) == Process(existing, newVersions)
  {
    var r := Process(existing, newVersions);
    forall k | 0 <= k < |newVersions|
      ensures Exists(r, newVersions[k].version)
    {
      ProcessCovers(existing, newVersions, k);
    }
    FreshEmpty(r, newVersions);
    assert r + [] == r;
    ProcessSorted(existing, newVersions);
    SortDescOfSorted(r);
  }

  /* ---------- the saved list ---------- */

  /** Normalising keeps versions, so it keeps the order. */
  lemma NormaliseAllSorted(s: seq<VersionRecord>)
    requires SortedDesc(s)
    ensures SortedDesc(NormaliseAll(s))
  {
    var r := NormaliseAll(s);
    forall i, j | 0 <= i < j < |r|
      ensures Before(r[i], r[j])
    {
      assert SortKey(r[i]) == SortKey(s[i]) && SortKey(r[j]) == SortKey(s[j]);
    }
  }

  /** The list an update leaves behind */
  function Updated(existing: seq<VersionRecord>, newVersions: seq<VersionRecord>): seq<VersionRecord> {
    NormaliseAll(Process(existing, newVersions))
  }

  /** After an update the list is in descending order and every known
      record is still there, normalised. */
  lemma UpdatedShape(existing: seq<VersionRecord>, newVersions: seq<VersionRecord>, i: nat)
    requires newVersions != [] && i < |existing|
    ensures SortedDesc(Updated(existing, newVersions))
    ensures Normalised(existing[i]) in Updated(existing, newVersions)
    ensures |Updated(existing, newVersions)| == |existing| + |Fresh(existing, newVersions)|
  {
    var p := Process(existing, newVersions);
    ProcessSorted(existing, newVersions);
    NormaliseAllSorted(p);
    ProcessContents(existing, newVersions);
    assert existing[i] in multiset(p);
    var j :| 0 <= j < |p| && p[j] == existing[i];
    assert NormaliseAll(p)[j] == Normalised(existing[i]);
    assert |p| == |multiset(p)|;
  }

  /** Updating twice with the same fetch leaves what updating once left. */
  lemma UpdatedIdempotent(existing: seq<VersionRecord>, newVersions: seq<VersionRecord>)
    requires newVersions != []
    ensures Updated(Updated(existing, newVersions), newVersions) == Updated(existing, newVersions)
  {
    var p := Process(existing, newVersions);
    var u := NormaliseAll(p);
    forall k | 0 <= k < |newVersions|
      ensures Exists(u, newVersions[k].version)
    {
      ProcessCovers(existing, newVersions, k);
      var i :| 0 <= i < |p| && p[i].version == newVersions[k].version;
      assert u[i].version == p[i].version;
    }
    FreshEmpty(u, newVersions);
    assert u + [] == u;
    ProcessSorted(existing, newVersions);
    NormaliseAllSorted(p);
    SortDescOfSorted(u);
    forall i | 0 <= i < |u|
      ensures Normalised(u[i]) == u[i]
    {
      NormalisedStable(p[i], Mac);
    }
  }

  /* ---------- the scanner object ---------- */

  /** The scan of the known records for one version, shared by
      `check_new_version` (which returns as soon as it matches) and
      `process_versions` (which breaks out of the loop). */
  method IsKnown(existing: seq<VersionRecord>, v: Option<string>) returns (known: bool)
    ensures known <==> Exists(existing, v)
  {
    for i := 0 to |existing|
      invariant forall j :: 0 <= j < i ==> existing[j].version != v
    {
      if existing[i].version == v {
        return true;
      }
    }
    return false;
  }

  class CursorVersionScanner {
    /** `versions_data["versions"]` */
    var versions: seq<VersionRecord>
    /** `versions_data["last_updated"]` */
    var lastUpdated: Option<string>
    /** What the last successful save wrote to the data file */
    var saved: Option<(seq<VersionRecord>, Option<string>)>

    /** `__init__`: the data file's content, or an empty list when the file
        is missing, unreadable or not an object (`loaded == None`) */
    constructor(loaded: Option<(seq<VersionRecord>, Option<string>)>)
      ensures loaded.None? ==> versions == [] && lastUpdated == None
      ensures loaded.Some? ==> versions == loaded.value.0 && lastUpdated == loaded.value.1
      ensures saved == None
    {
      if loaded.None? {
        versions := [];
        lastUpdated := None;
      } else {
        versions := loaded.value.0;
        lastUpdated := loaded.value.1;
      }
      saved := None;
    }

    /** `_fetch_all_platforms` over the answers of the download endpoint */
    method FetchAllPlatforms(f: FetchResults, today: string) returns (r: seq<VersionRecord>)
      ensures r == FetchSpec(f, today)
    {
      var win := CollectUrls(f, WinPlatforms, ArchKeys, true);
      var mac := CollectUrls(f, MacPlatforms, MacDisplayNames, false);
      var linux := CollectUrls(f, LinuxPlatforms, ArchKeys, false);
      var downloads := AssembleDownloads(win, mac, linux);
      var version, hash := ExtractVersion(Values(win), Values(linux));
      if version.None? || hash.None? {
        return [];
      }
      var completed := EnsureCompleteDownloads(downloads, version.value, hash.value);
      r := [VersionRecord(version, Some(today), hash, completed)];
    }

    /** The three `if ..._urls: downloads[...] = ..._urls` statements */
    method AssembleDownloads(win: ArchUrls, mac: ArchUrls, linux: ArchUrls) returns (downloads: Downloads)
      ensures downloads == Assemble(win, mac, linux)
    {
      downloads := [];
      if win != [] {
        downloads := Put(downloads, Windows, win);
      }
      if mac != [] {
        assert !HasKey(downloads, Mac);
        downloads := Put(downloads, Mac, mac);
      }
      if linux != [] {
        assert !HasKey(downloads, Linux);
        downloads := Put(downloads, Linux, linux);
      }
    }

    /** `check_new_version`: a record was fetched and its version is not
        among the known ones */
    method CheckNewVersion(f: FetchResults, today: string) returns (isNew: bool)
      ensures isNew <==> FetchSpec(f, today) != [] && !Exists(versions, FetchSpec(f, today)[0].version)
    {
      var newVersions := FetchAllPlatforms(f, today);
      if newVersions == [] {
        return false;
      }
      var newVersion := newVersions[0];
      var known := IsKnown(versions, newVersion.version);
      if known {
        return false;
      }
      isNew := true;
    }

    /** `process_versions`: normalise the new records, keep those whose
        version is not known, append them, and sort the whole list */
    method ProcessVersions(newVersions: seq<VersionRecord>) returns (all: seq<VersionRecord>)
      ensures all == Process(versions, newVersions)
    {
      if newVersions == [] {
        return [];
      }
      var existing := versions;
      var merged: seq<VersionRecord> := [];
      for i := 0 to |newVersions|
        invariant merged == Fresh(existing, newVersions[..i])
      {
        assert newVersions[..i + 1][..i] == newVersions[..i];
        var ordered := ReorderDownloads(newVersions[i].downloads);
        var newVersion := newVersions[i].(downloads := ordered);
        var versionExists := IsKnown(existing, newVersion.version);
        if !versionExists {
          merged := merged + [newVersion];
        }
      }
      assert newVersions[..|newVersions|] == newVersions;
      var arr := new VersionRecord[|existing| + |merged|](k requires 0 <= k < |existing| + |merged| => (existing + merged)[k]);
      assert arr[..] == existing + merged;
      SortInPlace(arr);
      all := arr[..];
    }

    /** `update_versions`: fetch; with nothing fetched, fail and change
        nothing; otherwise merge, stamp the time, normalise every record in
        place while saving, and report whether the write succeeded. */
    method UpdateVersions(f: FetchResults, today: string, now: string, writeOk: bool) returns (ok: bool)
      modifies this
      ensures FetchSpec(f, today) == [] ==>
        !ok && versions == old(versions) && lastUpdated == old(lastUpdated) && saved == old(saved)
      ensures FetchSpec(f, today) != [] ==>
        versions == Updated(old(versions), FetchSpec(f, today))
        && lastUpdated == Some(now)
        && ok == writeOk
        && saved == (if writeOk then Some((versions, lastUpdated)) else old(saved))
    {
      var newVersions := FetchAllPlatforms(f, today);
      if newVersions == [] {
        return false;
      }
      var all := ProcessVersions(newVersions);
      versions := all;
      lastUpdated := Some(now);
      ok := SaveData(writeOk);
    }

    /** `save_json_file(self.data_file, self.versions_data)`: every record's
        downloads are put in canonical order in place, then the data is
        written; `writeOk` is whether the write succeeds. */
    method SaveData(writeOk: bool) returns (ok: bool)
      modifies this
      ensures versions == NormaliseAll(old(versions))
      ensures lastUpdated == old(lastUpdated)
      ensures ok == writeOk
      ensures saved == if writeOk then Some((versions, lastUpdated)) else old(saved)
    {
      var normalised := NormaliseVersions(versions);
      versions := normalised;
      if writeOk {
        saved := Some((versions, lastUpdated));
        ok := true;
      } else {
        ok := false;
      }
    }
  }
}
