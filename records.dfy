/** The persisted version record and the canonical platform order.
    `downloads` maps a platform key ("mac", "windows", "linux") to a
    dictionary from architecture label to URL; both levels keep Python's
    insertion order. */
module Records {
  import opened Base
  import opened OrderedDict

  type ArchUrls = Dict<string>
  type Downloads = Dict<ArchUrls>

  /** One entry of `versions`. Keys read with `.get` may be missing from a
      loaded record, hence the options; a record without "downloads"
      behaves as one with an empty downloads dictionary. */
  datatype VersionRecord = VersionRecord(
    version: Option<string>,
    date: Option<string>,
    buildId: Option<string>,
    downloads: Downloads)

  const Mac: string := "mac"
  const Windows: string := "windows"
  const Linux: string := "linux"

  /** The fixed order of platform keys in every saved record */
  const PlatformOrder: seq<string> := [Mac, Windows, Linux]

  /** The loop `for platform in order: if platform in downloads:
      ordered[platform] = downloads[platform]`, as a value: the platforms
      of `order` that are present, in that order, every other key dropped. */
  function ReorderBy(d: Downloads, order: seq<string>): Downloads
    decreases |order|
  {
    if order == [] then []
    else
      var p := order[|order| - 1];
      ReorderBy(d, order[..|order| - 1]) + Entry(d, p)
  }

  /** The entry of `p`, if `p` is present */
  function Entry(d: Downloads, p: string): Downloads {
    if HasKey(d, p) then [(p, Lookup(d, p).value)] else []
  }

  /** The reordering applied on every save and to every new record */
  function Reorder(d: Downloads): Downloads {
    ReorderBy(d, PlatformOrder)
  }

  /** The reordering written out for the three canonical platforms. */
  lemma ReorderExplicit(d: Downloads)
    ensures Reorder(d) ==
      (if HasKey(d, Mac) then [(Mac, Lookup(d, Mac).value)] else [])
      + (if HasKey(d, Windows) then [(Windows, Lookup(d, Windows).value)] else [])
      + (if HasKey(d, Linux) then [(Linux, Lookup(d, Linux).value)] else [])
  {
    var o := PlatformOrder;
    assert o[..2] == [Mac, Windows] && o[2] == Linux;
    assert [Mac, Windows][..1] == [Mac] && [Mac, Windows][1] == Windows;
    assert [Mac][..0] == [] && [Mac][0] == Mac;
    assert ReorderBy(d, [Mac]) == Entry(d, Mac);
    assert ReorderBy(d, [Mac, Windows]) == Entry(d, Mac) + Entry(d, Windows);
  }

  /** After reordering, every canonical platform maps to what it mapped to
      before, and every other key is gone. */
  lemma ReorderLookup(d: Downloads, p: string)
    ensures Lookup(Reorder(d), p) == if p in PlatformOrder then Lookup(d, p) else None
  {
    ReorderExplicit(d);
    var em, ew, el := Entry(d, Mac), Entry(d, Windows), Entry(d, Linux);
    assert Reorder(d) == em + ew + el;
    LookupConcat(em + ew, el, p);
    LookupConcat(em, ew, p);
    LookupEntry(d, Mac, p);
    LookupEntry(d, Windows, p);
    LookupEntry(d, Linux, p);
    if HasKey(em + ew, p) {
      var i :| 0 <= i < |em + ew| && (em + ew)[i].0 == p;
      if i < |em| {
        assert em[i].0 == p;
      } else {
        assert ew[i - |em|].0 == p;
      }
    }
  }

  lemma LookupEntry(d: Downloads, q: string, p: string)
    ensures HasKey(Entry(d, q), p) <==> p == q && HasKey(d, q)
    ensures Lookup(Entry(d, q), p) == if p == q then Lookup(d, p) else None
  {
  }

  lemma KeysEntry(d: Downloads, p: string)
    ensures Keys(Entry(d, p)) == if HasKey(d, p) then [p] else []
  {
  }

  /** The keys come out in canonical order, exactly those present before. */
  lemma ReorderKeys(d: Downloads)
    ensures Keys(Reorder(d)) ==
      (if HasKey(d, Mac) then [Mac] else [])
      + (if HasKey(d, Windows) then [Windows] else [])
      + (if HasKey(d, Linux) then [Linux] else [])
    ensures UniqueKeys(Reorder(d))
  {
    ReorderExplicit(d);
    var em, ew, el := Entry(d, Mac), Entry(d, Windows), Entry(d, Linux);
    assert Reorder(d) == em + ew + el;
    KeysConcat(em, ew);
    KeysConcat(em + ew, el);
    KeysEntry(d, Mac);
    KeysEntry(d, Windows);
    KeysEntry(d, Linux);
    var ks := Keys(Reorder(d));
    assert forall i, j :: 0 <= i < j < |ks| ==> ks[i] != ks[j];
  }

  /** Reordering twice is reordering once. */
  lemma ReorderIdempotent(d: Downloads)
    ensures Reorder(Reorder(d)) == Reorder(d)
  {
    ReorderExplicit(d);
    ReorderExplicit(Reorder(d));
    ReorderLookup(d, Mac);
    ReorderLookup(d, Windows);
    ReorderLookup(d, Linux);
  }

  /** A record whose downloads have been put in canonical order */
  function Normalised(r: VersionRecord): VersionRecord {
    r.(downloads := Reorder(r.downloads))
  }
}
