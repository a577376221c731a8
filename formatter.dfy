/** `ReadmeFormatter` (src/formatter.py): the Markdown table of versions
    and the splice that puts it into the README between the table's header
    rows and whatever follows the table. Where the table sits in the README
    (the bounds of the regular-expression match) is an input. */
module Formatter {
  import opened Base
  import opened OrderedDict
  import opened Records
  import opened Completion

  /** What an empty column shows */
  const Placeholder: string := "暂无"

  /* ---------- the table ---------- */

  /** The link label of an architecture under a platform; None for keys
      the table ignores */
  function Label(platform: string, arch: string): Option<string> {
    if platform == Mac then
      if arch == "universal" then Some("Universal")
      else if arch == "x64" then Some("x64")
      else if arch == "arm64" then Some("ARM64")
      else None
    else if platform == Windows || platform == Linux then
      if arch == "x64" then Some("x64")
      else if arch == "arm64" then Some("ARM64")
      else None
    else None
  }

  /** `f"[{tag}]({url})"` */
  function Link(tag: string, url: string): string {
    "[" + tag + "](" + url + ")"
  }

  /** The links of one platform's dictionary, in its insertion order */
  function ArchLinks(platform: string, urls: ArchUrls): seq<string>
    decreases |urls|
  {
    if urls == [] then []
    else
      var n := |urls| - 1;
      ArchLinks(platform, urls[..n])
      + (match Label(platform, urls[n].0)
         case None => []
         case Some(l) => [Link(l, urls[n].1)])
  }

  /** The links a column collects over every entry of `downloads` filed
      under `platform` */
  function PlatformLinks(downloads: Downloads, platform: string): seq<string>
    decreases |downloads|
  {
    if downloads == [] then []
    else
      var n := |downloads| - 1;
      PlatformLinks(downloads[..n], platform)
      + (if downloads[n].0 == platform then ArchLinks(platform, downloads[n].1) else [])
  }

  /** `" ".join(links) if links else "暂无"` */
  function Column(links: seq<string>): string {
    if links == [] then Placeholder else JoinWith(links, " ")
  }

  /** One table row; a missing version or date shows as "" */
  function Row(r: VersionRecord): string {
    "| " + r.version.GetOr("") + " | " + r.date.GetOr("") + " | "
    + Column(PlatformLinks(r.downloads, Mac)) + " | "
    + Column(PlatformLinks(r.downloads, Windows)) + " | "
    + Column(PlatformLinks(r.downloads, Linux)) + " |"
  }

  function Rows(versions: seq<VersionRecord>): (rows: seq<string>)
    ensures |rows| == |versions|
    ensures forall i :: 0 <= i < |versions| ==> rows[i] == Row(versions[i])
  {
    seq(|versions|, i requires 0 <= i < |versions| => Row(versions[i]))
  }

  /** What `_generate_version_table` returns */
  function Table(versions: seq<VersionRecord>): string {
    JoinWith(Rows(versions), "\n")
  }

  /* ---------- properties of the table ---------- */

  /** The table has one line per record, in the order of the records, and
      no trailing newline, as long as no row holds a line break itself. */
  lemma TableLines(versions: seq<VersionRecord>)
    requires versions != []
    requires forall i :: 0 <= i < |versions| ==> '\n' !in Row(versions[i])
    ensures Split(Table(versions), '\n') == Rows(versions)
  {
    SplitJoin(Rows(versions), '\n');
  }

  /** Every architecture of the dictionary has a label */
  predicate AllLabelled(platform: string, urls: ArchUrls) {
    forall i :: 0 <= i < |urls| ==> Label(platform, urls[i].0).Some?
  }

  /** Links follow the dictionary's insertion order, one per labelled
      architecture. */
  lemma {:induction false} ArchLinksInOrder(platform: string, urls: ArchUrls)
    requires AllLabelled(platform, urls)
    ensures |ArchLinks(platform, urls)| == |urls|
    ensures forall i :: 0 <= i < |urls| ==>
      ArchLinks(platform, urls)[i] == Link(Label(platform, urls[i].0).value, urls[i].1)
    decreases |urls|
  {
    if urls != [] {
      var n := |urls| - 1;
      assert AllLabelled(platform, urls[..n]);
      ArchLinksInOrder(platform, urls[..n]);
    }
  }

  /** The links of a single entry: its link when the architecture has a
      label, nothing when the table ignores it. */
  lemma ArchLinksOne(platform: string, arch: string, url: string)
    ensures ArchLinks(platform, [(arch, url)]) ==
      if Label(platform, arch).Some? then [Link(Label(platform, arch).value, url)] else []
  {
    assert [(arch, url)][..0] == [];
  }

  /** The links of a dictionary are the links of its front followed by the
      links of the rest: with `ArchLinksOne`, the column is the dictionary
      filtered to labelled architectures, in insertion order. */
  lemma {:induction false} ArchLinksConcat(platform: string, a: ArchUrls, b: ArchUrls)
    ensures ArchLinks(platform, a + b) == ArchLinks(platform, a) + ArchLinks(platform, b)
    decreases |b|
  {
    if b == [] {
      assert a + b == a;
    } else {
      var n := |b| - 1;
      assert (a + b)[..|a + b| - 1] == a + b[..n];
      assert (a + b)[|a + b| - 1] == b[n];
      ArchLinksConcat(platform, a, b[..n]);
    }
  }

  /** A column has links exactly when some architecture is labelled. */
  lemma {:induction false} ArchLinksEmpty(platform: string, urls: ArchUrls)
    ensures ArchLinks(platform, urls) == [] <==> forall i :: 0 <= i < |urls| ==> Label(platform, urls[i].0).None?
    decreases |urls|
  {
    if urls != [] {
      var n := |urls| - 1;
      ArchLinksEmpty(platform, urls[..n]);
      assert forall i :: 0 <= i < n ==> urls[..n][i] == urls[i];
    }
  }

  /** A joined column of links starts with '[', so it is never the
      placeholder: the placeholder shows exactly when there are no links. */
  lemma ColumnPlaceholder(links: seq<string>)
    requires forall i :: 0 <= i < |links| ==> links[i] != [] && links[i][0] == '['
    ensures Column(links) == Placeholder <==> links == []
  {
    if links != [] {
      var c := JoinWith(links, " ");
      if |links| == 1 {
        assert c == links[0];
      } else {
        assert c == links[0] + " " + JoinWith(links[1..], " ");
      }
      assert c[0] == '[';
      assert Placeholder[0] != '[';
    }
  }

  /** Links are non-empty and start with '['. */
  lemma LinksShape(platform: string, urls: ArchUrls, i: nat)
    requires i < |ArchLinks(platform, urls)|
    ensures ArchLinks(platform, urls)[i] != [] && ArchLinks(platform, urls)[i][0] == '['
    decreases |urls|
  {
    var n := |urls| - 1;
    if i < |ArchLinks(platform, urls[..n])| {
      LinksShape(platform, urls[..n], i);
    }
  }

  /** A completed record shows at least one link in every platform
      column: each template has an "x64" URL, and "x64" is labelled under
      every platform. */
  lemma CompletedColumns(d: Downloads, version: string, hash: string, p: string)
    requires p in PlatformOrder
    ensures PlatformLinks(CompleteDownloads(d, version, hash), p) != []
  {
    var c := CompleteDownloads(d, version, hash);
    var filled := Fill(GetOrEmpty(d, p), Template(p, version, hash));
    CompleteDownloadsLookup(d, version, hash, p, "x64");
    var k := if p == Mac then 0 else if p == Windows then 1 else 2;
    assert c[k] == (p, filled);
    PlatformLinksOfDistinct(c, p, k);
    assert Lookup(filled, "x64").Some?;
    var i :| 0 <= i < |filled| && filled[i].0 == "x64";
    assert Label(p, filled[i].0).Some?;
    ArchLinksEmpty(p, filled);
  }

  /** When `p` is filed once, at position `k`, its column holds the links
      of that one entry. */
  lemma PlatformLinksOfDistinct(c: Downloads, p: string, k: nat)
    requires k < |c| && c[k].0 == p
    requires forall j :: 0 <= j < |c| && j != k ==> c[j].0 != p
    ensures PlatformLinks(c, p) == ArchLinks(p, c[k].1)
  {
    PlatformLinksPrefix(c, p, k);
    PlatformLinksNone(c, p, k + 1);
  }

  /** Below `k`, no entry is filed under `p` */
  lemma {:induction false} PlatformLinksPrefix(c: Downloads, p: string, k: nat)
    requires k <= |c|
    requires forall j :: 0 <= j < k ==> c[j].0 != p
    ensures PlatformLinks(c[..k], p) == []
    decreases k
  {
    if k > 0 {
      assert c[..k][..k - 1] == c[..k - 1];
      PlatformLinksPrefix(c, p, k - 1);
    }
  }

  /** Entries from `m` on not filed under `p` add nothing. */
  lemma {:induction false} PlatformLinksNone(c: Downloads, p: string, m: nat)
    requires 0 < m <= |c|
    requires forall j :: m <= j < |c| ==> c[j].0 != p
    ensures PlatformLinks(c, p) == PlatformLinks(c[..m - 1], p) + (if c[m - 1].0 == p then ArchLinks(p, c[m - 1].1) else [])
    decreases |c| - m
  {
    if m < |c| {
      var n := |c| - 1;
      assert c[..n][..m - 1] == c[..m - 1];
      assert forall j :: m <= j < |c[..n]| ==> c[..n][j].0 != p;
      PlatformLinksNone(c[..n], p, m);
    } else {
      assert c[..|c|] == c;
    }
  }

  /* ---------- the splice ---------- */

  /** Where the line of `s` that starts at `i` ends, just past its line
      break; `i` itself when no line break follows */
  function LineEnd(s: string, i: nat): (e: nat)
    requires i <= |s|
    ensures i <= e <= |s|
    decreases |s| - i
  {
    if i == |s| then i
    else if s[i] == '\n' then i + 1
    else
      var e := LineEnd(s, i + 1);
      if e == i + 1 then i else e
  }

  /** The new README content: before the match, the header line, the
      separator line, the generated table, after the match */
  function Splice(content: string, start: nat, end: nat, table: string): string
    requires start <= end <= |content|
  {
    var e1 := LineEnd(content, start);
    var e2 := LineEnd(content, e1);
    content[..start] + (content[start..e1] + content[e1..e2] + table) + content[end..]
  }

  /** Where the separator line ends */
  function HeaderEnd(content: string, start: nat): (p: nat)
    requires start <= |content|
    ensures start <= p <= |content|
  {
    LineEnd(content, LineEnd(content, start))
  }

  /** A whole line: it ends in its only line break */
  predicate IsLine(l: string) {
    |l| > 0 && l[|l| - 1] == '\n' && '\n' !in l[..|l| - 1]
  }

  /** The line ends where `s[i:].find('\n') + 1` says: one past the first
      line break from `i`, or at `i` when there is none. */
  lemma {:induction false} LineEndFind(s: string, i: nat)
    requires i <= |s|
    ensures LineEnd(s, i) == i + FindChar(s[i..], '\n') + 1
    decreases |s| - i
  {
    if i < |s| {
      assert s[i..][0] == s[i];
      if s[i] != '\n' {
        LineEndFind(s, i + 1);
        assert s[i..][1..] == s[i + 1..];
      }
    }
  }

  /** The line is empty exactly when no line break follows, and otherwise
      a whole line. */
  lemma LineEndBreak(s: string, i: nat)
    requires i <= |s|
    ensures LineEnd(s, i) == i <==> '\n' !in s[i..]
    ensures LineEnd(s, i) > i ==> IsLine(s[i..LineEnd(s, i)])
  {
    LineEndFind(s, i);
    var k := FindChar(s[i..], '\n');
    if k >= 0 {
      var l := s[i..LineEnd(s, i)];
      assert l == s[i..][..k + 1];
      assert l[..k] == s[i..][..k];
    }
  }

  /** The first line break of `x + y` is that of `x` when `x` has one. */
  lemma FindCharConcat(x: string, y: string)
    requires '\n' in x
    ensures FindChar(x + y, '\n') == FindChar(x, '\n')
  {
    var r := FindChar(x, '\n');
    var r' := FindChar(x + y, '\n');
    assert forall j :: 0 <= j < r ==> (x + y)[j] == x[..r][j] != '\n';
    assert (x + y)[r] == '\n';
    assert forall j :: 0 <= j < r' ==> (x + y)[..r'][j] != '\n';
  }

  /** A whole line standing at `i` is the line read there. */
  lemma LineEndFront(s: string, i: nat, l: string, rest: string)
    requires i <= |s| && s[i..] == l + rest && IsLine(l)
    ensures LineEnd(s, i) == i + |l|
  {
    LineEndFind(s, i);
    FindCharConcat(l, rest);
    assert FindChar(l, '\n') == |l| - 1;
  }

  /** The splice keeps everything up to the end of the separator line and
      everything from the end of the match, and puts the table between:
      when the match spans both header lines, exactly the table body is
      replaced. */
  lemma SpliceShape(content: string, start: nat, end: nat, table: string)
    requires start <= end <= |content|
    ensures Splice(content, start, end, table) == content[..HeaderEnd(content, start)] + table + content[end..]
  {
    var e1 := LineEnd(content, start);
    var e2 := LineEnd(content, e1);
    assert content[..e2] == content[..start] + content[start..e1] + content[e1..e2];
  }

  /** Splicing a table again over a splice of it changes nothing, and the
      header lines are found where they were put. */
  lemma SpliceAgain(pre: string, h: string, sep: string, table: string, post: string)
    requires IsLine(h) && IsLine(sep)
    ensures var once := pre + (h + sep + table) + post;
      var e := |pre| + |h| + |sep| + |table|;
      e <= |once| && HeaderEnd(once, |pre|) == |pre| + |h| + |sep|
      && Splice(once, |pre|, e, table) == once
  {
    var once := pre + (h + sep + table) + post;
    var e := |pre| + |h| + |sep| + |table|;
    assert once[|pre|..] == h + (sep + table + post);
    LineEndFront(once, |pre|, h, sep + table + post);
    assert once[|pre| + |h|..] == sep + (table + post);
    LineEndFront(once, |pre| + |h|, sep, table + post);
    assert once[..|pre|] == pre;
    assert once[|pre|..|pre| + |h|] == h;
    assert once[|pre| + |h|..|pre| + |h| + |sep|] == sep;
    assert once[e..] == post;
  }

  /** With header and separator lines ending in line breaks, splicing the
      same table again over the spliced table gives the same README. */
  lemma SpliceIdempotent(content: string, start: nat, end: nat, table: string)
    requires start <= end <= |content|
    requires LineEnd(content, start) > start && HeaderEnd(content, start) > LineEnd(content, start)
    ensures var once := Splice(content, start, end, table);
      HeaderEnd(content, start) + |table| <= |once| &&
      Splice(once, start, HeaderEnd(content, start) + |table|, table) == once
  {
    var e1 := LineEnd(content, start);
    var e2 := LineEnd(content, e1);
    LineEndBreak(content, start);
    LineEndBreak(content, e1);
    var h, sep := content[start..e1], content[e1..e2];
    var once := Splice(content, start, end, table);
    assert once == content[..start] + (h + sep + table) + content[end..];
    SpliceAgain(content[..start], h, sep, table, content[end..]);
  }

  /* ---------- the formatter object ---------- */

  class ReadmeFormatter {
    /** `versions_data["versions"]`; None when the data file is missing,
        unreadable or has no "versions" */
    var versionsData: Option<seq<VersionRecord>>
    /** The README file's content */
    var readme: string

    constructor(versionsData: Option<seq<VersionRecord>>, readme: string)
      ensures this.versionsData == versionsData && this.readme == readme
    {
      this.versionsData := versionsData;
      this.readme := readme;
    }

    /** `_generate_version_table` */
    method GenerateVersionTable() returns (table: string)
      requires versionsData.Some?
      ensures table == Table(versionsData.value)
    {
      var versions := versionsData.value;
      var tableRows: seq<string> := [];
      for i := 0 to |versions|
        invariant |tableRows| == i
        invariant forall k :: 0 <= k < i ==> tableRows[k] == Row(versions[k])
      {
        var versionInfo := versions[i];
        var version := versionInfo.version.GetOr("");
        var date := versionInfo.date.GetOr("");
        var macLinks, winLinks, linuxLinks := [], [], [];
        var downloads := versionInfo.downloads;
        for j := 0 to |downloads|
          invariant macLinks == PlatformLinks(downloads[..j], Mac)
          invariant winLinks == PlatformLinks(downloads[..j], Windows)
          invariant linuxLinks == PlatformLinks(downloads[..j], Linux)
        {
          assert downloads[..j + 1][..j] == downloads[..j];
          var (downloadType, urls) := downloads[j];
          if downloadType == Mac {
            macLinks := AppendLinks(macLinks, Mac, urls);
          } else if downloadType == Windows {
            winLinks := AppendLinks(winLinks, Windows, urls);
          } else if downloadType == Linux {
            linuxLinks := AppendLinks(linuxLinks, Linux, urls);
          }
        }
        assert downloads[..|downloads|] == downloads;
        var macColumn := if macLinks != [] then JoinWith(macLinks, " ") else Placeholder;
        var winColumn := if winLinks != [] then JoinWith(winLinks, " ") else Placeholder;
        var linuxColumn := if linuxLinks != [] then JoinWith(linuxLinks, " ") else Placeholder;
        assert macColumn == Column(PlatformLinks(versionInfo.downloads, Mac));
        assert winColumn == Column(PlatformLinks(versionInfo.downloads, Windows));
        assert linuxColumn == Column(PlatformLinks(versionInfo.downloads, Linux));
        var row := "| " + version + " | " + date + " | " + macColumn + " | " + winColumn + " | " + linuxColumn + " |";
        assert row == Row(versions[i]);
        tableRows := tableRows + [row];
      }
      assert tableRows == Rows(versions);
      table := JoinWith(tableRows, "\n");
    }

    /** `update_readme` after the `Last Updated` substitution: `stamped` is
        the content after it and `tableMatch` the bounds of the table
        pattern's match in it. Without version data or without a match the
        README is left as it was and the result is false. */
    method UpdateReadme(stamped: string, tableMatch: Option<(nat, nat)>, writeOk: bool) returns (ok: bool)
      requires tableMatch.Some? ==> tableMatch.value.0 <= tableMatch.value.1 <= |stamped|
      modifies this
      ensures versionsData == old(versionsData)
      ensures versionsData.None? || tableMatch.None? ==> !ok && readme == old(readme)
      ensures versionsData.Some? && tableMatch.Some? ==>
        ok == writeOk
        && readme == (if writeOk then Splice(stamped, tableMatch.value.0, tableMatch.value.1, Table(versionsData.value)) else old(readme))
    {
      if versionsData.None? {
        return false;
      }
      var versionTable := GenerateVersionTable();
      if tableMatch.None? {
        return false;
      }
      var (start, end) := tableMatch.value;
      var content := stamped;
      var tableHeader := content[start..start + FindChar(content[start..], '\n') + 1];
      var sepStart := start + |tableHeader|;
      var tableSeparator := content[sepStart..sepStart + FindChar(content[sepStart..], '\n') + 1];
      LineEndFind(content, start);
      LineEndFind(content, sepStart);
      assert sepStart == LineEnd(stamped, start);
      assert tableHeader == stamped[start..LineEnd(stamped, start)];
      assert tableSeparator == stamped[sepStart..LineEnd(stamped, sepStart)];
      var newTable := tableHeader + tableSeparator + versionTable;
      content := content[..start] + newTable + content[end..];
      assert content == Splice(stamped, start, end, versionTable);
      if writeOk {
        readme := content;
        ok := true;
      } else {
        ok := false;
      }
    }
  }

  /** Each per-platform loop of `_generate_version_table`: append the
      labelled links of `urls`, in its order */
  method AppendLinks(links: seq<string>, platform: string, urls: ArchUrls) returns (links': seq<string>)
    ensures links' == links + ArchLinks(platform, urls)
  {
    links' := links;
    for k := 0 to |urls|
      invariant links' == links + ArchLinks(platform, urls[..k])
    {
      assert urls[..k + 1][..k] == urls[..k];
      var (arch, url) := urls[k];
      var tag := Label(platform, arch);
      if tag.Some? {
        links' := links' + ["[" + tag.value + "](" + url + ")"];
      }
    }
    assert urls[..|urls|] == urls;
  }
}
