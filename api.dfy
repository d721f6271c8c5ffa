/** The API index page (`api.js`): for every release a list item linking to
    its ScalaDoc, placed under `#stable-release` or `#snapshot-release`. */
module Api {
  import opened Text
  import opened Classifier
  import opened ReleaseData

  /** The path below a version's documentation directory. */
  const PackagePath: string := "/gr/jkl/uid/package.html"

  /** The list item's markup up to the start of the link target. */
  const ItemOpen: string := "<li><a href=\""

  /** The list item's markup after the anchor text. */
  const ItemClose: string := "</a></li>"

  /** `apiLink(v)`: a stable version links to its own documentation, every
      other version to the shared `latest` documentation. */
  function ApiLink(v: string): (link: string)
    ensures StartsWith(link, "api/") && EndsWith(link, PackagePath)
    ensures |link| >= |"api/"| + |PackagePath|
  {
    "api/" + (if IsStable(v) then v else "latest") + PackagePath
  }

  /** The documentation directory a link points into. */
  function LinkDirectory(link: string): string
    requires |link| >= |"api/"| + |PackagePath|
  {
    link[|"api/"|..|link| - |PackagePath|]
  }

  /** The anchor text of the item for version `v`. */
  function AnchorText(v: string): string
  {
    "ScalaDoc for uid " + v
  }

  /** The `<li>` built for one version: a link to `apiLink(v)` reading
      "ScalaDoc for uid v". */
  function ListItem(v: string): string
  {
    ItemOpen + ApiLink(v) + "\">" + AnchorText(v) + ItemClose
  }

  function ReleaseItem(r: Release): string
  {
    ListItem(r.version)
  }

  /** The item's markup string split back into its parts: the link target
      runs to the first quote after `href="`, and the anchor text runs from
      the end of the start tag to the final `</a></li>`. This reads the
      string, not the parsed document: character references are not decoded
      and tags inside the text are kept as text. */
  function ParseItem(item: string): Option<(string, string)>
  {
    if !StartsWith(item, ItemOpen) then None
    else
      var rest := item[|ItemOpen|..];
      var href := TakeUntil(rest, '"');
      var after := rest[|href|..];
      if !StartsWith(after, "\">") then None
      else
        var tail := after[2..];
        if !EndsWith(tail, ItemClose) then None
        else Some((href, tail[..|tail| - |ItemClose|]))
  }

  /** A link names the version's own directory when the version is stable
      and `latest` otherwise. */
  lemma LinkDirectoryOf(v: string)
    ensures LinkDirectory(ApiLink(v)) == if IsStable(v) then v else "latest"
  {
    var dir := if IsStable(v) then v else "latest";
    assert ApiLink(v) == "api/" + dir + PackagePath;
    assert ApiLink(v)[|"api/"|..|ApiLink(v)| - |PackagePath|] == dir;
  }

  /** Two versions share a link exactly when they are equal or both are
      snapshots: stable versions keep distinct links, and no stable version
      is sent to `latest`. */
  lemma SameLinkIff(v1: string, v2: string)
    ensures ApiLink(v1) == ApiLink(v2) <==> v1 == v2 || (!IsStable(v1) && !IsStable(v2))
  {
    LinkDirectoryOf(v1);
    LinkDirectoryOf(v2);
    LetterMeansSnapshot("latest", 0);
  }

  /** A link never contains a quote, so it cannot end the `href` attribute
      early. */
  lemma LinkHasNoQuote(v: string)
    ensures '"' !in ApiLink(v)
  {
    if IsStable(v) {
      StableHasNoMarkup(v);
    }
    assert '"' !in PackagePath;
    assert '"' !in "latest";
  }

  /** The part of an item after `href="`. */
  lemma ItemRest(link: string, text: string)
    ensures var item := ItemOpen + link + "\">" + text + ItemClose;
      StartsWith(item, ItemOpen) && item[|ItemOpen|..] == link + ['"'] + (">" + text + ItemClose)
  {
    var item := ItemOpen + link + "\">" + text + ItemClose;
    assert item[..|ItemOpen|] == ItemOpen;
    assert item[|ItemOpen|..] == link + ['"'] + (">" + text + ItemClose);
  }

  /** The part of an item after the link target, read back. */
  lemma ItemTail(text: string)
    ensures var after := "\">" + text + ItemClose;
      StartsWith(after, "\">") && EndsWith(after[2..], ItemClose)
      && after[2..][..|after[2..]| - |ItemClose|] == text
  {
    var after := "\">" + text + ItemClose;
    assert after[..2] == "\">";
    var tail := after[2..];
    assert tail == text + ItemClose;
    assert tail[|tail| - |ItemClose|..] == ItemClose;
    assert tail[..|tail| - |ItemClose|] == text;
  }

  /** An item whose link target holds no quote reads back as that target
      and its anchor text. */
  lemma ParseWrapped(link: string, text: string)
    requires '"' !in link
    ensures ParseItem(ItemOpen + link + "\">" + text + ItemClose) == Some((link, text))
  {
    var item := ItemOpen + link + "\">" + text + ItemClose;
    ItemRest(link, text);
    var rest := item[|ItemOpen|..];
    var after := "\">" + text + ItemClose;
    assert rest == link + ['"'] + after[1..];
    TakeUntilDelimited(link, '"', after[1..]);
    assert rest[|link|..] == after;
    ItemTail(text);
  }

  /** Splitting an item's markup back gives its link target and its anchor
      text as written. */
  lemma ItemRoundTrip(v: string)
    ensures ParseItem(ListItem(v)) == Some((ApiLink(v), AnchorText(v)))
  {
    LinkHasNoQuote(v);
    ParseWrapped(ApiLink(v), AnchorText(v));
  }

  /** Worked example: 1.2.3 links into its own directory, 1.2.3-SNAPSHOT
      into `latest`. */
  lemma ApiLinkExamples()
    ensures LinkDirectory(ApiLink("1.2.3")) == "1.2.3"
    ensures LinkDirectory(ApiLink("1.2.3-SNAPSHOT")) == "latest"
  {
    StableIff("1.2.3");
    LetterMeansSnapshot("1.2.3-SNAPSHOT", 6);
    LinkDirectoryOf("1.2.3");
    LinkDirectoryOf("1.2.3-SNAPSHOT");
  }

  /** The page's two lists: `#stable-release` and `#snapshot-release`,
      each the items appended to it so far. */
  class ApiPage {
    var stableRelease: seq<string>
    var snapshotRelease: seq<string>

    constructor ()
      ensures stableRelease == [] && snapshotRelease == []
    {
      stableRelease, snapshotRelease := [], [];
    }

    /** The `.each` loop: one item per release, in document order,
        appended to the list its version's classification selects. */
    method Render(releases: seq<Release>)
      modifies this
      ensures stableRelease == old(stableRelease) + Section(releases, ReleaseItem, true)
      ensures snapshotRelease == old(snapshotRelease) + Section(releases, ReleaseItem, false)
      ensures |stableRelease| + |snapshotRelease| == old(|stableRelease| + |snapshotRelease|) + |releases|
    {
      for n := 0 to |releases|
        invariant stableRelease == old(stableRelease) + Section(releases[..n], ReleaseItem, true)
        invariant snapshotRelease == old(snapshotRelease) + Section(releases[..n], ReleaseItem, false)
      {
        var v := releases[n].version;
        var h := ListItem(v);
        SectionStep(releases, n, ReleaseItem, true);
        SectionStep(releases, n, ReleaseItem, false);
        if IsStable(v) {
          AppendAssoc(old(stableRelease), Section(releases[..n], ReleaseItem, true), [h]);
          stableRelease := stableRelease + [h];
        } else {
          AppendAssoc(old(snapshotRelease), Section(releases[..n], ReleaseItem, false), [h]);
          snapshotRelease := snapshotRelease + [h];
        }
      }
      assert releases[..|releases|] == releases;
      SectionLength(releases, ReleaseItem, true);
    }
  }
}
