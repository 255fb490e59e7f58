/** The version-list extractor (`latest_versions`): picks the first sidebar list that
    mentions "All versions" and turns each of its links into (link, version, status). */
module LatestVersions {
  import opened Common
  import Text
  import VersionPattern

  /** A link of the list: its href and its text. */
  datatype Anchor = Anchor(href: string, text: string)

  /** A sidebar `ul`: its whole text and its links, in document order. */
  datatype VersionList = VersionList(text: string, anchors: seq<Anchor>)

  /** The text that marks the list of all versions. */
  const Marker: string := "All versions"

  const NotFoundMessage: string := "Ничего не нашлось"

  const Header: Row := [Str("Ссылка на документацию"), Str("Версия"), Str("Статус")]

  /** List `j` is the first one whose text mentions the marker. */
  predicate IsFirstVersionList(uls: seq<VersionList>, j: int)
  {
    && 0 <= j < |uls|
    && Text.Contains(uls[j].text, Marker)
    && forall j' :: 0 <= j' < j ==> !Text.Contains(uls[j'].text, Marker)
  }

  /** The first list at or after `i` whose text mentions the marker. */
  function FirstVersionList(uls: seq<VersionList>, i: nat): (r: Option<nat>)
    requires i <= |uls|
    ensures r.Some? ==> i <= r.value < |uls| && Text.Contains(uls[r.value].text, Marker)
    ensures r.Some? ==> forall j :: i <= j < r.value ==> !Text.Contains(uls[j].text, Marker)
    ensures r.None? ==> forall j :: i <= j < |uls| ==> !Text.Contains(uls[j].text, Marker)
    decreases |uls| - i
  {
    if i == |uls| then None
    else if Text.Contains(uls[i].text, Marker) then Some(i)
    else FirstVersionList(uls, i + 1)
  }

  /** The row for one link: its href, then the parsed version and status. */
  function VersionRow(a: Anchor): Row
  {
    var (version, status) := VersionPattern.ParseVersionStatus(a.text);
    [Str(a.href), Str(version), Str(status)]
  }

  /** The table `latest_versions` returns, or the failure it raises. */
  function LatestVersionsTable(uls: seq<VersionList>): Result<seq<Row>>
  {
    match FirstVersionList(uls, 0)
    case None => Failure(NotFound(NotFoundMessage))
    case Some(j) =>
      var anchors := uls[j].anchors;
      Success([Header] + seq(|anchors|, k requires 0 <= k < |anchors| => VersionRow(anchors[k])))
  }

  /** `latest_versions` over the sidebar's lists: a search loop that stops at the first list
      mentioning the marker (raising when there is none), then one row per link. */
  method LatestVersions(uls: seq<VersionList>) returns (r: Result<seq<Row>>)
    ensures r == LatestVersionsTable(uls)
  {
    var anchors: seq<Anchor> := [];
    var found := false;
    var i := 0;
    while i < |uls|
      invariant 0 <= i <= |uls|
      invariant forall j :: 0 <= j < i ==> !Text.Contains(uls[j].text, Marker)
      invariant !found
    {
      if Text.Contains(uls[i].text, Marker) {
        anchors := uls[i].anchors;
        found := true;
        break;
      }
      i := i + 1;
    }
    if !found {
      return Failure(NotFound(NotFoundMessage));
    }
    assert FirstVersionList(uls, 0) == Some(i);

    var results := [Header];
    for k := 0 to |anchors|
      invariant |results| == k + 1 && results[0] == Header
      invariant forall n :: 0 <= n < k ==> results[n + 1] == VersionRow(anchors[n])
    {
      var a := anchors[k];
      var version, status;
      match VersionPattern.Search(a.text) {
        case Some(groups) =>
          version, status := groups.version, groups.status;
        case None =>
          version, status := a.text, "";
      }
      assert VersionPattern.ParseVersionStatus(a.text) == (version, status);
      results := results + [[Str(a.href), Str(version), Str(status)]];
    }
    assert results == [Header] + seq(|anchors|, k requires 0 <= k < |anchors| => VersionRow(anchors[k]));
    r := Success(results);
  }

  /** The extractor fails, with `NotFound`, exactly when no list mentions the marker. */
  lemma FailsExactlyWithoutMarker(uls: seq<VersionList>)
    ensures LatestVersionsTable(uls).Failure? <==>
              forall j :: 0 <= j < |uls| ==> !Text.Contains(uls[j].text, Marker)
    ensures LatestVersionsTable(uls).Failure? ==>
              LatestVersionsTable(uls).error == NotFound(NotFoundMessage)
  {
  }

  /** Otherwise the table is the header and then, in order, one row per link of the first
      list that mentions the marker; later lists are ignored. */
  lemma UsesFirstMarkedList(uls: seq<VersionList>, j: int)
    requires IsFirstVersionList(uls, j)
    ensures LatestVersionsTable(uls).Success?
    ensures var rows := LatestVersionsTable(uls).value;
            && |rows| == 1 + |uls[j].anchors|
            && rows[0] == Header
            && forall k :: 0 <= k < |uls[j].anchors| ==> rows[k + 1] == VersionRow(uls[j].anchors[k])
  {
  }

  /** Each row is (href, version, status): the captured groups when the link text matches
      the pattern, else the whole text and an empty status. */
  lemma VersionRowFields(a: Anchor)
    ensures |VersionRow(a)| == 3 && VersionRow(a)[0] == Str(a.href)
    ensures VersionPattern.Search(a.text).Some? ==>
              && VersionRow(a)[1] == Str(VersionPattern.Search(a.text).value.version)
              && VersionRow(a)[2] == Str(VersionPattern.Search(a.text).value.status)
              && VersionPattern.IsVersion(VersionPattern.Search(a.text).value.version)
    ensures VersionPattern.Search(a.text).None? ==>
              VersionRow(a)[1] == Str(a.text) && VersionRow(a)[2] == Str("")
  {
    VersionPattern.SearchShape(a.text);
  }
}
