/** The release-notes walker (`whats_new`): one row per "What's New" page that could be
    fetched, holding its heading, its link and its summary on one line. */
module WhatsNew {
  import opened Common
  import Text

  /** What the walker extracts from a fetched release page. */
  datatype ReleasePage = ReleasePage(heading: string, summary: string)

  /** One table-of-contents entry: its resolved link, and the page the fetch returned
      (`None` when the fetch failed). */
  datatype Section = Section(link: string, page: Option<ReleasePage>)

  const Header: Row := [Str("Ссылка на статью"), Str("Заголовок"), Str("Редактор, автор")]

  /** The row for a fetched page: heading, link, summary with line feeds turned to spaces. */
  function NewsRow(link: string, p: ReleasePage): Row
  {
    [Str(p.heading), Str(link), Str(Text.CollapseNewlines(p.summary))]
  }

  /** The rows the sections contribute, in order: none for a failed fetch. */
  function NewsRows(sections: seq<Section>): seq<Row>
    decreases |sections|
  {
    if sections == [] then []
    else
      var last := sections[|sections| - 1];
      NewsRows(sections[..|sections| - 1]) +
        match last.page
        case None => []
        case Some(p) => [NewsRow(last.link, p)]
  }

  /** The table `whats_new` returns. */
  function WhatsNewTable(sections: seq<Section>): seq<Row>
  {
    [Header] + NewsRows(sections)
  }

  /** How many sections were fetched successfully. */
  function Fetched(sections: seq<Section>): (r: nat)
    ensures r <= |sections|
    decreases |sections|
  {
    if sections == [] then 0
    else Fetched(sections[..|sections| - 1]) + (if sections[|sections| - 1].page.Some? then 1 else 0)
  }

  /** `whats_new` over the already-fetched sections: the loop appends a row per fetched page
      and skips the others. */
  method WhatsNew(sections: seq<Section>) returns (results: seq<Row>)
    ensures results == WhatsNewTable(sections)
  {
    results := [Header];
    for i := 0 to |sections|
      invariant results == WhatsNewTable(sections[..i])
    {
      assert sections[..i + 1][..i] == sections[..i];
      var section := sections[i];
      match section.page {
        case None =>
          continue;
        case Some(page) =>
          results := results + [NewsRow(section.link, page)];
      }
    }
    assert sections[..|sections|] == sections;
  }

  /** Rows of a concatenation are the rows of each part, in order. */
  lemma {:induction false} NewsRowsAppend(a: seq<Section>, b: seq<Section>)
    ensures NewsRows(a + b) == NewsRows(a) + NewsRows(b)
    decreases |b|
  {
    if b != [] {
      var b' := b[..|b| - 1];
      assert (a + b)[..|a + b| - 1] == a + b';
      NewsRowsAppend(a, b');
    } else {
      assert a + b == a;
    }
  }

  /** The header comes first, then one row per fetched section. */
  lemma WhatsNewShape(sections: seq<Section>)
    ensures WhatsNewTable(sections)[0] == Header
    ensures |WhatsNewTable(sections)| == 1 + Fetched(sections)
  {
    NewsRowsCount(sections);
  }

  /** A section whose fetch failed adds nothing; the rows of the others keep their order. */
  lemma FailedFetchIsSkipped(before: seq<Section>, failed: Section, after: seq<Section>)
    requires failed.page.None?
    ensures WhatsNewTable(before + [failed] + after) == WhatsNewTable(before + after)
  {
    assert NewsRows([failed]) == [] by {
      assert [failed][..0] == [];
    }
    calc {
      NewsRows(before + [failed] + after);
    == { NewsRowsAppend(before + [failed], after); }
      NewsRows(before + [failed]) + NewsRows(after);
    == { NewsRowsAppend(before, [failed]); }
      NewsRows(before) + NewsRows(after);
    == { NewsRowsAppend(before, after); }
      NewsRows(before + after);
    }
  }

  lemma {:induction false} NewsRowsCount(sections: seq<Section>)
    ensures |NewsRows(sections)| == Fetched(sections)
    decreases |sections|
  {
    if sections != [] {
      NewsRowsCount(sections[..|sections| - 1]);
    }
  }

  /** Every data row comes from a fetched section: heading, link, and a summary with no line
      feed and exactly as many characters as the page's. */
  lemma {:induction false} NewsRowsFromFetchedPages(sections: seq<Section>, n: nat)
    requires n < |NewsRows(sections)|
    ensures exists i :: 0 <= i < |sections| && sections[i].page.Some? &&
                        NewsRows(sections)[n] == NewsRow(sections[i].link, sections[i].page.value)
    ensures |NewsRows(sections)[n]| == 3 && NewsRows(sections)[n][2].Str?
    ensures '\n' !in NewsRows(sections)[n][2].s
    decreases |sections|
  {
    var init := sections[..|sections| - 1];
    var last := sections[|sections| - 1];
    if n < |NewsRows(init)| {
      NewsRowsFromFetchedPages(init, n);
      var i :| 0 <= i < |init| && init[i].page.Some? &&
               NewsRows(init)[n] == NewsRow(init[i].link, init[i].page.value);
      assert sections[i] == init[i];
    } else {
      assert NewsRows(sections)[n] == NewsRow(last.link, last.page.value);
      Text.CollapseNewlinesHasNoNewline(last.page.value.summary);
    }
  }
}
