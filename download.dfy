/** The file name `download` saves the documentation archive under. */
module Download {
  import Text

  /** What the archive link's href must end with to be selected. */
  const ArchiveSuffix: string := "pdf-a4.zip"

  predicate EndsWith(s: string, t: string)
  {
    |t| <= |s| && s[|s| - |t|..] == t
  }

  /** `archive_url.split('/')[-1]`: the last path segment of the archive's URL. */
  function ArchiveFileName(archiveUrl: string): (name: string)
  {
    Text.LastSegment(archiveUrl)
  }

  /** The name is the whole text after the last `/` of the URL: it holds no `/`, ends the
      URL, and is preceded there by a `/` unless it is the entire URL. */
  lemma ArchiveFileNameIsLastSegment(archiveUrl: string)
    ensures '/' !in ArchiveFileName(archiveUrl)
    ensures EndsWith(archiveUrl, ArchiveFileName(archiveUrl))
    ensures var name := ArchiveFileName(archiveUrl);
            |name| < |archiveUrl| ==> archiveUrl[|archiveUrl| - |name| - 1] == '/'
  {
  }

  /** A URL of a selected archive yields a file name that still ends with the archive suffix. */
  lemma ArchiveFileNameKeepsSuffix(archiveUrl: string)
    requires EndsWith(archiveUrl, ArchiveSuffix)
    ensures EndsWith(ArchiveFileName(archiveUrl), ArchiveSuffix)
  {
    var name := ArchiveFileName(archiveUrl);
    var n := |archiveUrl|;
    assert name == archiveUrl[n - |name|..];
    assert name[|name| - |ArchiveSuffix|..] == archiveUrl[n - |ArchiveSuffix|..];
  }

  /** Whatever the directory part of the URL, the file name is the segment after its last `/`. */
  lemma ArchiveFileNameOfPath(directory: string, name: string)
    requires '/' !in name
    ensures ArchiveFileName(directory + "/" + name) == name
  {
    var url := directory + "/" + name;
    var r := ArchiveFileName(url);
    assert url[|url| - |name| - 1] == '/';
    assert forall k :: |url| - |name| <= k < |url| ==> url[k] == name[k - (|url| - |name|)];
    assert |r| == |name|;
    assert r == url[|url| - |name|..] == name;
  }
}
