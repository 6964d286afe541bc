/**
 * `download_book` (main.py:55-95) up to the point where the jobs are
 * handed to the thread pool, with everything but the string logic passed
 * in: the search page the site returns is a function of the search URL,
 * and what the regular expressions at main.py:63-68 and main.py:86
 * extract from it is given as a `SearchPage`.
 */
module Download {
  import opened Options
  import opened Text
  import Sanitize
  import Query
  import opened Match
  import opened SafeName
  import opened Jobs

  /** What the page extraction finds: the first post article, its bookmark text before `Audiobook (Online)<`, and its audio sources. */
  datatype SearchPage =
    | NoArticle
    | NoTitleLink
    | Article(titleLinkText: string, audioUrls: seq<string>)

  /**
   * How one book ends. The three `Missing` outcomes are the places where
   * the source calls `.group` on a failed `re.search` and so raises.
   */
  datatype Outcome =
    | ArticleMissing
    | TitleLinkMissing
    | NotFound
    | ChapterMissing(folder: string)
    | Downloads(folder: string, jobs: seq<Job>)

  predicate Raises(o: Outcome) {
    o.ArticleMissing? || o.TitleLinkMissing? || o.ChapterMissing?
  }

  /** The candidate title after entity normalisation (main.py:68-69). */
  function CandidateTitle(page: SearchPage): string
    requires page.Article?
  {
    NormaliseEntities(page.titleLinkText)
  }

  /** The folder a matched book is written to (main.py:89). */
  function BookFolder(outputFolder: string, page: SearchPage): string
    requires page.Article?
  {
    PathJoin(outputFolder, SafeBookName(CandidateTitle(page)))
  }

  /**
   * One call of `download_book(name)`: fetch the search page for the
   * search URL of `name`, check the candidate title against the name,
   * then name the folder and build the jobs.
   */
  function DownloadBook(outputFolder: string, name: string, fetch: string -> SearchPage): (o: Outcome)
    requires Query.IsAscii(name)
    ensures o.Downloads? ==>
              var page := fetch(Query.SearchUrl(name));
              page.Article? && TitleMatches(name, CandidateTitle(page))
              && |name| <= |CandidateTitle(page)| && |o.jobs| == |page.audioUrls|
  {
    var page := fetch(Query.SearchUrl(name));
    match page
    case NoArticle => ArticleMissing
    case NoTitleLink => TitleLinkMissing
    case Article(_, urls) =>
      if !TitleMatches(name, CandidateTitle(page)) then NotFound
      else
        var folder := BookFolder(outputFolder, page);
        match BuildJobs(folder, urls)
        case None => ChapterMissing(folder)
        case Some(jobs) => Downloads(folder, jobs)
  }

  /**
   * How `download_book(name)` ends, case by case: a missing article or
   * title link raises; a candidate that does not contain the name is
   * skipped; a matched book raises when some audio URL has no chapter
   * file, and otherwise gets one job per audio URL, in order, inside the
   * folder named after the safe name.
   */
  lemma DownloadBookOutcome(outputFolder: string, name: string, fetch: string -> SearchPage)
    requires Query.IsAscii(name)
    ensures var o := DownloadBook(outputFolder, name, fetch);
            var page := fetch(Query.SearchUrl(name));
            (o.ArticleMissing? <==> page.NoArticle?)
            && (o.TitleLinkMissing? <==> page.NoTitleLink?)
            && (o.NotFound? <==> page.Article? && !TitleMatches(name, CandidateTitle(page)))
            && (Raises(o) <==>
                  page.NoArticle? || page.NoTitleLink?
                  || (page.Article? && TitleMatches(name, CandidateTitle(page))
                      && exists k :: 0 <= k < |page.audioUrls| && ChapterFile(page.audioUrls[k]).None?))
            && (o.ChapterMissing? <==>
                  page.Article? && TitleMatches(name, CandidateTitle(page))
                  && exists k :: 0 <= k < |page.audioUrls| && ChapterFile(page.audioUrls[k]).None?)
            && ((o.ChapterMissing? || o.Downloads?) ==> o.folder == BookFolder(outputFolder, page))
            && (o.Downloads? ==>
                  |o.jobs| == |page.audioUrls|
                  && forall k :: 0 <= k < |page.audioUrls| ==>
                       ChapterFile(page.audioUrls[k]).Some?
                       && o.jobs[k] == Job(page.audioUrls[k], PathJoin(o.folder, ChapterFile(page.audioUrls[k]).value)))
  {
  }

  /** A book is downloaded only when the lower-cased name occurs in the lower-cased candidate title. */
  lemma DownloadsOnlyOnMatch(outputFolder: string, name: string, fetch: string -> SearchPage)
    requires Query.IsAscii(name)
    ensures DownloadBook(outputFolder, name, fetch).Downloads? ==>
              var page := fetch(Query.SearchUrl(name));
              page.Article? && exists i :: OccursAt(Lower(name), Lower(CandidateTitle(page)), i)
  {
    var page := fetch(Query.SearchUrl(name));
    DownloadBookOutcome(outputFolder, name, fetch);
    if page.Article? {
      TitleMatchesIffOccurs(name, CandidateTitle(page));
    }
  }

  /** The book folder sits inside the output folder and its last component is the safe name. */
  lemma BookFolderShape(outputFolder: string, page: SearchPage)
    requires page.Article?
    ensures var folder, safe := BookFolder(outputFolder, page), SafeBookName(CandidateTitle(page));
            |folder| == |outputFolder| + |safe| + (if NeedsSeparator(outputFolder) then 1 else 0)
            && folder[..|outputFolder|] == outputFolder
            && folder[|folder| - |safe|..] == safe
            && (|outputFolder| > 0 ==> folder[|folder| - |safe| - 1] == '/')
  {
    var safe := SafeBookName(CandidateTitle(page));
    assert |safe| > 0 ==> IsNameChar(safe[0]);
  }

  /** Every line that reaches the search is sanitized, hence ASCII. */
  lemma SanitizedIsAscii(s: string)
    requires Sanitize.IsSanitized(s)
    ensures Query.IsAscii(s)
  {
  }
}
