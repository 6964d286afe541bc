/**
 * Download-job construction (main.py:92-95): one `{url, path}` pair per
 * audio URL, the path being the book folder joined with the first
 * `<digits>.mp3` that follows a `/` in the URL.
 */
module Jobs {
  import opened Options
  import opened Text

  predicate IsDigit(c: char) { '0' <= c <= '9' }

  /** The number of digits at the start of `s`. */
  function DigitRun(s: string): (k: nat)
    ensures k <= |s|
    ensures forall i :: 0 <= i < k ==> IsDigit(s[i])
    ensures k == |s| || !IsDigit(s[k])
    decreases |s|
  {
    if |s| > 0 && IsDigit(s[0]) then 1 + DigitRun(s[1..]) else 0
  }

  /** A run of exactly `k` digits ends where the first non-digit stands. */
  lemma {:induction false} DigitRunExact(s: string, k: nat)
    requires k < |s| && !IsDigit(s[k])
    requires forall i :: 0 <= i < k ==> IsDigit(s[i])
    ensures DigitRun(s) == k
    decreases k
  {
    if k > 0 {
      DigitRunExact(s[1..], k - 1);
    }
  }

  /** The regular expression `/(\d+\.mp3)` matches `url` at `i` with `k` digits. */
  ghost predicate ChapterMatch(url: string, i: int, k: int) {
    0 <= i && 1 <= k && i + k + 5 <= |url|
    && url[i] == '/'
    && (forall j :: i + 1 <= j < i + 1 + k ==> IsDigit(url[j]))
    && url[i + 1 + k..i + k + 5] == ".mp3"
  }

  /**
   * The number of digits with which the pattern matches at `i`, or 0 when
   * it does not. `\d+` is greedy and a `.` is no digit, so backtracking can
   * only succeed at the end of the digit run.
   */
  function MatchLength(url: string, i: nat): nat
    requires i < |url|
  {
    if url[i] != '/' then 0
    else
      var d := DigitRun(url[i + 1..]);
      if d >= 1 && IsPrefix(".mp3", url[i + 1 + d..]) then d else 0
  }

  lemma MatchLengthIff(url: string, i: nat, k: int)
    requires i < |url|
    ensures ChapterMatch(url, i, k) <==> 1 <= k == MatchLength(url, i)
  {
    var s := url[i + 1..];
    if ChapterMatch(url, i, k) {
      assert s[k] == url[i + 1 + k] == '.';
      DigitRunExact(s, k);
      assert s[k..][..4] == url[i + 1 + k..i + k + 5];
    }
    if 1 <= k == MatchLength(url, i) {
      assert url[i + 1 + k..][..4] == url[i + 1 + k..i + k + 5];
      assert forall j :: i + 1 <= j < i + 1 + k ==> url[j] == s[j - i - 1];
    }
  }

  /** `re.search(r"/(\d+\.mp3)", url[from..])`-style scan: the group of the leftmost match at or after `from`. */
  function FindChapter(url: string, from: nat): Option<string>
    decreases |url| - from
  {
    if from >= |url| then None
    else
      var k := MatchLength(url, from);
      if k >= 1 then Some(url[from + 1..from + k + 5]) else FindChapter(url, from + 1)
  }

  /** Whatever the scan finds starts with a digit and ends in `.mp3`. */
  lemma FoundChapterShape(url: string, from: nat)
    ensures FindChapter(url, from).Some? ==>
              var f := FindChapter(url, from).value;
              |f| >= 5 && IsDigit(f[0]) && f[|f| - 4..] == ".mp3"
  {
    FindChapterSpec(url, from);
    if FindChapter(url, from).Some? {
      var f := FindChapter(url, from).value;
      var i, k :| from <= i && ChapterMatch(url, i, k) && f == url[i + 1..i + k + 5];
      assert f[|f| - 4..] == url[i + 1 + k..i + k + 5];
    }
  }

  /** `re.search(r"/(\d+\.mp3)", url).group(1)`, or `None` where the source would call `.group` on no match. */
  function ChapterFile(url: string): (r: Option<string>)
    ensures r.Some? ==> |r.value| >= 5 && IsDigit(r.value[0]) && r.value[|r.value| - 4..] == ".mp3"
    ensures r.None? ==> forall i, k :: !ChapterMatch(url, i, k)
  {
    FindChapterSpec(url, 0);
    FoundChapterShape(url, 0);
    FindChapter(url, 0)
  }

  /** The scan from `from` returns the group of the leftmost match from there on, and nothing only when there is none. */
  lemma {:induction false} FindChapterSpec(url: string, from: nat)
    ensures FindChapter(url, from).Some? ==>
              exists i, k :: from <= i && ChapterMatch(url, i, k)
                             && FindChapter(url, from).value == url[i + 1..i + k + 5]
                             && forall j, k' :: from <= j < i ==> !ChapterMatch(url, j, k')
    ensures FindChapter(url, from).None? ==> forall i, k :: from <= i ==> !ChapterMatch(url, i, k)
    decreases |url| - from
  {
    if from < |url| {
      var k := MatchLength(url, from);
      forall k' ensures ChapterMatch(url, from, k') <==> 1 <= k' == k {
        MatchLengthIff(url, from, k');
      }
      if k < 1 {
        FindChapterSpec(url, from + 1);
        if FindChapter(url, from + 1).Some? {
          var v := FindChapter(url, from + 1).value;
          var i, k1 :| from + 1 <= i && ChapterMatch(url, i, k1) && v == url[i + 1..i + k1 + 5]
                       && forall j, k' :: from + 1 <= j < i ==> !ChapterMatch(url, j, k');
          assert forall j, k' :: from <= j < i ==> !ChapterMatch(url, j, k');
        }
      } else {
        assert ChapterMatch(url, from, k);
      }
    }
  }

  /**
   * The chapter file of a URL: the `<digits>.mp3` right after the first
   * `/` that starts a match; nothing when no `/` is followed by digits and
   * `.mp3`.
   */
  lemma ChapterFileSpec(url: string)
    ensures ChapterFile(url).Some? ==>
              exists i, k :: ChapterMatch(url, i, k) && ChapterFile(url).value == url[i + 1..i + k + 5]
                             && forall j, k' :: 0 <= j < i ==> !ChapterMatch(url, j, k')
    ensures ChapterFile(url).None? <==> forall i, k :: !ChapterMatch(url, i, k)
  {
    FindChapterSpec(url, 0);
  }

  /** No match can start inside a match-free `prefix` once `/<digits>.mp3` is appended. */
  lemma NoMatchBeforeFile(prefix: string, digits: string, j: int, k: int)
    requires ChapterFile(prefix).None?
    requires 0 <= j < |prefix|
    ensures !ChapterMatch(prefix + "/" + digits + ".mp3", j, k)
  {
    var url := prefix + "/" + digits + ".mp3";
    var i := |prefix|;
    if 1 <= k && j + k + 5 <= |url| {
      if j + k + 5 <= i {
        // The window lies inside `prefix`, which has no match.
        ChapterFileSpec(prefix);
        assert url[j + 1 + k..j + k + 5] == prefix[j + 1 + k..j + k + 5];
        assert forall x :: 0 <= x < i ==> url[x] == prefix[x];
        assert !ChapterMatch(prefix, j, k);
      } else if i <= j + k {
        // The `/` after `prefix` would have to be a digit.
        assert url[i] == '/';
      } else {
        // The `/` after `prefix` would have to be part of `.mp3`.
        assert url[j + 1 + k..j + k + 5][i - j - 1 - k] == '/';
      }
    }
  }

  /** Positions where the pattern cannot match are skipped by the scan. */
  lemma {:induction false} FindChapterSkips(url: string, from: nat, to: nat)
    requires from <= to <= |url|
    requires forall j :: from <= j < to ==> MatchLength(url, j) == 0
    ensures FindChapter(url, from) == FindChapter(url, to)
    decreases |url| - from
  {
    if from < to {
      FindChapterSkips(url, from + 1, to);
    }
  }

  /** Before the appended `/<digits>.mp3`, the pattern matches nowhere. */
  lemma NoMatchLengthBeforeFile(prefix: string, digits: string, j: int)
    requires ChapterFile(prefix).None?
    requires 0 <= j < |prefix|
    ensures MatchLength(prefix + "/" + digits + ".mp3", j) == 0
  {
    var url := prefix + "/" + digits + ".mp3";
    NoMatchBeforeFile(prefix, digits, j, MatchLength(url, j));
    MatchLengthIff(url, j, MatchLength(url, j));
  }

  /** At the appended `/`, the pattern matches with all of `digits`. */
  lemma MatchAtFile(prefix: string, digits: string)
    requires |digits| >= 1 && forall j :: 0 <= j < |digits| ==> IsDigit(digits[j])
    ensures var url, i := prefix + "/" + digits + ".mp3", |prefix|;
            i < |url| && MatchLength(url, i) == |digits|
            && url[i + 1..i + |digits| + 5] == digits + ".mp3"
  {
    var url := prefix + "/" + digits + ".mp3";
    var i, k := |prefix|, |digits|;
    assert url[i] == '/';
    assert url[i + 1 + k..i + k + 5] == ".mp3";
    assert forall j :: i + 1 <= j < i + 1 + k ==> url[j] == digits[j - i - 1];
    assert ChapterMatch(url, i, k);
    MatchLengthIff(url, i, k);
    assert url[i + 1..i + k + 5] == digits + ".mp3";
  }

  /** A URL that ends in `/<digits>.mp3`, with no earlier match, names that file. */
  lemma ChapterOfTrailingFile(prefix: string, digits: string)
    requires |digits| >= 1 && forall j :: 0 <= j < |digits| ==> IsDigit(digits[j])
    requires ChapterFile(prefix).None?
    ensures ChapterFile(prefix + "/" + digits + ".mp3") == Some(digits + ".mp3")
  {
    var url := prefix + "/" + digits + ".mp3";
    var i := |prefix|;
    forall j | 0 <= j < i
      ensures MatchLength(url, j) == 0
    {
      NoMatchLengthBeforeFile(prefix, digits, j);
    }
    FindChapterSkips(url, 0, i);
    MatchAtFile(prefix, digits);
  }

  /** A chapter file is one or more digits followed by `.mp3`, so it never starts with `/`. */
  lemma ChapterFileShape(url: string)
    requires ChapterFile(url).Some?
    ensures var f := ChapterFile(url).value;
            |f| >= 5 && f[|f| - 4..] == ".mp3"
            && forall j :: 0 <= j < |f| - 4 ==> IsDigit(f[j])
  {
    ChapterFileSpec(url);
    var f := ChapterFile(url).value;
    var i, k :| ChapterMatch(url, i, k) && f == url[i + 1..i + k + 5];
    assert f[|f| - 4..] == url[i + 1 + k..i + k + 5];
    assert forall j :: 0 <= j < |f| - 4 ==> f[j] == url[i + 1 + j];
  }

  /** One download: the audio URL and the file it is written to. */
  datatype Job = Job(url: string, path: string)

  /** A non-empty folder that does not already end in `/` needs one before the next component. */
  predicate NeedsSeparator(a: string) {
    |a| > 0 && a[|a| - 1] != '/'
  }

  /**
   * `os.path.join(a, b)` on POSIX: an absolute `b` replaces `a`; otherwise
   * `b` becomes the last component under `a`, with one `/` between them
   * unless `a` is empty or already ends in `/`.
   */
  function PathJoin(a: string, b: string): (p: string)
    ensures |b| > 0 && b[0] == '/' ==> p == b
    ensures !(|b| > 0 && b[0] == '/') ==>
              |p| == |a| + |b| + (if NeedsSeparator(a) then 1 else 0)
              && p[..|a|] == a && p[|p| - |b|..] == b
              && (|a| > 0 ==> p[|p| - |b| - 1] == '/')
  {
    if |b| > 0 && b[0] == '/' then b
    else if |a| == 0 || a[|a| - 1] == '/' then a + b
    else a + "/" + b
  }

  /** `posixpath.join` adds a `/` only where one is missing. */
  lemma PathJoinExamples()
    ensures PathJoin("x", "y") == "x/y"
    ensures PathJoin("x/", "y") == "x/y"
    ensures PathJoin("", "y") == "y"
    ensures PathJoin("x", "/y") == "/y"
  {
  }

  /** The contract of `PathJoin` leaves exactly one string for a relative `b`. */
  lemma PathJoinPinned(a: string, b: string, q: string)
    requires !(|b| > 0 && b[0] == '/')
    requires |q| == |a| + |b| + (if NeedsSeparator(a) then 1 else 0)
    requires q[..|a|] == a && q[|q| - |b|..] == b
    requires |a| > 0 ==> q[|q| - |b| - 1] == '/'
    ensures q == PathJoin(a, b)
  {
    var p := PathJoin(a, b);
    forall i | 0 <= i < |q| ensures q[i] == p[i] {
      if i < |a| {
        assert q[i] == q[..|a|][i] && p[i] == p[..|a|][i];
      } else if i >= |q| - |b| {
        assert q[i] == q[|q| - |b|..][i - (|q| - |b|)] && p[i] == p[|p| - |b|..][i - (|p| - |b|)];
      }
    }
  }

  /**
   * The comprehension at main.py:92-95. It fails (in the source: calls
   * `.group` on no match) exactly when some URL has no chapter file;
   * otherwise there is one job per URL, in order, each written to the
   * folder joined with that URL's chapter file.
   */
  function BuildJobs(folder: string, urls: seq<string>): (jobs: Option<seq<Job>>)
    ensures jobs.None? <==> exists k :: 0 <= k < |urls| && ChapterFile(urls[k]).None?
    ensures jobs.Some? ==>
              |jobs.value| == |urls|
              && forall k :: 0 <= k < |urls| ==>
                   ChapterFile(urls[k]).Some?
                   && jobs.value[k] == Job(urls[k], PathJoin(folder, ChapterFile(urls[k]).value))
    decreases |urls|
  {
    if |urls| == 0 then Some([])
    else
      match ChapterFile(urls[0])
      case None => None
      case Some(file) =>
        match BuildJobs(folder, urls[1..])
        case None => None
        case Some(rest) => Some([Job(urls[0], PathJoin(folder, file))] + rest)
  }

  /** Job paths for URLs that each end in their own `/<digits>.mp3`, with no earlier match: one job per URL, named by its digits. */
  lemma JobsForChapterUrls(folder: string, prefixes: seq<string>, digits: seq<string>)
    requires |prefixes| == |digits|
    requires forall k :: 0 <= k < |digits| ==> |digits[k]| >= 1
    requires forall k, j :: 0 <= k < |digits| && 0 <= j < |digits[k]| ==> IsDigit(digits[k][j])
    requires forall k :: 0 <= k < |prefixes| ==> ChapterFile(prefixes[k]).None?
    ensures BuildJobs(folder, seq(|prefixes|, k requires 0 <= k < |prefixes| => prefixes[k] + "/" + digits[k] + ".mp3"))
         == Some(seq(|prefixes|, k requires 0 <= k < |prefixes| =>
                       Job(prefixes[k] + "/" + digits[k] + ".mp3", PathJoin(folder, digits[k] + ".mp3"))))
  {
    var urls := seq(|prefixes|, k requires 0 <= k < |prefixes| => prefixes[k] + "/" + digits[k] + ".mp3");
    forall k | 0 <= k < |prefixes|
      ensures ChapterFile(urls[k]) == Some(digits[k] + ".mp3")
    {
      ChapterOfTrailingFile(prefixes[k], digits[k]);
    }
    var expected := seq(|prefixes|, k requires 0 <= k < |prefixes| =>
                          Job(prefixes[k] + "/" + digits[k] + ".mp3", PathJoin(folder, digits[k] + ".mp3")));
    assert BuildJobs(folder, urls).Some?;
    var jobs := BuildJobs(folder, urls).value;
    assert forall k :: 0 <= k < |jobs| ==> jobs[k] == expected[k];
    assert jobs == expected;
  }

  /** Prepending a URL with a chapter file prepends its job. */
  lemma BuildJobsCons(folder: string, url: string, file: string, rest: seq<string>, jobs: seq<Job>)
    requires ChapterFile(url) == Some(file) && BuildJobs(folder, rest) == Some(jobs)
    ensures BuildJobs(folder, [url] + rest) == Some([Job(url, PathJoin(folder, file))] + jobs)
  {
    assert ([url] + rest)[1..] == rest;
  }

  /** A chapter URL written as one tail is the prefix, `/`, the digits and `.mp3`. */
  lemma ChapterUrlParts(prefix: string, digits: string, tail: string, file: string)
    requires file == digits + ".mp3" && tail == "/" + file
    ensures prefix + "/" + digits + ".mp3" == prefix + tail
  {
  }

  lemma ThreeChapterFiles(p1: string, p2: string, p3: string)
    requires ChapterFile(p1).None? && ChapterFile(p2).None? && ChapterFile(p3).None?
    ensures ChapterFile(p1 + "/12.mp3") == Some("12.mp3")
    ensures ChapterFile(p2 + "/13.mp3") == Some("13.mp3")
    ensures ChapterFile(p3 + "/14.mp3") == Some("14.mp3")
  {
    ChapterUrlParts(p1, "12", "/12.mp3", "12.mp3");
    ChapterUrlParts(p2, "13", "/13.mp3", "13.mp3");
    ChapterUrlParts(p3, "14", "/14.mp3", "14.mp3");
    ChapterOfTrailingFile(p1, "12");
    ChapterOfTrailingFile(p2, "13");
    ChapterOfTrailingFile(p3, "14");
  }

  /** Three URLs with chapter files give three jobs, in order. */
  lemma ThreeJobs(folder: string, u1: string, u2: string, u3: string, f1: string, f2: string, f3: string)
    requires ChapterFile(u1) == Some(f1) && ChapterFile(u2) == Some(f2) && ChapterFile(u3) == Some(f3)
    ensures BuildJobs(folder, [u1, u2, u3])
         == Some([Job(u1, PathJoin(folder, f1)), Job(u2, PathJoin(folder, f2)), Job(u3, PathJoin(folder, f3))])
  {
    var j1, j2, j3 := Job(u1, PathJoin(folder, f1)), Job(u2, PathJoin(folder, f2)), Job(u3, PathJoin(folder, f3));
    assert [u3] + [] == [u3] && [j3] + [] == [j3];
    assert [u2] + [u3] == [u2, u3] && [j2] + [j3] == [j2, j3];
    assert [u1] + [u2, u3] == [u1, u2, u3] && [j1] + [j2, j3] == [j1, j2, j3];
    BuildJobsCons(folder, u3, f3, [], []);
    BuildJobsCons(folder, u2, f2, [u3], [j3]);
    BuildJobsCons(folder, u1, f1, [u2, u3], [j2, j3]);
  }

  /** Three chapter URLs ending in `/12.mp3`, `/13.mp3` and `/14.mp3` give three jobs, in that order, named by those files. */
  lemma ThreeChapters(folder: string, p1: string, p2: string, p3: string)
    requires ChapterFile(p1).None? && ChapterFile(p2).None? && ChapterFile(p3).None?
    ensures BuildJobs(folder, [p1 + "/12.mp3", p2 + "/13.mp3", p3 + "/14.mp3"])
         == Some([Job(p1 + "/12.mp3", PathJoin(folder, "12.mp3")),
                  Job(p2 + "/13.mp3", PathJoin(folder, "13.mp3")),
                  Job(p3 + "/14.mp3", PathJoin(folder, "14.mp3"))])
  {
    ThreeChapterFiles(p1, p2, p3);
    ThreeJobs(folder, p1 + "/12.mp3", p2 + "/13.mp3", p3 + "/14.mp3", "12.mp3", "13.mp3", "14.mp3");
  }

  /**
   * `path` is the folder, then a `/` exactly when the folder needs one,
   * then `file`: one or more digits followed by `.mp3`. Under a non-empty
   * folder, the character right before `file` is a `/`, so `file` is the
   * last path component.
   */
  predicate IsChapterPath(folder: string, file: string, path: string) {
    |file| >= 5 && |path| == |folder| + |file| + (if NeedsSeparator(folder) then 1 else 0)
    && path[..|folder|] == folder && path[|path| - |file|..] == file
    && (|folder| > 0 ==> path[|path| - |file| - 1] == '/')
    && file[|file| - 4..] == ".mp3"
    && forall j :: 0 <= j < |file| - 4 ==> IsDigit(file[j])
  }

  /** Joining the folder with a chapter file gives a path inside the folder that ends in that file. */
  lemma ChapterPathShape(folder: string, file: string)
    requires |file| >= 5 && file[|file| - 4..] == ".mp3"
    requires forall j :: 0 <= j < |file| - 4 ==> IsDigit(file[j])
    ensures IsChapterPath(folder, file, PathJoin(folder, file))
  {
    assert IsDigit(file[0]);
  }

  /**
   * Every job path lies inside the folder: it is the folder, a `/` when the
   * folder needs one, and the URL's chapter file, digits ending in `.mp3`.
   */
  lemma JobPathsInsideFolder(folder: string, urls: seq<string>)
    requires BuildJobs(folder, urls).Some?
    ensures forall k :: 0 <= k < |urls| ==>
              ChapterFile(urls[k]).Some?
              && IsChapterPath(folder, ChapterFile(urls[k]).value, BuildJobs(folder, urls).value[k].path)
  {
    var jobs := BuildJobs(folder, urls).value;
    forall k | 0 <= k < |urls|
      ensures ChapterFile(urls[k]).Some? && IsChapterPath(folder, ChapterFile(urls[k]).value, jobs[k].path)
    {
      ChapterFileShape(urls[k]);
      ChapterPathShape(folder, ChapterFile(urls[k]).value);
    }
  }
}
