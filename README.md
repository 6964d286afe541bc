# findaudiobook: the string logic of the downloader, in Dafny

`main.py` is a small script that reads book titles, one per line, and
searches findaudiobook.net for each one. It takes the first search result
when its title contains the requested name, and downloads that book's
chapter MP3 files into a folder named after the title. This project models
the pure part of that script, the part that decides what is fetched and
where it is written:

- the input sanitizer `strip_unwanted_chars` (module `Sanitize`);
- the search URL: split the name on spaces, percent-encode each word with
  `quote`, join the words with `+` (module `Query`);
- normalising the `&#8211;` entity to `-`, and the match gate
  `name.lower() in title.lower()` (module `Match`);
- the safe folder name. It removes `(Online)` and `Audiobook`, strips
  whitespace, maps every character outside `[a-zA-Z0-9-]` to `_`, collapses
  runs of `_`, and rewrites `_-_` as `-` (module `SafeName`);
- chapter-file extraction with `/(\d+\.mp3)`, `os.path.join`, and the
  list of download jobs (module `Jobs`);
- one call of `download_book`, from the search page it receives to its
  outcome (module `Download`).

Module `Text` holds the Python string operations these rely on: `in`,
`split`, `join`, `replace`, `lower` and `strip`. Each is proved against an
independent statement. `IsSubstring` is proved equal to "occurs at some
index". `split` cuts at the leftmost occurrence of the separator. Joining
the pieces of a split gives back the string for every separator. Splitting
a join gives back the pieces only for separators that cannot overlap
themselves. `_-_` can: its two occurrences in `_-_-_` share the middle
`_`, and `JoinHyphens("_-_-_")` is `--_`. `replace` is
proved to be a split followed by a join with the replacement. `strip` is
proved to return the slice between the whitespace at either end.

Two behaviours of the code are easy to miss; the model follows the code:

- A title that ends in the usual separator, like `Some Book - `, gives
  the folder `Some_Book_-`, not `Some_Book` (`SafeName.TrailingSeparatorKept`).
  The space before the hyphen becomes `_`. `_-_` needs an underscore on
  both sides, so that rewrite never fires.
- Deriving the name is not idempotent (`SafeName.SafeBookNameFixpoint`,
  `SafeName.RemovalJoinsHalves`). Removing `Audiobook` can join two halves
  into a new `Audiobook`: `AudioAudiobookbook` gives `Audiobook`, which
  gives the empty name.

## Model

| member | source | states |
|---|---|---|
| Sanitize.StripUnwantedChars | main.py:21-23 | The result holds only characters of `[a-zA-Z0-9 ,.!?-]`. Every allowed character occurs exactly as often as in the input. An already clean line comes back unchanged. |
| Sanitize.StripIsSubsequence | main.py:21-23 | Sanitizing only deletes characters: the result is a subsequence of the input, in the same order, and no longer than it. |
| Sanitize.StripIdempotent | main.py:21-23 | Sanitizing twice is sanitizing once. |
| Sanitize.SanitizeLines | main.py:29-36 | Every input line, from stdin or from the list file, becomes one book name: its sanitized form, at the same position. |
| Sanitize.SanitizedLinesHaveNoNewline | main.py:30 | The newline that `readlines` leaves on a line never reaches a book name, and neither does a carriage return. |
| Query.Quote | main.py:58 | `quote(word)` writes only unreserved characters, `/` or `%`, so never a space or a `+`. A word of safe characters comes back as it is. |
| Query.QuoteRoundTrip | main.py:58 | Percent-decoding a quoted word gives back the word. |
| Query.SearchQuery | main.py:58 | The query that follows `?s=` never holds a space. |
| Query.SearchUrl | main.py:58 | The search URL is exactly the site address, then `?s=`, then `SearchQuery(name)`. |
| Query.QueryPieces | main.py:58 | Every word of the name is ASCII, and splitting the query on `+` gives exactly the quoted words, in order. |
| Query.SearchQueryRoundTrip | main.py:58 | The query holds no space. It has one `+`-separated piece per space-separated word of the name. Piece k is word k quoted and decodes back to it. Decoding the whole query (split on `+`, decode, join with spaces) gives back the name. |
| Text.IsSubstringIffOccurs | main.py:71 | `needle in hay` holds exactly when the needle occurs at some index of the hay. |
| Text.JoinSplit | main.py:58 | Joining the pieces of `s.split(sep)` with `sep` gives back `s`. |
| Text.SplitCutsAtFirst | main.py:58 | `split` cuts at the leftmost occurrence: the first piece is the text before it, no occurrence starts inside that piece, and the other pieces are the split of what follows. Without an occurrence the only piece is the whole string. |
| Text.SplitPiecesAvoidSep | main.py:58 | No piece of `s.split(sep)` contains the separator. |
| Text.SplitJoin | main.py:58 | Splitting a join of separator-free pieces gives back the pieces, provided the separator's first character occurs nowhere else in it (`Text.HeadUnique`), so that it cannot overlap itself. |
| Text.ReplaceIsJoinOfSplit | main.py:69 | `s.replace(pat, rep)` equals splitting on `pat` and joining with `rep`. |
| Text.ReplaceSingleOccurrence | main.py:78-79 | Replacing in `a + pat + b`, where neither side holds `pat`, gives `a + rep + b`. |
| Text.Lower | main.py:71 | Lower-casing keeps the length, lowers each character in place, and leaves no ASCII capital. |
| Text.LowerIdempotent | main.py:71 | Lowering twice is lowering once. |
| Text.Strip | main.py:80 | `strip()` returns a slice of the string, with only whitespace before and after it, and neither end of it is whitespace. |
| Text.StripUnchanged | main.py:80 | A string with no whitespace at either end is its own strip. |
| Match.NormaliseEntities | main.py:69 | No `&#8211;` is left. The text never grows, and it shrinks when it held an entity. |
| Match.EntitiesBecomeHyphens | main.py:69 | Cut at its `&#8211;` occurrences, the title gives entity-free pieces that rebuild it. Normalising joins those pieces with `-`, so no entity remains. |
| Match.EachEntityBecomesOneHyphen | main.py:69 | Entity-free pieces joined by the entity normalise to the same pieces joined by `-`. |
| Match.TitleMatches | main.py:71 | A name longer than the title never passes the gate. A title equal to the name up to ASCII case always does. |
| Match.TitleMatchesIffOccurs | main.py:71-73 | The gate passes exactly when the lower-cased name occurs at some index of the lower-cased title. |
| Match.TitleMatchIgnoresCase | main.py:71 | The gate gives the same answer when either side is lowered first. |
| Match.EmptyNameMatchesEveryTitle | main.py:71 | An empty name (a blank input line) passes the gate for any title. |
| SafeName.MapUnsafe | main.py:75-77 | The length is kept. Every `[a-zA-Z0-9-]` character stays in place, and every other character becomes `_`. |
| SafeName.MapUnsafeUnchanged | main.py:75-77 | A string of name characters is left as it is. |
| SafeName.CollapseUnderscores | main.py:82 | The result is no longer than the input, starts with the same character, and has no `__`. |
| SafeName.CollapseIsKeepFrom | main.py:82 | The collapse equals an independent position-by-position filter: it keeps a character unless it is an underscore right after another underscore. |
| SafeName.CollapseDoubleUnderscore | main.py:82 | `a__b` collapses to `a_b`. |
| SafeName.CollapseDropsOnlyUnderscores | main.py:82 | Collapsing deletes only underscores. The other characters survive in order, and no character is introduced. |
| SafeName.CollapseFixpoint | main.py:82 | Collapsing changes a string exactly when it holds `__`, so collapsing is idempotent. |
| SafeName.JoinHyphens | main.py:83 | Rewriting `_-_` never lengthens the string. It shortens it when `_-_` occurs, and leaves it unchanged otherwise. |
| SafeName.JoinHyphensLeftmost | main.py:83 | Matches are taken from the left and do not overlap: `_-_-_` becomes `--_`. |
| SafeName.JoinHyphensShape | main.py:83 | On a string without `__`, rewriting `_-_` as `-` leaves neither `__` nor `_-_`, even where matches touch. |
| SafeName.RemoveMarkers | main.py:78-79 | Removing the markers never lengthens the title. A title holding neither `(Online)` nor `Audiobook` is left as it is. |
| SafeName.RemoveMarkersUnchanged | main.py:78-79 | A name-character string with no `Audiobook` loses nothing to the marker removal. |
| SafeName.RemoveOneMarker | main.py:78-79 | One `Audiobook` between two marker-free halves is cut out, and the halves are joined. |
| SafeName.SafeBookName | main.py:75-83 | The folder name uses only `[a-zA-Z0-9_-]` and contains neither `__` nor `_-_`. |
| SafeName.SafeNameUnchanged | main.py:75-83 | A clean name without `Audiobook` is its own safe name. |
| SafeName.SafeNameShrinks | main.py:75-83 | A name-character string that still contains `Audiobook` comes out strictly shorter. |
| SafeName.SafeBookNameFixpoint | main.py:75-83 | Deriving the name again changes it exactly when `Audiobook` is still in it. |
| SafeName.RemovalJoinsHalves | main.py:75-83 | A title made of two clean halves around `Audiobook` gives the joined halves. When the join spells `Audiobook`, deriving again changes the name. |
| SafeName.TrimmedTrailingSeparator | main.py:78-80 | A marker-free title ending in ` - ` is trimmed to end in ` -`. |
| SafeName.TrailingSeparatorKept | main.py:75-83 | A title `core + " - "`, with core ending in a letter or digit, gives the mapped core followed by `_-`: the trailing hyphen survives. |
| Jobs.MatchLengthIff | main.py:94 | `/(\d+\.mp3)` matches at index i with k digits exactly when the greedy digit run after the `/` at i has length k >= 1 and is followed by `.mp3`. |
| Jobs.FindChapterSpec | main.py:94 | From a start index, the scan returns the group of the leftmost match, and there is no match before it. It returns nothing exactly when there is no match. |
| Jobs.ChapterFile | main.py:94 | A chapter file starts with a digit and ends in `.mp3`, with at least one character before it. There is none only when the pattern matches nowhere. |
| Jobs.ChapterFileSpec | main.py:94 | `re.search(r"/(\d+\.mp3)", url).group(1)` is the group of the leftmost match. There is none exactly when the pattern matches nowhere. |
| Jobs.ChapterOfTrailingFile | main.py:94 | A URL that ends in `/<digits>.mp3`, with no earlier match, names `<digits>.mp3`. |
| Jobs.ChapterFileShape | main.py:94 | A chapter file is one or more digits followed by `.mp3`. |
| Jobs.PathJoin | main.py:89 | `os.path.join(a, b)`: an absolute `b` replaces `a`. Otherwise the result starts with `a` and ends with `b`. A `/` stands between them exactly when `a` is non-empty and does not already end in `/`; the length says nothing else is added. |
| Jobs.PathJoinPinned | main.py:89 | Those facts leave exactly one string: any string that meets them is `PathJoin(a, b)`. |
| Jobs.PathJoinExamples | main.py:89 | `("x", "y")` and `("x/", "y")` both give `x/y`, `("", "y")` gives `y`, and `("x", "/y")` gives `/y`. |
| Jobs.BuildJobs | main.py:92-95 | Job construction fails exactly when some audio URL has no chapter file. Otherwise there is one job per URL, in order, whose path joins the folder and that URL's chapter file. |
| Jobs.JobsForChapterUrls | main.py:92-95 | URLs that each end in their own `/<digits>.mp3` give, in order, jobs named by those files. |
| Jobs.ThreeChapters | main.py:92-95 | Chapter URLs ending in `/12.mp3`, `/13.mp3` and `/14.mp3` give three jobs in that order, written to `12.mp3`, `13.mp3` and `14.mp3` in the folder. |
| Jobs.JobPathsInsideFolder | main.py:92-95 | Every job path satisfies `Jobs.IsChapterPath`. It is the book folder, then a `/` exactly when the folder needs one, then its URL's chapter file, which is digits followed by `.mp3`. Nothing else is in the path, so the file is a direct child of the folder. |
| Download.DownloadBook | main.py:55-95 | A book is downloaded only when the fetched page has an article whose title passes the gate, so the title is at least as long as the name. There is one job per audio URL. |
| Download.DownloadBookOutcome | main.py:55-95 | The outcomes, case by case: a missing article or title link raises; a title that fails the gate is skipped. A matched book raises when some audio URL has no chapter file, and `Download.Raises` holds exactly in these three cases. Otherwise it gets one job per audio URL, in order, inside the folder named after the safe name. |
| Download.DownloadsOnlyOnMatch | main.py:71-73 | A book is downloaded only when the lower-cased name occurs in the lower-cased candidate title. |
| Download.BookFolderShape | main.py:89 | The book folder is the output folder, then a `/` exactly when the output folder needs one, then the safe name, so the safe name is its last component. |
| Download.SanitizedIsAscii | main.py:21-23 | Every sanitized line is ASCII, so the ASCII-only `Query.Quote` covers every name that reaches the search. |

## Left out

- HTTP requests (main.py:60, main.py:45), chunked file writes (main.py:46-48) and the eight-thread pool (main.py:51-52): network and file I/O.
- Folder creation (main.py:39-41, main.py:90, main.py:106): file-system effects.
- Argument parsing, the stdin/tty test and file reading (main.py:12-18, main.py:29-36): the lines are taken as input.
- The attribute-name mismatch: `args.output_dir` and `args.book_list` name options that the parser defines as `--output` and `--file`, so the script fails before any of the modelled code runs. The output folder is a parameter of the model instead.
- The `main` loop (main.py:99-109): it only calls `download_book` for each name in turn, around printing and I/O. `Download.DownloadBook` models one such call.
- The regular expressions that pull the first article, its bookmark text and its audio sources out of the HTML (main.py:63-68, main.py:86). Their results are the `Download.SearchPage` input.
- `print`, `exit` and the `KeyboardInterrupt` handler: console output and process control.
- Download.DownloadBook: the `.group` call on a failed search raises an exception that ends the whole run. The model returns a distinct outcome instead (`Download.Raises`).
- Download.DownloadBook: requires an ASCII name. Every name is a sanitized line (`Download.SanitizedIsAscii`), so this excludes no name the script can see.
- Query.Quote: ASCII only. Multi-byte UTF-8 escapes are not modelled, because sanitized names are ASCII. `Query.PercentDecode` is a reference decoder for the site's side, not code from the script.
- Text.Lower: lowers ASCII letters only. Python's `str.lower` also lowers non-ASCII letters, and a few of those lower to ASCII letters (the Kelvin sign gives `k`). So `Match.TitleMatches` can reject a title with such characters that the script would accept.
- Jobs.MatchLengthIff: reads `\d` as `[0-9]` only. In Python 3 a `str` pattern's `\d` also matches other Unicode decimal digits (category Nd), such as Arabic-Indic digits. A URL whose chapter number uses such digits is matched by the script but not by the model.
- Jobs.ChapterFileSpec: the same `[0-9]` reading of `\d` as `Jobs.MatchLengthIff`.
- Jobs.PathJoin: models POSIX `os.path.join` only. The Windows rules for drives and backslashes are not modelled.
- Text.Strip: uses the whitespace set of `str.isspace` as listed in `Text.IsSpace`. No other Unicode normalisation is modelled.
