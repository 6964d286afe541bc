/**
 * The title sanitizer `strip_unwanted_chars` (main.py:21-23): every
 * character outside `[a-zA-Z0-9 ,.!?-]` is deleted, and it is applied to
 * every input line (main.py:30, main.py:36).
 */
module Sanitize {

  /** The characters the sanitizer keeps: letters, digits, space and `,.!?-`. */
  predicate IsAllowed(c: char) {
    'a' <= c <= 'z' || 'A' <= c <= 'Z' || '0' <= c <= '9'
    || c == ' ' || c == ',' || c == '.' || c == '!' || c == '?' || c == '-'
  }

  predicate IsSanitized(s: string) {
    forall i :: 0 <= i < |s| ==> IsAllowed(s[i])
  }

  /** `a` can be obtained from `b` by deleting characters. */
  predicate IsSubsequence(a: string, b: string)
    decreases |b|
  {
    |a| == 0 || (|b| > 0 && ((a[0] == b[0] && IsSubsequence(a[1..], b[1..])) || IsSubsequence(a, b[1..])))
  }

  /**
   * `re.sub(r'[^a-zA-Z0-9 ,.!?-]', '', text)`. The result holds only
   * allowed characters, each allowed character as often as the input
   * does and no disallowed one, and a clean input comes back unchanged.
   */
  function StripUnwantedChars(text: string): (r: string)
    ensures IsSanitized(r)
    ensures forall c :: IsAllowed(c) ==> multiset(r)[c] == multiset(text)[c]
    ensures IsSanitized(text) ==> r == text
    decreases |text|
  {
    if |text| == 0 then ""
    else if IsAllowed(text[0]) then
      assert text == [text[0]] + text[1..];
      [text[0]] + StripUnwantedChars(text[1..])
    else
      assert text == [text[0]] + text[1..];
      StripUnwantedChars(text[1..])
  }

  /** The kept characters stay in their original order: the result is a subsequence. */
  lemma {:induction false} StripIsSubsequence(text: string)
    ensures IsSubsequence(StripUnwantedChars(text), text)
    ensures |StripUnwantedChars(text)| <= |text|
    decreases |text|
  {
    if |text| > 0 {
      StripIsSubsequence(text[1..]);
      var rest := StripUnwantedChars(text[1..]);
      if IsAllowed(text[0]) {
        assert ([text[0]] + rest)[1..] == rest;
      }
    }
  }

  /** Sanitizing twice is sanitizing once. */
  lemma StripIdempotent(text: string)
    ensures StripUnwantedChars(StripUnwantedChars(text)) == StripUnwantedChars(text)
  {
  }

  /** Every line read from input, `[strip_unwanted_chars(line) for line in ...readlines()]`. */
  function SanitizeLines(lines: seq<string>): (books: seq<string>)
    ensures |books| == |lines|
    ensures forall k :: 0 <= k < |books| ==> books[k] == StripUnwantedChars(lines[k])
  {
    seq(|lines|, k requires 0 <= k < |lines| => StripUnwantedChars(lines[k]))
  }

  /** The newline `readlines` leaves on each line never survives sanitizing, nor does any other control character. */
  lemma SanitizedLinesHaveNoNewline(lines: seq<string>)
    ensures forall k :: 0 <= k < |lines| ==> '\n' !in SanitizeLines(lines)[k] && '\r' !in SanitizeLines(lines)[k]
  {
  }
}
