/**
 * The search URL built at main.py:58: the requested name is split on
 * `' '`, each word is percent-encoded with `requests.utils.quote` (that is
 * `urllib.parse.quote` with `/` kept), the words are joined with `+` and the
 * result is appended to the site's address as the `s` parameter.
 */
module Query {
  import opened Options
  import opened Text

  const WEBSITE_URL: string := "https://findaudiobook.net/"

  predicate IsAscii(s: string) {
    forall i :: 0 <= i < |s| ==> s[i] < '\U{0080}'
  }

  /** What `quote(word)` leaves alone: letters, digits and `_.-~`, plus the default safe `/`. */
  predicate IsQuoteSafe(c: char) {
    'A' <= c <= 'Z' || 'a' <= c <= 'z' || '0' <= c <= '9'
    || c == '_' || c == '.' || c == '-' || c == '~' || c == '/'
  }

  predicate IsHexDigit(c: char) {
    '0' <= c <= '9' || 'A' <= c <= 'F' || 'a' <= c <= 'f'
  }

  function HexValue(c: char): (n: nat)
    requires IsHexDigit(c)
    ensures n < 16
  {
    if '0' <= c <= '9' then c as int - '0' as int
    else if 'A' <= c <= 'F' then c as int - 'A' as int + 10
    else c as int - 'a' as int + 10
  }

  /** The upper-case hex digit `quote` writes for `n`; reading it back gives `n`. */
  function HexDigit(n: nat): (c: char)
    requires n < 16
    ensures IsHexDigit(c) && IsQuoteSafe(c) && HexValue(c) == n
  {
    if n < 10 then ('0' as int + n) as char else ('A' as int + n - 10) as char
  }

  /** One character as `quote` writes it: itself when safe, otherwise `%XX` of its (one-byte) UTF-8 code. */
  function QuoteChar(c: char): string
    requires c < '\U{0080}'
  {
    if IsQuoteSafe(c) then [c]
    else ['%', HexDigit(c as int / 16), HexDigit(c as int % 16)]
  }

  /**
   * `quote(word)` on an ASCII word. Everything it writes is a safe
   * character or a `%` escape, so in particular no space and no `+`, and a
   * word of safe characters comes back as it is.
   */
  function Quote(word: string): (r: string)
    requires IsAscii(word)
    ensures forall i :: 0 <= i < |r| ==> IsQuoteSafe(r[i]) || r[i] == '%'
    ensures (forall i :: 0 <= i < |word| ==> IsQuoteSafe(word[i])) ==> r == word
    decreases |word|
  {
    if |word| == 0 then ""
    else
      assert word == [word[0]] + word[1..];
      QuoteChar(word[0]) + Quote(word[1..])
  }

  /** The percent-decoder the search site applies: `%XX` becomes one ASCII character, anything else stands for itself. */
  function PercentDecode(s: string): Option<string>
    decreases |s|
  {
    if |s| == 0 then Some("")
    else if s[0] == '%' then
      if |s| >= 3 && IsHexDigit(s[1]) && IsHexDigit(s[2]) && HexValue(s[1]) * 16 + HexValue(s[2]) < 128 then
        match PercentDecode(s[3..])
        case None => None
        case Some(t) => Some([(HexValue(s[1]) * 16 + HexValue(s[2])) as char] + t)
      else None
    else
      match PercentDecode(s[1..])
      case None => None
      case Some(t) => Some([s[0]] + t)
  }

  lemma DecodeQuoteChar(c: char, t: string)
    requires c < '\U{0080}'
    ensures PercentDecode(QuoteChar(c) + t)
         == match PercentDecode(t) case None => None case Some(u) => Some([c] + u)
  {
    var s := QuoteChar(c) + t;
    if IsQuoteSafe(c) {
      assert s[1..] == t;
    } else {
      var hi, lo := c as int / 16, c as int % 16;
      assert s[1] == HexDigit(hi) && s[2] == HexDigit(lo);
      assert s[3..] == t;
      assert HexValue(s[1]) * 16 + HexValue(s[2]) == c as int;
    }
  }

  /** Decoding a quoted word gives the word back. */
  lemma {:induction false} QuoteRoundTrip(word: string)
    requires IsAscii(word)
    ensures PercentDecode(Quote(word)) == Some(word)
    decreases |word|
  {
    if |word| > 0 {
      QuoteRoundTrip(word[1..]);
      DecodeQuoteChar(word[0], Quote(word[1..]));
      assert [word[0]] + word[1..] == word;
    }
  }

  /** `map(quote, words)`. */
  function QuoteAll(words: seq<string>): (quoted: seq<string>)
    requires forall k :: 0 <= k < |words| ==> IsAscii(words[k])
    ensures |quoted| == |words|
    ensures forall k :: 0 <= k < |words| ==> quoted[k] == Quote(words[k])
  {
    seq(|words|, k requires 0 <= k < |words| => Quote(words[k]))
  }

  /** The pieces of an ASCII string split on a character are ASCII. */
  lemma {:induction false} SplitKeepsAscii(s: string, sep: string)
    requires |sep| > 0 && IsAscii(s)
    ensures forall k :: 0 <= k < |Split(s, sep)| ==> IsAscii(Split(s, sep)[k])
    decreases |s|
  {
    if IsPrefix(sep, s) {
      SplitKeepsAscii(s[|sep|..], sep);
    } else if |s| > 0 {
      SplitKeepsAscii(s[1..], sep);
      var rest := Split(s[1..], sep);
      assert Split(s, sep) == [[s[0]] + rest[0]] + rest[1..];
      assert forall k :: 1 <= k < |Split(s, sep)| ==> Split(s, sep)[k] == rest[k];
    }
  }

  /** No quoted word holds a space or a `+`. */
  lemma QuotedWordsClean(words: seq<string>)
    requires forall k :: 0 <= k < |words| ==> IsAscii(words[k])
    ensures forall k :: 0 <= k < |words| ==>
              ' ' !in QuoteAll(words)[k] && !IsSubstring("+", QuoteAll(words)[k])
  {
    var quoted := QuoteAll(words);
    forall k | 0 <= k < |words|
      ensures ' ' !in quoted[k] && !IsSubstring("+", quoted[k])
    {
      SingleCharSubstring('+', quoted[k]);
    }
  }

  /** The value of the `s` parameter, `'+'.join(map(quote, name.split(' ')))`: it never holds a space. */
  function SearchQuery(name: string): (q: string)
    requires IsAscii(name)
    ensures ' ' !in q
  {
    SplitKeepsAscii(name, " ");
    QuotedWordsClean(Split(name, " "));
    JoinAvoids(QuoteAll(Split(name, " ")), "+", ' ');
    Join(QuoteAll(Split(name, " ")), "+")
  }

  /** The search URL requested for `name`: the site address, `?s=` and the query. */
  function SearchUrl(name: string): (url: string)
    requires IsAscii(name)
    ensures IsPrefix(WEBSITE_URL + "?s=", url)
    ensures url == WEBSITE_URL + "?s=" + SearchQuery(name)
  {
    var prefix := WEBSITE_URL + "?s=";
    var url := prefix + SearchQuery(name);
    assert url[..|prefix|] == prefix;
    url
  }

  /** Decode every `+`-separated piece; fails when any piece is malformed. */
  function DecodeAll(pieces: seq<string>): Option<seq<string>>
    decreases |pieces|
  {
    if |pieces| == 0 then Some([])
    else
      match PercentDecode(pieces[0])
      case None => None
      case Some(w) =>
        match DecodeAll(pieces[1..])
        case None => None
        case Some(ws) => Some([w] + ws)
  }

  /** How the site reads the parameter back: split on `+`, decode each piece, join with spaces. */
  function DecodeQuery(q: string): Option<string>
  {
    match DecodeAll(Split(q, "+"))
    case None => None
    case Some(words) => Some(Join(words, " "))
  }

  lemma {:induction false} DecodeAllQuoted(words: seq<string>)
    requires forall k :: 0 <= k < |words| ==> IsAscii(words[k])
    ensures DecodeAll(QuoteAll(words)) == Some(words)
    decreases |words|
  {
    if |words| > 0 {
      QuoteRoundTrip(words[0]);
      DecodeAllQuoted(words[1..]);
      assert QuoteAll(words)[1..] == QuoteAll(words[1..]);
      assert [words[0]] + words[1..] == words;
    }
  }

  /** Cutting the query at `+` gives back exactly the quoted words, in order. */
  lemma QueryPieces(name: string)
    requires IsAscii(name)
    ensures forall k :: 0 <= k < |Split(name, " ")| ==> IsAscii(Split(name, " ")[k])
    ensures Split(SearchQuery(name), "+") == QuoteAll(Split(name, " "))
  {
    SplitKeepsAscii(name, " ");
    QuotedWordsClean(Split(name, " "));
    assert HeadUnique("+");
    SplitJoin(QuoteAll(Split(name, " ")), "+");
  }

  /**
   * For any ASCII name the query holds no space; it has exactly one
   * `+`-separated piece per `' '`-separated word of the name, piece k is
   * word k quoted and decodes back to it, and decoding the whole query
   * gives back the name.
   */
  lemma SearchQueryRoundTrip(name: string)
    requires IsAscii(name)
    ensures forall k :: 0 <= k < |Split(name, " ")| ==> IsAscii(Split(name, " ")[k])
    ensures ' ' !in SearchQuery(name)
    ensures |Split(SearchQuery(name), "+")| == |Split(name, " ")|
    ensures forall k :: 0 <= k < |Split(name, " ")| ==>
              Split(SearchQuery(name), "+")[k] == Quote(Split(name, " ")[k])
              && PercentDecode(Split(SearchQuery(name), "+")[k]) == Some(Split(name, " ")[k])
    ensures DecodeQuery(SearchQuery(name)) == Some(name)
  {
    var words := Split(name, " ");
    QueryPieces(name);
    forall k | 0 <= k < |words| ensures PercentDecode(Quote(words[k])) == Some(words[k]) {
      QuoteRoundTrip(words[k]);
    }
    DecodeAllQuoted(words);
    JoinSplit(name, " ");
  }
}
