/** The `Option` wrapper used where the script can come up empty-handed. */
module Options {

  datatype Option<+T> = None | Some(value: T)
}

/**
 * The Python string operations the script relies on, over `string`
 * (a sequence of Unicode scalar values): `in`, `startswith`, `split`,
 * `join`, `replace`, `lower` and `strip`.
 */
module Text {

  /** `hay.startswith(needle)`. */
  predicate IsPrefix(needle: string, hay: string) {
    |needle| <= |hay| && hay[..|needle|] == needle
  }

  /** `needle in hay`: try every start position from the left. */
  predicate IsSubstring(needle: string, hay: string)
    decreases |hay|
  {
    IsPrefix(needle, hay) || (|hay| > 0 && IsSubstring(needle, hay[1..]))
  }

  /** `needle` occurs in `hay` starting at index `i`. */
  ghost predicate OccursAt(needle: string, hay: string, i: int) {
    0 <= i && i + |needle| <= |hay| && hay[i..i + |needle|] == needle
  }

  /** An occurrence after the first index of `hay` is an occurrence in `hay[1..]`, one index earlier. */
  lemma OccursInTail(needle: string, hay: string, i: int)
    requires |hay| > 0 && 0 < i
    ensures OccursAt(needle, hay, i) <==> OccursAt(needle, hay[1..], i - 1)
  {
    if i + |needle| <= |hay| {
      assert hay[1..][i - 1..i - 1 + |needle|] == hay[i..i + |needle|];
    }
  }

  /** The left-to-right scan of `IsSubstring` finds an occurrence exactly when one exists. */
  lemma {:induction false} IsSubstringIffOccurs(needle: string, hay: string)
    ensures IsSubstring(needle, hay) <==> exists i :: OccursAt(needle, hay, i)
    decreases |hay|
  {
    if IsPrefix(needle, hay) {
      assert OccursAt(needle, hay, 0);
    } else if |hay| > 0 {
      IsSubstringIffOccurs(needle, hay[1..]);
      if IsSubstring(needle, hay[1..]) {
        var i :| OccursAt(needle, hay[1..], i);
        OccursInTail(needle, hay, i + 1);
      } else {
        forall i ensures !OccursAt(needle, hay, i) {
          if 0 < i {
            OccursInTail(needle, hay, i);
          }
        }
      }
    } else {
      assert |needle| > 0;
    }
  }

  /** Where the needle does not occur, no window of its length equals it. */
  lemma NotSubstringAt(needle: string, hay: string, i: int)
    requires !IsSubstring(needle, hay) && 0 <= i && i + |needle| <= |hay|
    ensures hay[i..i + |needle|] != needle
  {
    IsSubstringIffOccurs(needle, hay);
    assert !OccursAt(needle, hay, i);
  }

  /** A one-character needle is a substring exactly when that character is a member. */
  lemma {:induction false} SingleCharSubstring(c: char, hay: string)
    ensures IsSubstring([c], hay) <==> c in hay
    decreases |hay|
  {
    if |hay| > 0 {
      SingleCharSubstring(c, hay[1..]);
      assert hay == [hay[0]] + hay[1..];
    }
  }

  /** A needle that starts with a character absent from `hay` cannot occur in it. */
  lemma HeadAbsentNotSubstring(needle: string, hay: string)
    requires |needle| > 0 && needle[0] !in hay
    ensures !IsSubstring(needle, hay)
  {
    IsSubstringIffOccurs(needle, hay);
    forall i ensures !OccursAt(needle, hay, i) {
      if 0 <= i && i + |needle| <= |hay| {
        assert hay[i..i + |needle|][0] == hay[i];
      }
    }
  }

  /** A needle longer than the text cannot occur in it. */
  lemma {:induction false} ShortNotSubstring(needle: string, hay: string)
    requires |hay| < |needle|
    ensures !IsSubstring(needle, hay)
    decreases |hay|
  {
    if |hay| > 0 {
      ShortNotSubstring(needle, hay[1..]);
    }
  }

  /** Whatever occurs in a text is no longer than it. */
  lemma SubstringNoLonger(needle: string, hay: string)
    ensures IsSubstring(needle, hay) ==> |needle| <= |hay|
  {
    if |hay| < |needle| {
      ShortNotSubstring(needle, hay);
    }
  }

  /** Every text occurs in itself. */
  lemma SubstringOfItself(s: string)
    ensures IsSubstring(s, s)
  {
    assert s[..|s|] == s;
  }

  /** A needle cannot occur where no two neighbouring characters match its first two. */
  lemma {:induction false} PairAbsentNotSubstring(needle: string, hay: string)
    requires |needle| >= 2
    requires forall i :: 0 <= i < |hay| - 1 ==> hay[i] != needle[0] || hay[i + 1] != needle[1]
    ensures !IsSubstring(needle, hay)
    decreases |hay|
  {
    if |needle| <= |hay| {
      assert hay[..|needle|][0] == hay[0] && hay[..|needle|][1] == hay[1];
    }
    if |hay| > 0 {
      PairAbsentNotSubstring(needle, hay[1..]);
    }
  }

  /** A needle cannot occur where no three neighbouring characters match its first three. */
  lemma {:induction false} TripleAbsentNotSubstring(needle: string, hay: string)
    requires |needle| >= 3
    requires forall i :: 0 <= i < |hay| - 2 ==>
               hay[i] != needle[0] || hay[i + 1] != needle[1] || hay[i + 2] != needle[2]
    ensures !IsSubstring(needle, hay)
    decreases |hay|
  {
    if |needle| <= |hay| {
      assert hay[..|needle|][0] == hay[0] && hay[..|needle|][1] == hay[1] && hay[..|needle|][2] == hay[2];
    }
    if |hay| > 0 {
      TripleAbsentNotSubstring(needle, hay[1..]);
    }
  }

  /** A slice that lies within the left operand of a concatenation. */
  lemma SliceLeft(x: string, y: string, k: int, m: int)
    requires 0 <= k <= m <= |x|
    ensures (x + y)[k..m] == x[k..m]
  {
  }

  /** A slice that lies within the right operand of a concatenation. */
  lemma SliceRight(x: string, y: string, k: int, m: int)
    requires |x| <= k <= m <= |x| + |y|
    ensures (x + y)[k..m] == y[k - |x|..m - |x|]
  {
  }

  /** A window inside `a` of `a + [c] + b` is a window of `a`. */
  lemma WindowInLeft(needle: string, a: string, c: char, b: string, i: int)
    requires !IsSubstring(needle, a) && 0 <= i && i + |needle| <= |a|
    ensures !OccursAt(needle, a + [c] + b, i)
  {
    NotSubstringAt(needle, a, i);
    SliceLeft(a + [c], b, i, i + |needle|);
    SliceLeft(a, [c], i, i + |needle|);
  }

  /** A window inside `b` of `a + [c] + b` is a window of `b`. */
  lemma WindowInRight(needle: string, a: string, c: char, b: string, i: int)
    requires !IsSubstring(needle, b) && |a| < i && i + |needle| <= |a| + 1 + |b|
    ensures !OccursAt(needle, a + [c] + b, i)
  {
    NotSubstringAt(needle, b, i - |a| - 1);
    SliceRight(a + [c], b, i, i + |needle|);
  }

  /** A window over `c` of `a + [c] + b` holds `c`, which the needle lacks. */
  lemma WindowOverChar(needle: string, a: string, c: char, b: string, i: int)
    requires c !in needle && 0 <= i <= |a| < i + |needle| <= |a| + 1 + |b|
    ensures !OccursAt(needle, a + [c] + b, i)
  {
    assert (a + [c] + b)[i..i + |needle|][|a| - i] == c;
  }

  /** Joining `b` after an occurrence-free `a` around a character the needle lacks creates no occurrence. */
  lemma NoOccurrenceAcross(needle: string, a: string, c: char, b: string)
    requires |needle| > 0 && c !in needle
    requires !IsSubstring(needle, a) && !IsSubstring(needle, b)
    ensures !IsSubstring(needle, a + [c] + b)
  {
    var s := a + [c] + b;
    forall i ensures !OccursAt(needle, s, i) {
      if 0 <= i && i + |needle| <= |s| {
        if i + |needle| <= |a| {
          WindowInLeft(needle, a, c, b, i);
        } else if i <= |a| {
          WindowOverChar(needle, a, c, b, i);
        } else {
          WindowInRight(needle, a, c, b, i);
        }
      }
    }
    IsSubstringIffOccurs(needle, s);
  }

  /** `sep.join(parts)`. */
  function Join(parts: seq<string>, sep: string): string
    decreases |parts|
  {
    if |parts| == 0 then ""
    else if |parts| == 1 then parts[0]
    else parts[0] + sep + Join(parts[1..], sep)
  }

  /** `s.split(sep)` for a non-empty separator: the pieces between the occurrences a left-to-right scan finds. */
  function Split(s: string, sep: string): (parts: seq<string>)
    requires |sep| > 0
    ensures |parts| >= 1
    decreases |s|
  {
    if IsPrefix(sep, s) then [""] + Split(s[|sep|..], sep)
    else if |s| == 0 then [""]
    else
      var rest := Split(s[1..], sep);
      [[s[0]] + rest[0]] + rest[1..]
  }

  /** `s.replace(pat, rep)`, and `re.sub` with a pattern that has no special characters. */
  function Replace(s: string, pat: string, rep: string): string
    requires |pat| > 0
    decreases |s|
  {
    if IsPrefix(pat, s) then rep + Replace(s[|pat|..], pat, rep)
    else if |s| == 0 then ""
    else [s[0]] + Replace(s[1..], pat, rep)
  }

  /** A separator whose first character occurs nowhere else in it cannot overlap itself. */
  predicate HeadUnique(sep: string) {
    |sep| > 0 && forall k :: 0 < k < |sep| ==> sep[k] != sep[0]
  }

  lemma JoinConsHead(c: char, rest: seq<string>, sep: string)
    requires |rest| >= 1
    ensures Join([[c] + rest[0]] + rest[1..], sep) == [c] + Join(rest, sep)
  {
    var parts := [[c] + rest[0]] + rest[1..];
    assert parts[1..] == rest[1..];
  }

  /** At a leading separator, the split starts with an empty piece, which the join turns back into the separator. */
  lemma JoinSplitAtPrefix(s: string, sep: string)
    requires |sep| > 0 && IsPrefix(sep, s)
    requires Join(Split(s[|sep|..], sep), sep) == s[|sep|..]
    ensures Join(Split(s, sep), sep) == s
  {
    var rest := s[|sep|..];
    SplitAtPrefix(s, sep);
    JoinEmptyHead(Split(rest, sep), sep);
    PrefixSplitsOff(s, sep);
  }

  /** A string that starts with the separator splits into an empty piece and the pieces of the rest. */
  lemma SplitAtPrefix(s: string, sep: string)
    requires |sep| > 0 && IsPrefix(sep, s)
    ensures Split(s, sep) == [""] + Split(s[|sep|..], sep)
  {
  }

  lemma JoinEmptyHead(tail: seq<string>, sep: string)
    requires |tail| >= 1
    ensures Join([""] + tail, sep) == sep + Join(tail, sep)
  {
    assert ([""] + tail)[1..] == tail;
    assert "" + sep == sep;
  }

  lemma PrefixSplitsOff(s: string, sep: string)
    requires IsPrefix(sep, s)
    ensures s == sep + s[|sep|..]
  {
  }

  /** Joining the pieces of a split with the same separator gives back the string. */
  lemma {:induction false} JoinSplit(s: string, sep: string)
    requires |sep| > 0
    ensures Join(Split(s, sep), sep) == s
    decreases |s|
  {
    if IsPrefix(sep, s) {
      JoinSplit(s[|sep|..], sep);
      JoinSplitAtPrefix(s, sep);
    } else if |s| > 0 {
      var rest := Split(s[1..], sep);
      JoinSplit(s[1..], sep);
      SplitNotAtSeparator(s, sep);
      JoinConsHead(s[0], rest, sep);
      assert s == [s[0]] + s[1..];
    }
  }

  lemma PrefixCons(c: char, x: string, y: string)
    requires IsPrefix(x, y)
    ensures IsPrefix([c] + x, [c] + y)
  {
    assert ([c] + y)[..|x| + 1] == [c] + y[..|x|];
  }

  /** The first piece of a split is a prefix of the string. */
  lemma {:induction false} SplitHeadIsPrefix(s: string, sep: string)
    requires |sep| > 0
    ensures IsPrefix(Split(s, sep)[0], s)
    decreases |s|
  {
    if !IsPrefix(sep, s) && |s| > 0 {
      var rest := Split(s[1..], sep);
      SplitNotAtSeparator(s, sep);
      SplitHeadIsPrefix(s[1..], sep);
      PrefixCons(s[0], rest[0], s[1..]);
      assert [s[0]] + s[1..] == s;
    }
  }

  /**
   * `s.split(sep)` cuts at the leftmost occurrence: the first piece is the
   * text before it, no occurrence starts inside that piece, and the other
   * pieces are the split of what follows the occurrence. Without an
   * occurrence the first piece is all of `s`.
   */
  ghost predicate CutsAtFirst(s: string, sep: string, parts: seq<string>)
    requires |sep| > 0 && |parts| >= 1
  {
    var h := |parts[0]|;
    h <= |s| && parts[0] == s[..h]
    && (forall j :: 0 <= j < h ==> !OccursAt(sep, s, j))
    && (|parts| == 1 ==> h == |s|)
    && (|parts| > 1 ==> OccursAt(sep, s, h) && parts[1..] == Split(s[h + |sep|..], sep))
  }

  /** One step of `SplitCutsAtFirst`: a character that starts no occurrence joins the first piece. */
  lemma SplitCutsAtFirstStep(s: string, sep: string)
    requires |sep| > 0 && |s| > 0 && !IsPrefix(sep, s)
    requires CutsAtFirst(s[1..], sep, Split(s[1..], sep))
    ensures CutsAtFirst(s, sep, Split(s, sep))
  {
    SplitNotAtSeparator(s, sep);
    CutsAtFirstCons(s, sep, Split(s[1..], sep), Split(s, sep));
  }

  /** The shape of `SplitCutsAtFirst` survives putting back a first character that starts no occurrence. */
  lemma CutsAtFirstCons(s: string, sep: string, rest: seq<string>, parts: seq<string>)
    requires |sep| > 0 && |s| > 0 && !IsPrefix(sep, s) && |rest| >= 1
    requires CutsAtFirst(s[1..], sep, rest)
    requires parts == [[s[0]] + rest[0]] + rest[1..]
    ensures CutsAtFirst(s, sep, parts)
  {
    var h' := |rest[0]|;
    assert parts[0] == [s[0]] + rest[0] && parts[1..] == rest[1..];
    PrefixGrows(s, rest[0]);
    NoOccurrenceGrows(s, sep, h');
    if |parts| > 1 {
      OccurrenceGrows(s, sep, h');
    }
  }

  /** Putting back the first character of `s` onto a prefix of `s[1..]` gives a prefix of `s`. */
  lemma PrefixGrows(s: string, p: string)
    requires |s| > 0 && |p| < |s| && p == s[1..][..|p|]
    ensures [s[0]] + p == s[..|p| + 1]
  {
  }

  /** No occurrence in `s[1..]` before `h'`, and none at 0, means none in `s` before `h' + 1`. */
  lemma NoOccurrenceGrows(s: string, sep: string, h': int)
    requires |s| > 0 && !IsPrefix(sep, s)
    requires forall j :: 0 <= j < h' ==> !OccursAt(sep, s[1..], j)
    ensures forall j :: 0 <= j < h' + 1 ==> !OccursAt(sep, s, j)
  {
    forall j | 0 <= j < h' + 1 ensures !OccursAt(sep, s, j) {
      if j == 0 {
        assert |sep| <= |s| ==> s[0..|sep|] == s[..|sep|];
      } else {
        OccursInTail(sep, s, j);
      }
    }
  }

  /** An occurrence at `h'` in `s[1..]` is one at `h' + 1` in `s`, with the same text after it. */
  lemma OccurrenceGrows(s: string, sep: string, h': int)
    requires |s| > 0 && OccursAt(sep, s[1..], h')
    ensures OccursAt(sep, s, h' + 1)
    ensures s[1..][h' + |sep|..] == s[h' + 1 + |sep|..]
  {
    OccursInTail(sep, s, h' + 1);
  }

  /** Python's split is leftmost-first: see `CutsAtFirst`. */
  lemma {:induction false} SplitCutsAtFirst(s: string, sep: string)
    requires |sep| > 0
    ensures CutsAtFirst(s, sep, Split(s, sep))
    decreases |s|
  {
    if IsPrefix(sep, s) {
      SplitAtPrefix(s, sep);
      assert s[0..|sep|] == s[..|sep|];
      assert OccursAt(sep, s, 0);
    } else if |s| > 0 {
      SplitCutsAtFirst(s[1..], sep);
      SplitCutsAtFirstStep(s, sep);
    }
  }

  /** No piece of a split contains the separator. */
  lemma {:induction false} SplitPiecesAvoidSep(s: string, sep: string)
    requires |sep| > 0
    ensures forall k :: 0 <= k < |Split(s, sep)| ==> !IsSubstring(sep, Split(s, sep)[k])
    decreases |s|
  {
    var parts := Split(s, sep);
    if IsPrefix(sep, s) {
      SplitPiecesAvoidSep(s[|sep|..], sep);
      assert !IsPrefix(sep, "");
    } else if |s| == 0 {
      assert !IsPrefix(sep, "");
    } else {
      var rest := Split(s[1..], sep);
      SplitPiecesAvoidSep(s[1..], sep);
      SplitHeadIsPrefix(s[1..], sep);
      var head := [s[0]] + rest[0];
      assert head[1..] == rest[0];
      if |sep| <= |head| {
        assert s[..|sep|] == head[..|sep|];
      }
      assert !IsPrefix(sep, head);
      assert parts == [head] + rest[1..];
      forall k | 1 <= k < |parts| ensures !IsSubstring(sep, parts[k]) {
        assert parts[k] == rest[k];
      }
    }
  }

  /** A piece that holds no separator splits into itself. */
  lemma {:induction false} SplitAvoiding(p: string, sep: string)
    requires |sep| > 0 && !IsSubstring(sep, p)
    ensures Split(p, sep) == [p]
    decreases |p|
  {
    if |p| > 0 {
      SplitAvoiding(p[1..], sep);
      assert [p[0]] + p[1..] == p;
    }
  }

  /** A separator that cannot overlap itself does not start inside a separator-free text written before it. */
  lemma NoSeparatorAtStart(p: string, sep: string, rest: string)
    requires HeadUnique(sep) && !IsSubstring(sep, p) && |p| > 0
    ensures !IsPrefix(sep, p + (sep + rest))
  {
    var t := p + (sep + rest);
    if |p| >= |sep| {
      assert p[..|sep|] == t[..|sep|];
      assert !IsPrefix(sep, p);
    } else {
      assert t[|p|] == sep[0];
      assert t[..|sep|][|p|] != sep[|p|];
    }
  }

  /** Away from a separator, the first character joins the first piece of the rest. */
  lemma SplitNotAtSeparator(t: string, sep: string)
    requires |sep| > 0 && |t| > 0 && !IsPrefix(sep, t)
    ensures Split(t, sep) == [[t[0]] + Split(t[1..], sep)[0]] + Split(t[1..], sep)[1..]
  {
  }

  lemma TailOfConcat(p: string, q: string)
    requires |p| > 0
    ensures (p + q)[1..] == p[1..] + q
  {
  }

  lemma ConcatAssoc(a: string, b: string, c: string)
    ensures a + b + c == a + (b + c)
  {
  }

  /** One step of `SplitBeforeSeparator`: the first character of `p` joins the first piece. */
  lemma SplitBeforeSeparatorStep(p: string, sep: string, rest: string)
    requires HeadUnique(sep) && !IsSubstring(sep, p) && |p| > 0
    requires Split(p[1..] + (sep + rest), sep) == [p[1..]] + Split(rest, sep)
    ensures Split(p + (sep + rest), sep) == [p] + Split(rest, sep)
  {
    NoSeparatorAtStart(p, sep, rest);
    TailOfConcat(p, sep + rest);
    SplitNotAtSeparator(p + (sep + rest), sep);
    assert [p[0]] + p[1..] == p;
  }

  lemma {:induction false} SplitBeforeSeparator(p: string, sep: string, rest: string)
    requires HeadUnique(sep) && !IsSubstring(sep, p)
    ensures Split(p + (sep + rest), sep) == [p] + Split(rest, sep)
    decreases |p|
  {
    if |p| == 0 {
      var t := p + (sep + rest);
      assert t == sep + rest;
      assert t[..|sep|] == sep && t[|sep|..] == rest;
      SplitAtPrefix(t, sep);
    } else {
      assert !IsSubstring(sep, p[1..]);
      SplitBeforeSeparator(p[1..], sep, rest);
      SplitBeforeSeparatorStep(p, sep, rest);
    }
  }

  /** Splitting `p + sep + rest` cuts exactly at the written separator when `p` holds none. */
  lemma SplitAtSeparator(p: string, sep: string, rest: string)
    requires HeadUnique(sep) && !IsSubstring(sep, p)
    ensures Split(p + sep + rest, sep) == [p] + Split(rest, sep)
  {
    ConcatAssoc(p, sep, rest);
    SplitBeforeSeparator(p, sep, rest);
  }

  /** Splitting a join of separator-free pieces recovers the pieces. */
  lemma {:induction false} SplitJoin(parts: seq<string>, sep: string)
    requires HeadUnique(sep) && |parts| >= 1
    requires forall k :: 0 <= k < |parts| ==> !IsSubstring(sep, parts[k])
    ensures Split(Join(parts, sep), sep) == parts
    decreases |parts|
  {
    if |parts| == 1 {
      SplitAvoiding(parts[0], sep);
    } else {
      SplitJoin(parts[1..], sep);
      SplitAtSeparator(parts[0], sep, Join(parts[1..], sep));
      assert [parts[0]] + parts[1..] == parts;
    }
  }

  /** Python documents `s.replace(old, new)` as `new.join(s.split(old))`; the scan agrees. */
  lemma {:induction false} ReplaceIsJoinOfSplit(s: string, pat: string, rep: string)
    requires |pat| > 0
    ensures Replace(s, pat, rep) == Join(Split(s, pat), rep)
    decreases |s|
  {
    if IsPrefix(pat, s) {
      var tail := Split(s[|pat|..], pat);
      ReplaceIsJoinOfSplit(s[|pat|..], pat, rep);
      assert ([""] + tail)[1..] == tail;
    } else if |s| > 0 {
      ReplaceIsJoinOfSplit(s[1..], pat, rep);
      JoinConsHead(s[0], Split(s[1..], pat), rep);
    }
  }

  /** A pattern that occurs once, between two pattern-free parts, is replaced once. */
  lemma ReplaceSingleOccurrence(a: string, pat: string, rep: string, b: string)
    requires HeadUnique(pat) && !IsSubstring(pat, a) && !IsSubstring(pat, b)
    ensures Replace(a + pat + b, pat, rep) == a + rep + b
  {
    SplitAtSeparator(a, pat, b);
    SplitAvoiding(b, pat);
    ReplaceIsJoinOfSplit(a + pat + b, pat, rep);
  }

  /** A string with no occurrence of the pattern is left unchanged. */
  lemma {:induction false} ReplaceAbsent(s: string, pat: string, rep: string)
    requires |pat| > 0
    ensures !IsSubstring(pat, s) ==> Replace(s, pat, rep) == s
    decreases |s|
  {
    if |s| > 0 && !IsSubstring(pat, s) {
      ReplaceAbsent(s[1..], pat, rep);
      assert [s[0]] + s[1..] == s;
    }
  }

  /** Replacing by something no longer never lengthens; a hit with a strictly shorter replacement shortens. */
  lemma {:induction false} ReplaceLength(s: string, pat: string, rep: string)
    requires |pat| > 0 && |rep| <= |pat|
    ensures |Replace(s, pat, rep)| <= |s|
    ensures |rep| < |pat| && IsSubstring(pat, s) ==> |Replace(s, pat, rep)| < |s|
    decreases |s|
  {
    if IsPrefix(pat, s) {
      ReplaceLength(s[|pat|..], pat, rep);
    } else if |s| > 0 {
      ReplaceLength(s[1..], pat, rep);
    }
  }

  /** Every character of the result comes from the input or from the replacement. */
  lemma {:induction false} ReplaceChars(s: string, pat: string, rep: string)
    requires |pat| > 0
    ensures forall c :: c in Replace(s, pat, rep) ==> c in s || c in rep
    decreases |s|
  {
    if IsPrefix(pat, s) {
      ReplaceChars(s[|pat|..], pat, rep);
      forall c | c in s[|pat|..] ensures c in s { }
    } else if |s| > 0 {
      ReplaceChars(s[1..], pat, rep);
      forall c | c in s[1..] ensures c in s { }
    }
  }

  /** A join avoids a character when neither the pieces nor the separator contain it. */
  lemma {:induction false} JoinAvoids(parts: seq<string>, sep: string, c: char)
    requires c !in sep
    requires forall k :: 0 <= k < |parts| ==> c !in parts[k]
    ensures c !in Join(parts, sep)
    decreases |parts|
  {
    if |parts| > 1 {
      JoinAvoids(parts[1..], sep, c);
    }
  }

  /** A join with a one-character separator the needle lacks holds no occurrence when no piece does. */
  lemma {:induction false} JoinNoOccurrence(parts: seq<string>, c: char, needle: string)
    requires |needle| > 0 && c !in needle
    requires forall k :: 0 <= k < |parts| ==> !IsSubstring(needle, parts[k])
    ensures !IsSubstring(needle, Join(parts, [c]))
    decreases |parts|
  {
    if |parts| == 0 {
      assert !IsPrefix(needle, "");
    } else if |parts| > 1 {
      JoinNoOccurrence(parts[1..], c, needle);
      NoOccurrenceAcross(needle, parts[0], c, Join(parts[1..], [c]));
    }
  }

  // ASCII case mapping

  predicate IsAsciiUpper(c: char) { 'A' <= c <= 'Z' }

  function LowerChar(c: char): char {
    if IsAsciiUpper(c) then (c as int + 32) as char else c
  }

  /** `s.lower()` restricted to ASCII letters: every character is lowered in place. */
  function Lower(s: string): (r: string)
    ensures |r| == |s|
    ensures forall i :: 0 <= i < |r| ==> r[i] == LowerChar(s[i]) && !IsAsciiUpper(r[i])
    decreases |s|
  {
    if |s| == 0 then "" else [LowerChar(s[0])] + Lower(s[1..])
  }

  /** Lowering twice is lowering once. */
  lemma LowerIdempotent(s: string)
    ensures Lower(Lower(s)) == Lower(s)
  {
    var r := Lower(s);
    assert forall i :: 0 <= i < |r| ==> Lower(r)[i] == r[i];
  }

  // Whitespace, as Python's `str.isspace`

  predicate IsSpace(c: char) {
    c == ' ' || '\t' <= c <= '\r' || '\U{001C}' <= c <= '\U{001F}'
    || c == '\U{0085}' || c == '\U{00A0}' || c == '\U{1680}'
    || '\U{2000}' <= c <= '\U{200A}' || c == '\U{2028}' || c == '\U{2029}'
    || c == '\U{202F}' || c == '\U{205F}' || c == '\U{3000}'
  }

  /** Every character of `s` from `lo` up to `hi` is whitespace. */
  predicate SpaceBetween(s: string, lo: int, hi: int)
    requires 0 <= lo && hi <= |s|
  {
    forall j :: lo <= j < hi ==> IsSpace(s[j])
  }

  /** Where the whitespace run starting at `i` ends: the first non-whitespace index at or after `i`. */
  function SkipSpace(s: string, i: int): (k: int)
    requires 0 <= i <= |s|
    ensures i <= k <= |s| && SpaceBetween(s, i, k)
    ensures k < |s| ==> !IsSpace(s[k])
    decreases |s| - i
  {
    if i == |s| || !IsSpace(s[i]) then i else SkipSpace(s, i + 1)
  }

  /** Where the whitespace run ending at `j` starts, looking no further back than `lo`. */
  function SkipSpaceBack(s: string, lo: int, j: int): (k: int)
    requires 0 <= lo <= j <= |s|
    ensures lo <= k <= j && SpaceBetween(s, k, j)
    ensures k > lo ==> !IsSpace(s[k - 1])
    decreases j
  {
    if j == lo || !IsSpace(s[j - 1]) then j else SkipSpaceBack(s, lo, j - 1)
  }

  /**
   * `s.strip()`: the slice of `s` left once the whitespace at both ends is
   * gone; only whitespace lies outside it and neither of its ends is
   * whitespace.
   */
  function Strip(s: string): (r: string)
    ensures exists i :: 0 <= i <= i + |r| <= |s| && r == s[i..i + |r|]
                        && SpaceBetween(s, 0, i) && SpaceBetween(s, i + |r|, |s|)
    ensures |r| > 0 ==> !IsSpace(r[0]) && !IsSpace(r[|r| - 1])
  {
    var lo := SkipSpace(s, 0);
    var hi := SkipSpaceBack(s, lo, |s|);
    assert lo == hi || !IsSpace(s[lo]);
    s[lo..hi]
  }

  /** A string with no whitespace at either end is its own strip. */
  lemma StripUnchanged(s: string)
    requires |s| > 0 ==> !IsSpace(s[0]) && !IsSpace(s[|s| - 1])
    ensures Strip(s) == s
  {
    assert s[0..|s|] == s;
  }

  /** Stripping a string that has one space after a non-blank text gives that text. */
  lemma StripTrailingSpace(x: string)
    requires |x| > 0 && !IsSpace(x[0]) && !IsSpace(x[|x| - 1])
    ensures Strip(x + " ") == x
  {
    var t := x + " ";
    assert t[0] == x[0] && t[|x|] == ' ' && t[|x| - 1] == x[|x| - 1];
    assert SkipSpace(t, 0) == 0;
    assert SkipSpaceBack(t, 0, |t|) == |x|;
    assert t[0..|x|] == x;
  }
}
