/**
 * The folder name derived from the candidate title (main.py:75-83):
 * remove `(Online)`, then `Audiobook`, strip whitespace, turn every
 * character outside `[a-zA-Z0-9-]` into `_`, collapse runs of `_`, and
 * rewrite `_-_` as `-`.
 */
module SafeName {
  import opened Text

  /**
   * `.replace('(Online)', '').replace('Audiobook', '')`: never longer, and
   * a title holding neither marker is left as it is.
   */
  function RemoveMarkers(title: string): (r: string)
    ensures |r| <= |title|
    ensures !IsSubstring("(Online)", title) && !IsSubstring("Audiobook", title) ==> r == title
  {
    var once := Replace(title, "(Online)", "");
    ReplaceLength(title, "(Online)", "");
    ReplaceLength(once, "Audiobook", "");
    ReplaceAbsent(title, "(Online)", "");
    ReplaceAbsent(title, "Audiobook", "");
    Replace(once, "Audiobook", "")
  }

  /** The characters `[a-zA-Z0-9-]` that the mapping step keeps. */
  predicate IsKept(c: char) {
    'a' <= c <= 'z' || 'A' <= c <= 'Z' || '0' <= c <= '9' || c == '-'
  }

  /** The characters a safe name is made of: `[a-zA-Z0-9_-]`. */
  predicate IsNameChar(c: char) {
    IsKept(c) || c == '_'
  }

  predicate IsNameString(s: string) {
    forall i :: 0 <= i < |s| ==> IsNameChar(s[i])
  }

  /**
   * `re.sub(r"[^a-zA-Z0-9-]", "_", s)`: the length is unchanged, every kept
   * character stays where it was and every other character becomes `_`.
   */
  function MapUnsafe(s: string): (r: string)
    ensures |r| == |s|
    ensures forall i :: 0 <= i < |s| ==> if IsKept(s[i]) then r[i] == s[i] else r[i] == '_'
    ensures IsNameString(r)
    decreases |s|
  {
    if |s| == 0 then ""
    else [if IsKept(s[0]) then s[0] else '_'] + MapUnsafe(s[1..])
  }

  /** A string already made of name characters is not changed by the mapping. */
  lemma MapUnsafeUnchanged(s: string)
    requires IsNameString(s)
    ensures MapUnsafe(s) == s
  {
    var r := MapUnsafe(s);
    assert forall i :: 0 <= i < |s| ==> r[i] == s[i];
  }

  /** The number of `_` at the start of `s`. */
  function UnderscoreRun(s: string): (k: nat)
    ensures k <= |s|
    ensures forall i :: 0 <= i < k ==> s[i] == '_'
    ensures k == |s| || s[k] != '_'
    decreases |s|
  {
    if |s| > 0 && s[0] == '_' then 1 + UnderscoreRun(s[1..]) else 0
  }

  /** `s` with every `_` deleted. */
  function DropUnderscores(s: string): string
    decreases |s|
  {
    if |s| == 0 then ""
    else (if s[0] == '_' then "" else [s[0]]) + DropUnderscores(s[1..])
  }

  lemma {:induction false} DropLeadingUnderscores(s: string, k: nat)
    requires k <= |s|
    requires forall i :: 0 <= i < k ==> s[i] == '_'
    ensures DropUnderscores(s) == DropUnderscores(s[k..])
    decreases k
  {
    if k > 0 {
      DropLeadingUnderscores(s[1..], k - 1);
      assert s[1..][k - 1..] == s[k..];
    }
  }

  /**
   * `re.sub(r"_{2,}", "_", s)`: scanning from the left, each run of two or
   * more underscores becomes one. The first character survives and no two
   * underscores are left side by side.
   */
  function CollapseUnderscores(s: string): (r: string)
    ensures |r| <= |s|
    ensures |s| > 0 ==> |r| > 0 && r[0] == s[0]
    ensures !IsSubstring("__", r)
    decreases |s|
  {
    if |s| == 0 then ""
    else
      var k := UnderscoreRun(s);
      if k >= 2 then
        var tail := CollapseUnderscores(s[k..]);
        var r := "_" + tail;
        assert r[1..] == tail;
        assert !IsPrefix("__", r) by {
          if |tail| > 0 { assert r[1] == tail[0] == s[k]; }
        }
        r
      else
        var tail := CollapseUnderscores(s[1..]);
        var r := [s[0]] + tail;
        assert r[1..] == tail;
        assert !IsPrefix("__", r) by {
          if |tail| > 0 {
            assert r[1] == tail[0] == s[1];
            assert s[0] == '_' ==> UnderscoreRun(s[1..]) == 0;
            assert r[..2] == [r[0], r[1]];
          }
        }
        r
  }

  /** Whether `re.sub(r"_{2,}", "_", s)` keeps `s[i]`: every character but an underscore right after another. */
  predicate KeptByCollapse(s: string, i: int)
    requires 0 <= i < |s|
  {
    !(s[i] == '_' && i > 0 && s[i - 1] == '_')
  }

  /** An independent reading of the collapse: scan from `i` and keep exactly the characters `KeptByCollapse` keeps. */
  function KeepFrom(s: string, i: int): string
    requires 0 <= i <= |s|
    decreases |s| - i
  {
    if i == |s| then ""
    else (if KeptByCollapse(s, i) then [s[i]] else "") + KeepFrom(s, i + 1)
  }

  /** Past its first position, a suffix makes the same keep decisions as the whole string. */
  lemma {:induction false} KeepFromSuffix(s: string, i: int, j: int)
    requires 0 <= i && 1 <= j && i + j <= |s|
    ensures KeepFrom(s, i + j) == KeepFrom(s[i..], j)
    decreases |s| - i - j
  {
    if i + j < |s| {
      KeepFromSuffix(s, i, j + 1);
      KeepFromSuffixStep(s, i, j);
    }
  }

  /** One step of `KeepFromSuffix`: equal scans from the next position stay equal one position earlier. */
  lemma KeepFromSuffixStep(s: string, i: int, j: int)
    requires 0 <= i && 1 <= j && i + j < |s|
    requires KeepFrom(s, i + j + 1) == KeepFrom(s[i..], j + 1)
    ensures KeepFrom(s, i + j) == KeepFrom(s[i..], j)
  {
    KeptInSuffix(s, i, j);
    KeepFromStep(s, i + j);
    KeepFromStep(s[i..], j);
  }

  /** One step of the scan. */
  lemma KeepFromStep(s: string, i: int)
    requires 0 <= i < |s|
    ensures KeepFrom(s, i) == (if KeptByCollapse(s, i) then [s[i]] else "") + KeepFrom(s, i + 1)
  {
  }

  /** Away from its first position, a suffix keeps the same characters as the whole string. */
  lemma KeptInSuffix(s: string, i: int, j: int)
    requires 0 <= i && 1 <= j && i + j < |s|
    ensures KeptByCollapse(s, i + j) == KeptByCollapse(s[i..], j)
    ensures s[i..][j] == s[i + j]
  {
    assert s[i..][j] == s[i + j] && s[i..][j - 1] == s[i + j - 1];
  }

  /** Where the character at `i` is kept no matter what precedes it, scanning from `i` equals scanning the suffix. */
  lemma KeepFromRestart(s: string, i: int)
    requires 0 <= i <= |s|
    requires i == |s| || s[i] != '_' || i == 0 || s[i - 1] != '_'
    ensures KeepFrom(s, i) == KeepFrom(s[i..], 0)
  {
    if i < |s| {
      if i + 1 <= |s| {
        KeepFromSuffix(s, i, 1);
      }
      assert s[i..][0] == s[i];
    }
  }

  /** Underscores that directly follow an underscore are all dropped. */
  lemma {:induction false} KeepFromSkipsRun(s: string, i: int, k: int)
    requires 1 <= i <= k <= |s|
    requires forall j :: i - 1 <= j < k ==> s[j] == '_'
    ensures KeepFrom(s, i) == KeepFrom(s, k)
    decreases k - i
  {
    if i < k {
      KeepFromSkipsRun(s, i + 1, k);
    }
  }

  /**
   * The collapse keeps exactly the characters that are not an underscore
   * right after another underscore: each run of underscores leaves its
   * first one, and everything else stays, in order.
   */
  lemma {:induction false} CollapseIsKeepFrom(s: string)
    ensures CollapseUnderscores(s) == KeepFrom(s, 0)
    decreases |s|
  {
    if |s| > 0 {
      var k := UnderscoreRun(s);
      if k >= 2 {
        CollapseIsKeepFrom(s[k..]);
        KeepFromSkipsRun(s, 1, k);
        KeepFromRestart(s, k);
        assert KeepFrom(s, 0) == "_" + KeepFrom(s, 1);
      } else {
        CollapseIsKeepFrom(s[1..]);
        KeepFromRestart(s, 1);
        assert KeepFrom(s, 0) == [s[0]] + KeepFrom(s, 1);
      }
    }
  }

  /** A run of two underscores between letters leaves one. */
  lemma CollapseDoubleUnderscore()
    ensures CollapseUnderscores("a__b") == "a_b"
  {
    CollapseIsKeepFrom("a__b");
  }

  /** Collapsing deletes underscores and nothing else: every other character survives, in order. */
  lemma {:induction false} CollapseDropsOnlyUnderscores(s: string)
    ensures DropUnderscores(CollapseUnderscores(s)) == DropUnderscores(s)
    ensures forall c :: c in CollapseUnderscores(s) ==> c in s
    decreases |s|
  {
    if |s| > 0 {
      var k := UnderscoreRun(s);
      if k >= 2 {
        CollapseDropsOnlyUnderscores(s[k..]);
        DropLeadingUnderscores(s, k);
        var tail := CollapseUnderscores(s[k..]);
        assert ("_" + tail)[1..] == tail;
        assert forall c :: c in s[k..] ==> c in s;
      } else {
        CollapseDropsOnlyUnderscores(s[1..]);
        var tail := CollapseUnderscores(s[1..]);
        assert ([s[0]] + tail)[1..] == tail;
        assert forall c :: c in s[1..] ==> c in s;
      }
    }
  }

  /** A string with no doubled underscore is its own collapse. */
  lemma {:induction false} CollapseUnchanged(s: string)
    requires !IsSubstring("__", s)
    ensures CollapseUnderscores(s) == s
    decreases |s|
  {
    if |s| > 0 {
      CollapseUnchanged(s[1..]);
      assert [s[0]] + s[1..] == s;
    }
  }

  /** Collapsing changes a string exactly when it holds a doubled underscore; so collapsing is idempotent. */
  lemma CollapseFixpoint(s: string)
    ensures CollapseUnderscores(s) == s <==> !IsSubstring("__", s)
    ensures CollapseUnderscores(CollapseUnderscores(s)) == CollapseUnderscores(s)
  {
    if !IsSubstring("__", s) {
      CollapseUnchanged(s);
    }
    CollapseUnchanged(CollapseUnderscores(s));
  }

  /** `re.sub(r"_-_", "-", s)`. */
  function JoinHyphens(s: string): (r: string)
    ensures |r| <= |s|
    ensures IsSubstring("_-_", s) ==> |r| < |s|
    ensures !IsSubstring("_-_", s) ==> r == s
  {
    ReplaceLength(s, "_-_", "-");
    ReplaceAbsent(s, "_-_", "-");
    Replace(s, "_-_", "-")
  }

  lemma {:induction false} SubstringOfSuffix(p: string, s: string, j: nat)
    requires j <= |s|
    ensures IsSubstring(p, s[j..]) ==> IsSubstring(p, s)
    decreases j
  {
    if j > 0 {
      assert s[1..][j - 1..] == s[j..];
      SubstringOfSuffix(p, s[1..], j - 1);
    }
  }

  lemma ReplaceHead(s: string, pat: string, rep: string)
    requires |pat| > 0 && |rep| > 0 && |s| > 0
    ensures |Replace(s, pat, rep)| > 0
    ensures Replace(s, pat, rep)[0] == if IsPrefix(pat, s) then rep[0] else s[0]
  {
  }

  /**
   * On a string without doubled underscores, rewriting `_-_` leaves no
   * doubled underscore and no `_-_` at all, even where matches touch.
   */
  lemma {:induction false} JoinHyphensShape(s: string)
    requires !IsSubstring("__", s)
    ensures !IsSubstring("__", JoinHyphens(s))
    ensures !IsSubstring("_-_", JoinHyphens(s))
    decreases |s|
  {
    var r := JoinHyphens(s);
    if IsPrefix("_-_", s) {
      var tail := JoinHyphens(s[3..]);
      SubstringOfSuffix("__", s, 3);
      JoinHyphensShape(s[3..]);
      assert r == "-" + tail;
      assert r[1..] == tail;
    } else if |s| > 0 {
      var tail := JoinHyphens(s[1..]);
      SubstringOfSuffix("__", s, 1);
      JoinHyphensShape(s[1..]);
      assert r == [s[0]] + tail;
      assert r[1..] == tail;
      if |tail| > 0 {
        ReplaceHead(s[1..], "_-_", "-");
        if IsPrefix("_-_", s[1..]) {
          assert s[1] == '_';
          assert s[0] != '_' by { assert !IsPrefix("__", s); }
        } else {
          assert tail[0] == s[1];
          if s[0] == '_' {
            assert s[1] != '_' by { assert !IsPrefix("__", s); }
            if s[1] == '-' && |tail| > 1 {
              assert tail == [s[1]] + JoinHyphens(s[2..]);
              assert tail[1..] == JoinHyphens(s[2..]);
              ReplaceHead(s[2..], "_-_", "-");
            }
          }
        }
      }
    }
  }

  /** Overlapping matches are taken leftmost first: in `_-_-_` only the first `_-_` is rewritten. */
  lemma JoinHyphensLeftmost()
    ensures JoinHyphens("_-_-_") == "--_"
  {
    var s := "_-_-_";
    assert s[..3] == "_-_" && s[3..] == "-_";
    assert !IsPrefix("_-_", "-_") && !IsPrefix("_-_", "_");
    assert "-_"[1..] == "_" && "_"[1..] == "";
  }

  lemma CollapseKeepsNameString(s: string)
    requires IsNameString(s)
    ensures IsNameString(CollapseUnderscores(s))
  {
    CollapseDropsOnlyUnderscores(s);
    var r := CollapseUnderscores(s);
    assert forall i :: 0 <= i < |r| ==> r[i] in s;
  }

  lemma JoinHyphensKeepsNameString(s: string)
    requires IsNameString(s)
    ensures IsNameString(JoinHyphens(s))
  {
    ReplaceChars(s, "_-_", "-");
    var r := JoinHyphens(s);
    assert forall i :: 0 <= i < |r| ==> r[i] in s || r[i] in "-";
  }

  /** The title once markers and surrounding whitespace are gone (main.py:78-80). */
  function Trimmed(title: string): string
  {
    Strip(RemoveMarkers(title))
  }

  /**
   * The whole derivation at main.py:75-83: a name made only of
   * `[a-zA-Z0-9_-]`, with no doubled underscore and no `_-_`.
   */
  function SafeBookName(title: string): (r: string)
    ensures IsNameString(r)
    ensures !IsSubstring("__", r)
    ensures !IsSubstring("_-_", r)
  {
    var collapsed := CollapseUnderscores(MapUnsafe(Trimmed(title)));
    CollapseKeepsNameString(MapUnsafe(Trimmed(title)));
    JoinHyphensShape(collapsed);
    JoinHyphensKeepsNameString(collapsed);
    JoinHyphens(collapsed)
  }

  lemma RemoveMarkersUnchanged(y: string)
    requires IsNameString(y) && !IsSubstring("Audiobook", y)
    ensures RemoveMarkers(y) == y
  {
    assert '(' !in y;
    HeadAbsentNotSubstring("(Online)", y);
    ReplaceAbsent(y, "(Online)", "");
    ReplaceAbsent(y, "Audiobook", "");
  }

  /** A title whose marker-free form is already a clean safe name derives exactly that name. */
  lemma SafeNameAfterMarkers(title: string, y: string)
    requires RemoveMarkers(title) == y
    requires IsNameString(y) && !IsSubstring("__", y) && !IsSubstring("_-_", y)
    ensures SafeBookName(title) == y
  {
    StripUnchanged(y);
    assert Trimmed(title) == y;
    MapUnsafeUnchanged(y);
    CollapseUnchanged(y);
    ReplaceAbsent(y, "_-_", "-");
    assert JoinHyphens(y) == y;
  }

  /** A safe name with no `Audiobook` left in it passes through every step unchanged. */
  lemma SafeNameUnchanged(y: string)
    requires IsNameString(y) && !IsSubstring("__", y) && !IsSubstring("_-_", y)
    requires !IsSubstring("Audiobook", y)
    ensures SafeBookName(y) == y
  {
    RemoveMarkersUnchanged(y);
    SafeNameAfterMarkers(y, y);
  }

  /** A name-character string that still holds `Audiobook` comes out strictly shorter. */
  lemma SafeNameShrinks(y: string)
    requires IsNameString(y) && IsSubstring("Audiobook", y)
    ensures |SafeBookName(y)| < |y|
  {
    assert '(' !in y;
    HeadAbsentNotSubstring("(Online)", y);
    ReplaceAbsent(y, "(Online)", "");
    ReplaceLength(y, "Audiobook", "");
    assert |RemoveMarkers(y)| < |y|;
    assert |Trimmed(y)| < |y|;
    var collapsed := CollapseUnderscores(MapUnsafe(Trimmed(y)));
    ReplaceLength(collapsed, "_-_", "-");
  }

  /**
   * Deriving the name again from a derived name changes it exactly when a
   * removed marker (`Audiobook`) is still in it, so the derivation is not
   * idempotent in general.
   */
  lemma SafeBookNameFixpoint(title: string)
    ensures SafeBookName(SafeBookName(title)) == SafeBookName(title)
            <==> !IsSubstring("Audiobook", SafeBookName(title))
  {
    var y := SafeBookName(title);
    if IsSubstring("Audiobook", y) {
      SafeNameShrinks(y);
    } else {
      SafeNameUnchanged(y);
    }
  }

  /** A title without `(` loses only its `Audiobook` markers. */
  lemma RemoveMarkersWithoutParens(s: string)
    requires '(' !in s
    ensures RemoveMarkers(s) == Replace(s, "Audiobook", "")
  {
    HeadAbsentNotSubstring("(Online)", s);
    ReplaceAbsent(s, "(Online)", "");
  }

  /** A single `Audiobook` between two marker-free halves is cut out, and the halves are joined. */
  lemma RemoveOneMarker(a: string, b: string)
    requires '(' !in a && '(' !in b
    requires !IsSubstring("Audiobook", a) && !IsSubstring("Audiobook", b)
    ensures RemoveMarkers(a + "Audiobook" + b) == a + b
  {
    var m := "Audiobook";
    assert m == ['A', 'u', 'd', 'i', 'o', 'b', 'o', 'o', 'k'];
    assert HeadUnique(m);
    RemoveMarkersWithoutParens(a + m + b);
    ReplaceSingleOccurrence(a, m, "", b);
    assert a + "" == a;
  }

  /** A title whose trimmed and mapped form has no `__` and no `_-_` derives exactly that form. */
  lemma SafeNameAfterMapping(title: string, m: string)
    requires MapUnsafe(Trimmed(title)) == m
    requires !IsSubstring("__", m) && !IsSubstring("_-_", m)
    ensures SafeBookName(title) == m
  {
    CollapseUnchanged(m);
    ReplaceAbsent(m, "_-_", "-");
  }

  /**
   * Taking one `Audiobook` out of a name joins the two halves around it,
   * which can form a new `Audiobook` (as `Audio` and `book` do); the name
   * derived from such a title is then changed when derived again.
   */
  lemma RemovalJoinsHalves(a: string, b: string)
    requires IsNameString(a) && IsNameString(b)
    requires !IsSubstring("Audiobook", a) && !IsSubstring("Audiobook", b)
    requires !IsSubstring("__", a + b) && !IsSubstring("_-_", a + b)
    ensures SafeBookName(a + "Audiobook" + b) == a + b
    ensures IsSubstring("Audiobook", a + b) ==>
              SafeBookName(SafeBookName(a + "Audiobook" + b)) != SafeBookName(a + "Audiobook" + b)
  {
    assert !IsNameChar('(');
    RemoveOneMarker(a, b);
    assert forall i :: 0 <= i < |a + b| ==> (a + b)[i] == if i < |a| then a[i] else b[i - |a|];
    SafeNameAfterMarkers(a + "Audiobook" + b, a + b);
    SafeBookNameFixpoint(a + "Audiobook" + b);
  }

  predicate IsAlnum(c: char) {
    'a' <= c <= 'z' || 'A' <= c <= 'Z' || '0' <= c <= '9'
  }

  /** Mapping a string with a trailing ` -` maps the rest and gives `_-`. */
  lemma MapUnsafeTrailingHyphen(core: string)
    ensures MapUnsafe(core + " -") == MapUnsafe(core) + "_-"
  {
    assert " -" == [' ', '-'] && "_-" == ['_', '-'];
    var t := core + " -";
    var r, m := MapUnsafe(t), MapUnsafe(core) + "_-";
    assert t[|core|] == ' ' && t[|core| + 1] == '-';
    assert forall i :: 0 <= i < |core| ==> t[i] == core[i];
    assert forall i :: 0 <= i < |r| ==> r[i] == m[i];
  }

  /** Appending ` - ` to a marker-free title adds no marker. */
  lemma MarkersOfTrailingSeparator(core: string)
    requires '(' !in core && !IsSubstring("Audiobook", core)
    ensures RemoveMarkers(core + " - ") == core + " - "
  {
    var t := core + " - ";
    assert " - " == [' '] + "- ";
    assert t == core + [' '] + "- ";
    ShortNotSubstring("Audiobook", "- ");
    assert ' ' !in "Audiobook";
    NoOccurrenceAcross("Audiobook", core, ' ', "- ");
    assert '(' !in t;
    RemoveMarkersWithoutParens(t);
    ReplaceAbsent(t, "Audiobook", "");
  }

  /** Stripping a title that ends in ` - ` leaves it ending in ` -`. */
  lemma TrimmedTrailingSeparator(core: string)
    requires |core| > 0 && !IsSpace(core[0])
    requires '(' !in core && !IsSubstring("Audiobook", core)
    ensures Trimmed(core + " - ") == core + " -"
  {
    MarkersOfTrailingSeparator(core);
    SeparatorEnds(core);
    StripTrailingSpace(core + " -");
  }

  lemma SeparatorEnds(core: string)
    requires |core| > 0
    ensures core + " - " == (core + " -") + " "
    ensures (core + " -")[0] == core[0] && (core + " -")[|core| + 1] == '-'
  {
  }

  /** `_-` after a name ending in a letter or digit makes no `__`. */
  lemma NoDoubleUnderscoreBeforeHyphen(mc: string)
    requires |mc| > 0 && IsAlnum(mc[|mc| - 1]) && !IsSubstring("__", mc)
    ensures !IsSubstring("__", mc + "_-")
  {
    var m := mc + "_-";
    assert "_-" == ['_', '-'];
    assert m[|mc| - 1] == mc[|mc| - 1] && m[|mc|] == '_' && m[|mc| + 1] == '-';
    forall i | 0 <= i < |m| - 1
      ensures m[i] != '_' || m[i + 1] != '_'
    {
      if i + 1 < |mc| {
        NotSubstringAt("__", mc, i);
        assert m[i..i + 2] == mc[i..i + 2];
      }
    }
    PairAbsentNotSubstring("__", m);
  }

  /** `_-` after a name ending in a letter or digit makes no `_-_`. */
  lemma NoJoinBeforeHyphen(mc: string)
    requires |mc| > 0 && IsAlnum(mc[|mc| - 1]) && !IsSubstring("_-_", mc)
    ensures !IsSubstring("_-_", mc + "_-")
  {
    var m := mc + "_-";
    assert "_-" == ['_', '-'];
    assert m[|mc| - 1] == mc[|mc| - 1] && m[|mc|] == '_' && m[|mc| + 1] == '-';
    forall i | 0 <= i < |m| - 2
      ensures m[i] != '_' || m[i + 1] != '-' || m[i + 2] != '_'
    {
      if i + 2 < |mc| {
        NotSubstringAt("_-_", mc, i);
        assert m[i..i + 3] == mc[i..i + 3];
      }
    }
    TripleAbsentNotSubstring("_-_", m);
  }

  /**
   * As written, a separator ` - ` at the end of the title leaves a
   * trailing hyphen: the space before it becomes `_`, and `_-_` needs an
   * underscore on both sides. So `Some Book - ` becomes `Some_Book_-`,
   * not `Some_Book`.
   */
  lemma TrailingSeparatorKept(core: string)
    requires |core| > 0 && !IsSpace(core[0]) && IsAlnum(core[|core| - 1])
    requires '(' !in core && !IsSubstring("Audiobook", core)
    requires !IsSubstring("__", MapUnsafe(core)) && !IsSubstring("_-_", MapUnsafe(core))
    ensures SafeBookName(core + " - ") == MapUnsafe(core) + "_-"
  {
    TrimmedTrailingSeparator(core);
    MapUnsafeTrailingHyphen(core);
    NoDoubleUnderscoreBeforeHyphen(MapUnsafe(core));
    NoJoinBeforeHyphen(MapUnsafe(core));
    SafeNameAfterMapping(core + " - ", MapUnsafe(core) + "_-");
  }
}
