/**
 * Candidate-title normalisation and the match gate (main.py:69-73): the
 * HTML entity `&#8211;` in the bookmark text becomes `-`, and the book is
 * taken only when the lower-cased requested name occurs in the lower-cased
 * candidate.
 */
module Match {
  import opened Text

  const EN_DASH_ENTITY: string := "&#8211;"

  /**
   * `re.sub(r"&#8211;", "-", text)`: no entity is left, and each one
   * removed shortens the text.
   */
  function NormaliseEntities(text: string): (r: string)
    ensures !IsSubstring(EN_DASH_ENTITY, r)
    ensures |r| <= |text|
    ensures IsSubstring(EN_DASH_ENTITY, text) ==> |r| < |text|
  {
    ReplaceIsJoinOfSplit(text, EN_DASH_ENTITY, "-");
    SplitPiecesAvoidSep(text, EN_DASH_ENTITY);
    JoinNoOccurrence(Split(text, EN_DASH_ENTITY), '-', EN_DASH_ENTITY);
    ReplaceLength(text, EN_DASH_ENTITY, "-");
    Replace(text, EN_DASH_ENTITY, "-")
  }

  /**
   * Cutting the text at its entity occurrences gives entity-free pieces
   * that rebuild the text; normalising puts a single `-` between the same
   * pieces, so no entity is left.
   */
  lemma EntitiesBecomeHyphens(text: string)
    ensures Join(Split(text, EN_DASH_ENTITY), EN_DASH_ENTITY) == text
    ensures forall k :: 0 <= k < |Split(text, EN_DASH_ENTITY)| ==>
              !IsSubstring(EN_DASH_ENTITY, Split(text, EN_DASH_ENTITY)[k])
    ensures NormaliseEntities(text) == Join(Split(text, EN_DASH_ENTITY), "-")
    ensures !IsSubstring(EN_DASH_ENTITY, NormaliseEntities(text))
  {
    var pieces := Split(text, EN_DASH_ENTITY);
    JoinSplit(text, EN_DASH_ENTITY);
    SplitPiecesAvoidSep(text, EN_DASH_ENTITY);
    ReplaceIsJoinOfSplit(text, EN_DASH_ENTITY, "-");
    JoinNoOccurrence(pieces, '-', EN_DASH_ENTITY);
  }

  /** The entity's `&` occurs nowhere else in it, so two occurrences can never overlap. */
  lemma EntityHeadUnique()
    ensures HeadUnique(EN_DASH_ENTITY)
  {
    assert EN_DASH_ENTITY == ['&', '#', '8', '2', '1', '1', ';'];
  }

  /** Any text written as entity-free pieces separated by the entity normalises to the same pieces separated by `-`. */
  lemma EachEntityBecomesOneHyphen(pieces: seq<string>)
    requires |pieces| >= 1
    requires forall k :: 0 <= k < |pieces| ==> !IsSubstring(EN_DASH_ENTITY, pieces[k])
    ensures NormaliseEntities(Join(pieces, EN_DASH_ENTITY)) == Join(pieces, "-")
  {
    EntityHeadUnique();
    SplitJoin(pieces, EN_DASH_ENTITY);
    ReplaceIsJoinOfSplit(Join(pieces, EN_DASH_ENTITY), EN_DASH_ENTITY, "-");
  }

  /**
   * `name.lower() in title.lower()`, with ASCII lower-casing: a name
   * longer than the title never passes, and a title equal to the name
   * up to case always does.
   */
  predicate TitleMatches(name: string, title: string)
    ensures TitleMatches(name, title) ==> |name| <= |title|
    ensures Lower(name) == Lower(title) ==> TitleMatches(name, title)
  {
    SubstringNoLonger(Lower(name), Lower(title));
    SubstringOfItself(Lower(title));
    IsSubstring(Lower(name), Lower(title))
  }

  /** The gate holds exactly when the lower-cased name sits somewhere in the lower-cased title. */
  lemma {:induction false} TitleMatchesIffOccurs(name: string, title: string)
    ensures TitleMatches(name, title) <==> exists i :: OccursAt(Lower(name), Lower(title), i)
  {
    var n, t := Lower(name), Lower(title);
    IsSubstringIffOccurs(n, t);
    if TitleMatches(name, title) {
      var i :| OccursAt(n, t, i);
      assert OccursAt(Lower(name), Lower(title), i);
      assert exists j :: OccursAt(Lower(name), Lower(title), j);
    } else {
      forall i ensures !OccursAt(n, t, i) { }
    }
  }

  /** The gate ignores ASCII case on both sides. */
  lemma TitleMatchIgnoresCase(name: string, title: string)
    ensures TitleMatches(name, title) == TitleMatches(Lower(name), title)
    ensures TitleMatches(name, title) == TitleMatches(name, Lower(title))
  {
    LowerIdempotent(name);
    LowerIdempotent(title);
    assert Lower(Lower(name)) == Lower(name);
    assert Lower(Lower(title)) == Lower(title);
  }

  /** As written, an empty requested name (a blank input line) is accepted for any candidate. */
  lemma EmptyNameMatchesEveryTitle(title: string)
    ensures TitleMatches("", title)
  {
  }
}
