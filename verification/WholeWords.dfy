/** `names_word` of xtask/src/fixtures.rs and `names_dependency` of xtask/src/main.rs: whether a
    text names an identifier as a whole word. The two differ only in which characters belong to
    a name, so the class is a parameter here. */
module WholeWords {
  import opened Options
  import opened TextSearch

  /** The character before or after an occurrence does not continue a name. */
  predicate Boundary(c: Option<char>, name: char -> bool) {
    c.None? || !name(c.value)
  }

  function Before(text: string, p: nat): Option<char>
    requires p <= |text|
  {
    if p == 0 then None else Some(text[p - 1])
  }

  function After(text: string, q: nat): Option<char>
    requires q <= |text|
  {
    if q == |text| then None else Some(text[q])
  }

  /** `match_indices` from `from` on: a match is skipped when it overlaps the one before. */
  function Matches(text: string, ident: string, from: nat): (ps: seq<nat>)
    ensures forall p :: p in ps ==> from <= p && Occurs(text, ident, p)
    decreases |text| + 1 - from
  {
    if from + |ident| > |text| then []
    else if !Occurs(text, ident, from) then Matches(text, ident, from + 1)
    else [from] + Matches(text, ident, from + if ident == [] then 1 else |ident|)
  }

  predicate StandsAlone(text: string, ident: string, p: nat, name: char -> bool)
    requires p + |ident| <= |text|
  {
    Boundary(Before(text, p), name) && Boundary(After(text, p + |ident|), name)
  }

  predicate Names(text: string, ident: string, name: char -> bool) {
    exists p :: p in Matches(text, ident, 0) && StandsAlone(text, ident, p, name)
  }

  /** `char::is_alphanumeric` plus the underscore. */
  function WordChars(alphanumeric: char -> bool): char -> bool {
    c => alphanumeric(c) || c == '_'
  }

  /** A crate name may also hold a hyphen. */
  function CrateChars(alphanumeric: char -> bool): char -> bool {
    c => alphanumeric(c) || c == '_' || c == '-'
  }

  predicate NamesWord(text: string, ident: string, alphanumeric: char -> bool) {
    Names(text, ident, WordChars(alphanumeric))
  }

  predicate NamesDependency(text: string, dependency: string, alphanumeric: char -> bool) {
    Names(text, dependency, CrateChars(alphanumeric))
  }

  predicate AllName(s: string, name: char -> bool) {
    forall k :: 0 <= k < |s| ==> name(s[k])
  }

  /** `text[p..q]` is a longest stretch of name characters. */
  predicate MaximalRun(text: string, p: nat, q: nat, name: char -> bool) {
    && p < q <= |text| && AllName(text[p..q], name)
    && (p == 0 || !name(text[p - 1])) && (q == |text| || !name(text[q]))
  }

  /** `ident` is one of the maximal runs of the text. */
  ghost predicate IsWordOf(text: string, ident: string, name: char -> bool) {
    exists p: nat, q: nat :: MaximalRun(text, p, q, name) && text[p..q] == ident
  }

  lemma MatchesStep(text: string, ident: string, from: nat)
    requires from + |ident| <= |text|
    ensures Matches(text, ident, from) ==
      if Occurs(text, ident, from) then [from] + Matches(text, ident, from + if ident == [] then 1 else |ident|)
      else Matches(text, ident, from + 1)
  {
  }

  lemma {:induction false} LoneOccurrenceIsMatched(
    text: string, ident: string, p: nat, name: char -> bool, from: nat)
    requires AllName(ident, name) && Occurs(text, ident, p) && StandsAlone(text, ident, p, name)
    requires from <= p
    ensures p in Matches(text, ident, from)
    decreases p - from
  {
    MatchesStep(text, ident, from);
    hide Matches;
    if from < p {
      var next := from + 1;
      if Occurs(text, ident, from) && ident != [] {
        // A match that reached past p would put a name character just before it.
        assert forall j :: from <= j < from + |ident| ==> text[j] == text[from..from + |ident|][j - from];
        next := from + |ident|;
      }
      LoneOccurrenceIsMatched(text, ident, p, name, next);
    }
  }

  /** An identifier is named exactly when it is one of the maximal runs of the text. */
  lemma NamedExactlyWhenAWord(text: string, ident: string, name: char -> bool)
    requires ident != [] && AllName(ident, name)
    ensures Names(text, ident, name) <==> IsWordOf(text, ident, name)
  {
    if IsWordOf(text, ident, name) {
      var p: nat, q: nat :| MaximalRun(text, p, q, name) && text[p..q] == ident;
      LoneOccurrenceIsMatched(text, ident, p, name, 0);
    }
    if Names(text, ident, name) {
      var p :| p in Matches(text, ident, 0) && StandsAlone(text, ident, p, name);
      assert MaximalRun(text, p, p + |ident|, name);
    }
  }

  /** Both searches are whole-word searches over their own class of characters. */
  lemma WordsAndDependencies(text: string, ident: string, alphanumeric: char -> bool)
    requires ident != []
    ensures AllName(ident, WordChars(alphanumeric)) ==>
      (NamesWord(text, ident, alphanumeric) <==> IsWordOf(text, ident, WordChars(alphanumeric)))
    ensures AllName(ident, CrateChars(alphanumeric)) ==>
      (NamesDependency(text, ident, alphanumeric) <==> IsWordOf(text, ident, CrateChars(alphanumeric)))
  {
    if AllName(ident, WordChars(alphanumeric)) {
      NamedExactlyWhenAWord(text, ident, WordChars(alphanumeric));
    }
    if AllName(ident, CrateChars(alphanumeric)) {
      NamedExactlyWhenAWord(text, ident, CrateChars(alphanumeric));
    }
  }

  // ---- In terms of characters ----------------------------------------------------------

  /** `text[p..q]` is all letters, digits and underscores, with none of them next to it. */
  ghost predicate WordAt(text: string, p: nat, q: nat, alphanumeric: char -> bool) {
    && p < q <= |text| && (forall k :: p <= k < q ==> alphanumeric(text[k]) || text[k] == '_')
    && (p > 0 ==> !alphanumeric(text[p - 1]) && text[p - 1] != '_')
    && (q < |text| ==> !alphanumeric(text[q]) && text[q] != '_')
  }

  /** The same with hyphens. */
  ghost predicate CrateAt(text: string, p: nat, q: nat, alphanumeric: char -> bool) {
    && p < q <= |text| && (forall k :: p <= k < q ==> alphanumeric(text[k]) || text[k] == '_' || text[k] == '-')
    && (p > 0 ==> !alphanumeric(text[p - 1]) && text[p - 1] != '_' && text[p - 1] != '-')
    && (q < |text| ==> !alphanumeric(text[q]) && text[q] != '_' && text[q] != '-')
  }

  lemma AllNameSpelled(text: string, p: nat, q: nat, name: char -> bool)
    requires p <= q <= |text|
    ensures AllName(text[p..q], name) <==> forall k :: p <= k < q ==> name(text[k])
  {
    assert forall k :: p <= k < q ==> text[k] == text[p..q][k - p];
  }

  lemma RunsSpelled(text: string, p: nat, q: nat, alphanumeric: char -> bool)
    ensures MaximalRun(text, p, q, WordChars(alphanumeric)) <==> WordAt(text, p, q, alphanumeric)
    ensures MaximalRun(text, p, q, CrateChars(alphanumeric)) <==> CrateAt(text, p, q, alphanumeric)
  {
    if p < q <= |text| {
      AllNameSpelled(text, p, q, WordChars(alphanumeric));
      AllNameSpelled(text, p, q, CrateChars(alphanumeric));
      hide AllName;
    }
  }

  /** A word is named exactly when it stands between other characters than letters, digits and
      underscores; a crate, when these are no hyphens either. */
  lemma NamedSpelled(text: string, ident: string, alphanumeric: char -> bool)
    requires ident != []
    ensures (forall k :: 0 <= k < |ident| ==> alphanumeric(ident[k]) || ident[k] == '_') ==>
      (NamesWord(text, ident, alphanumeric) <==>
        exists p: nat, q: nat :: WordAt(text, p, q, alphanumeric) && text[p..q] == ident)
    ensures (forall k :: 0 <= k < |ident| ==> alphanumeric(ident[k]) || ident[k] == '_' || ident[k] == '-') ==>
      (NamesDependency(text, ident, alphanumeric) <==>
        exists p: nat, q: nat :: CrateAt(text, p, q, alphanumeric) && text[p..q] == ident)
  {
    WordsAndDependencies(text, ident, alphanumeric);
    hide WordAt, CrateAt, MaximalRun, Names;
    forall p: nat, q: nat
      ensures MaximalRun(text, p, q, WordChars(alphanumeric)) <==> WordAt(text, p, q, alphanumeric)
      ensures MaximalRun(text, p, q, CrateChars(alphanumeric)) <==> CrateAt(text, p, q, alphanumeric)
    {
      RunsSpelled(text, p, q, alphanumeric);
    }
  }

  /** A crate is not named by a longer one; as a word it is. */
  lemma HyphenContinuesCrates(text: string, ident: string, alphanumeric: char -> bool)
    requires text == "bathy-query" && ident == "bathy"
    requires (forall k :: 0 <= k < 5 ==> alphanumeric(text[k])) && !alphanumeric('-')
    ensures NamesWord(text, ident, alphanumeric) && !NamesDependency(text, ident, alphanumeric)
  {
    assert text[0..5] == ident && text[5] == '-';
    assert forall k :: 0 <= k < 5 ==> ident[k] == text[k];
    NamedSpelled(text, ident, alphanumeric);
    assert WordAt(text, 0, 5, alphanumeric);
    forall p: nat, q: nat | p < q <= |text| && text[p..q] == ident
      ensures p == 0 && q == 5
    {
      assert text[p] == text[p..q][0] == 'b';
    }
  }

  /** With a character that belongs to no name inside it, a string can be skipped: here the
      second occurrence stands alone and overlaps the first, which does not. */
  lemma OverlapHidesAnOccurrence(name: char -> bool)
    requires name('x') && name('a') && !name(' ')
    ensures var text, ident := "xa a a", "a a";
      !Names(text, ident, name) && Occurs(text, ident, 3) && StandsAlone(text, ident, 3, name)
  {
    var text, ident := "xa a a", "a a";
    assert text[0..3] == "xa " && text[1..4] == ident && text[3..6] == ident;
    assert !Occurs(text, ident, 0);
    assert Matches(text, ident, 1) == [1] + Matches(text, ident, 4);
    assert Matches(text, ident, 4) == [];
  }
}
