/** `splice` of xtask/src/bench.rs: the generated block of a document is replaced, and the prose
    around it is not. */
module Splice {
  import opened Options
  import opened TextSearch

  /** The two markers; all that is used of them is that the end marker is not the longer one. */
  datatype Markers = Markers(begin: string, end: string) {
    predicate Valid() {
      |end| <= |begin|
    }
  }

  const GENERATED := Markers(
    "<!-- BEGIN GENERATED: cargo run -p xtask -- bench-compare -->", "<!-- END GENERATED -->")

  datatype Outcome = Spliced(doc: string) | NoBegin | NoEnd | WrongOrder

  function Replace(m: Markers, doc: string, generated: string): Outcome {
    match Find(doc, m.begin)
    case None => NoBegin
    case Some(begin) =>
      match Find(doc, m.end)
      case None => NoEnd
      case Some(end) =>
        if end < begin then WrongOrder
        else Spliced(doc[..begin] + generated + doc[end + |m.end|..])
  }

  /** The markers are there, in order, at `begin` and `end`. */
  predicate Marked(m: Markers, doc: string, begin: nat, end: nat) {
    Find(doc, m.begin) == Some(begin) && Find(doc, m.end) == Some(end) && begin <= end
  }

  /** What a renderer produces: the begin marker first, the end marker last and nowhere else. */
  ghost predicate IsBlock(m: Markers, g: string) {
    m.begin <= g && EndsOnce(g, m.end)
  }

  ghost predicate EndsOnce(g: string, marker: string) {
    && |marker| <= |g| && Occurs(g, marker, |g| - |marker|)
    && forall k :: 0 <= k < |g| - |marker| ==> !Occurs(g, marker, k)
  }

  /** `pre` and `post` are the prose around the marked block. */
  predicate Split(m: Markers, doc: string, begin: nat, end: nat, pre: string, post: string) {
    && Marked(m, doc, begin, end) && end + |m.end| <= |doc|
    && pre == doc[..begin] && post == doc[end + |m.end|..]
  }

  predicate Joins(whole: string, pre: string, g: string, post: string) {
    whole == pre + g + post
  }

  lemma InsideOccurs(whole: string, pre: string, g: string, post: string, marker: string, k: nat)
    requires Joins(whole, pre, g, post) && k + |marker| <= |g|
    ensures Occurs(whole, marker, |pre| + k) <==> Occurs(g, marker, k)
  {
    assert whole[|pre| + k..|pre| + k + |marker|] == g[k..k + |marker|];
  }

  /** `marker` stands in `doc` right after `pre`. */
  predicate Opens(doc: string, pre: string, marker: string) {
    |pre| <= |doc| && pre == doc[..|pre|] && Occurs(doc, marker, |pre|)
  }

  predicate BeginsWith(g: string, marker: string) {
    marker <= g
  }

  /** Both documents have the same prose and then the begin marker. */
  ghost predicate SameUntil(doc: string, doc': string, same: nat) {
    same <= |doc| && same <= |doc'| && doc'[..same] == doc[..same]
  }

  lemma SameStart(doc: string, doc': string, pre: string, g: string, post: string, marker: string)
    requires Joins(doc', pre, g, post) && BeginsWith(g, marker) && Opens(doc, pre, marker)
    ensures SameUntil(doc, doc', |pre| + |marker|)
    ensures Occurs(doc', marker, |pre|)
  {
    assert doc[..|pre| + |marker|] == pre + marker;
    assert doc'[..|pre| + |marker|] == pre + marker;
    InsideOccurs(doc', pre, g, post, marker, 0);
  }

  /** A marker that would begin in the prose before the block would begin there already. */
  lemma NotBefore(doc: string, doc': string, marker: string, first: nat, p: nat, same: nat)
    requires Find(doc, marker) == Some(first) && p < first
    requires SameUntil(doc, doc', same) && p + |marker| <= same
    ensures !Occurs(doc', marker, p)
  {
    assert doc'[p..p + |marker|] == doc'[..same][p..p + |marker|] == doc[p..p + |marker|];
    if Occurs(doc', marker, p) {
      FindIsFirst(doc, marker, p);
    }
  }

  /** The begin marker is found where it was: the text up to its end has not changed. */
  lemma BeginAfter(doc: string, doc': string, pre: string, g: string, post: string, marker: string)
    requires Joins(doc', pre, g, post) && BeginsWith(g, marker)
    requires Opens(doc, pre, marker) && Find(doc, marker) == Some(|pre|)
    ensures Find(doc', marker) == Some(|pre|)
  {
    hide Find, Joins, SameUntil, Opens, BeginsWith;
    SameStart(doc, doc', pre, g, post, marker);
    forall p | 0 <= p < |pre|
      ensures !Occurs(doc', marker, p)
    {
      NotBefore(doc, doc', marker, |pre|, p, |pre| + |marker|);
    }
    hide Occurs;
    FindAt(doc', marker, |pre|);
  }

  /** The end marker is found at the end of the new block: it is nowhere else in it, and one
      that began in the prose before it would end within the begin marker. */
  lemma EndAfter(
    doc: string, doc': string, pre: string, g: string, post: string, begin: string, marker: string, end: nat)
    requires Joins(doc', pre, g, post) && BeginsWith(g, begin) && Opens(doc, pre, begin) && |marker| <= |begin|
    requires Find(doc, marker) == Some(end) && |pre| <= end
    requires EndsOnce(g, marker)
    ensures |marker| <= |g| && Find(doc', marker) == Some(|pre| + |g| - |marker|)
  {
    hide Find, Joins, SameUntil, Occurs, Opens, BeginsWith;
    SameStart(doc, doc', pre, g, post, begin);
    InsideOccurs(doc', pre, g, post, marker, |g| - |marker|);
    forall p | 0 <= p < |pre| + |g| - |marker|
      ensures !Occurs(doc', marker, p)
    {
      if p < |pre| {
        NotBefore(doc, doc', marker, end, p, |pre| + |begin|);
      } else {
        InsideOccurs(doc', pre, g, post, marker, p - |pre|);
      }
    }
    FindAt(doc', marker, |pre| + |g| - |marker|);
  }

  lemma Around(whole: string, pre: string, g: string, post: string)
    requires Joins(whole, pre, g, post)
    ensures |whole| == |pre| + |g| + |post| && whole[..|pre|] == pre && whole[|pre| + |g|..] == post
  {
  }

  lemma Facts(m: Markers, doc: string, begin: nat, end: nat, g: string, pre: string, post: string)
    requires Split(m, doc, begin, end, pre, post) && IsBlock(m, g)
    ensures |pre| == begin <= end && Opens(doc, pre, m.begin) && BeginsWith(g, m.begin) && EndsOnce(g, m.end)
    ensures Find(doc, m.begin) == Some(begin) && Find(doc, m.end) == Some(end)
    ensures m.Valid() ==> |m.end| <= |m.begin|
  {
  }

  lemma MarkersMoved(
    m: Markers, doc: string, doc': string, begin: nat, end: nat, g: string, pre: string, post: string)
    requires m.Valid() && IsBlock(m, g) && Split(m, doc, begin, end, pre, post) && Joins(doc', pre, g, post)
    ensures Find(doc', m.begin) == Some(begin)
    ensures |m.end| <= |g| && Find(doc', m.end) == Some(begin + |g| - |m.end|)
  {
    hide *;
    Facts(m, doc, begin, end, g, pre, post);
    BeginAfter(doc, doc', pre, g, post, m.begin);
    EndAfter(doc, doc', pre, g, post, m.begin, m.end, end);
  }

  /** After a block has been spliced in, the markers stand at its two ends, and the prose is
      what it was. */
  lemma MarkersAfterSplice(
    m: Markers, doc: string, doc': string, begin: nat, end: nat, g: string, pre: string, post: string)
    requires m.Valid() && IsBlock(m, g) && Split(m, doc, begin, end, pre, post) && Joins(doc', pre, g, post)
    ensures |m.end| <= |g| && Split(m, doc', begin, begin + |g| - |m.end|, pre, post)
  {
    assert |pre| == begin;
    MarkersMoved(m, doc, doc', begin, end, g, pre, post);
    hide Find, Occurs, IsBlock, Joins;
    Around(doc', pre, g, post);
  }

  /** Whether a document can be spliced depends on its markers alone. */
  lemma SplicedExactlyWhenMarked(m: Markers, doc: string, g: string)
    ensures Replace(m, doc, g).Spliced? <==> exists begin: nat, end: nat :: Marked(m, doc, begin, end)
  {
    if Replace(m, doc, g).Spliced? {
      assert Marked(m, doc, Find(doc, m.begin).value, Find(doc, m.end).value);
    }
  }

  /** Only what stands between the markers, markers included, is replaced. */
  lemma OnlyTheBlockIsReplaced(m: Markers, doc: string, begin: nat, end: nat, pre: string, post: string, g: string)
    requires Split(m, doc, begin, end, pre, post)
    ensures Replace(m, doc, g) == Spliced(pre + g + post)
  {
  }

  lemma Parts(m: Markers, doc: string, g: string) returns (begin: nat, end: nat, pre: string, post: string)
    requires Replace(m, doc, g).Spliced?
    ensures Split(m, doc, begin, end, pre, post)
    ensures Joins(Replace(m, doc, g).doc, pre, g, post)
  {
    begin, end := Find(doc, m.begin).value, Find(doc, m.end).value;
    pre, post := doc[..begin], doc[end + |m.end|..];
  }

  /** The last block written wins, whatever was spliced in before it. */
  lemma LastWriterWins(m: Markers, doc: string, g: string, g': string)
    requires m.Valid() && IsBlock(m, g) && Replace(m, doc, g).Spliced?
    ensures Replace(m, Replace(m, doc, g).doc, g') == Replace(m, doc, g')
  {
    hide *;
    var begin, end, pre, post := Parts(m, doc, g);
    var doc' := Replace(m, doc, g).doc;
    MarkersAfterSplice(m, doc, doc', begin, end, g, pre, post);
    OnlyTheBlockIsReplaced(m, doc, begin, end, pre, post, g');
    OnlyTheBlockIsReplaced(m, doc', begin, begin + |g| - |m.end|, pre, post, g');
  }

  /** In particular for the markers of the published comparison. */
  lemma LastComparisonWins(doc: string, g: string, g': string)
    requires IsBlock(GENERATED, g) && Replace(GENERATED, doc, g).Spliced?
    ensures Replace(GENERATED, Replace(GENERATED, doc, g).doc, g') == Replace(GENERATED, doc, g')
  {
    assert GENERATED.Valid();
    hide *;
    LastWriterWins(GENERATED, doc, g, g');
  }

  lemma SpliceTwice(m: Markers, doc: string, g: string)
    requires m.Valid() && IsBlock(m, g) && Replace(m, doc, g).Spliced?
    ensures Replace(m, Replace(m, doc, g).doc, g) == Replace(m, doc, g)
  {
    LastWriterWins(m, doc, g, g);
  }

  /** The gate's question: splicing changes nothing exactly when the block is already `g`. */
  lemma UnchangedExactlyWhenCurrent(m: Markers, doc: string, begin: nat, end: nat, g: string)
    requires Marked(m, doc, begin, end) && end + |m.end| <= |doc|
    ensures Replace(m, doc, g) == Spliced(doc) <==> doc[begin..end + |m.end|] == g
  {
    var pre, block, post := doc[..begin], doc[begin..end + |m.end|], doc[end + |m.end|..];
    OnlyTheBlockIsReplaced(m, doc, begin, end, pre, post, g);
    assert doc == pre + block + post;
    hide *;
    SameAround(pre, g, block, post);
  }

  lemma SameAround(pre: string, g: string, block: string, post: string)
    ensures pre + g + post == pre + block + post <==> g == block
  {
    if pre + g + post == pre + block + post {
      assert (pre + g + post)[|pre|..|pre| + |g|] == g;
      assert (pre + block + post)[|pre|..|pre| + |block|] == block;
    }
  }

  ghost predicate FirstAt(doc: string, marker: string, at: nat) {
    Occurs(doc, marker, at) && forall k: nat :: k < at ==> !Occurs(doc, marker, k)
  }

  lemma FindSpelled(doc: string, marker: string)
    ensures Find(doc, marker).None? <==> forall k: nat :: !Occurs(doc, marker, k)
    ensures forall at: nat :: Find(doc, marker) == Some(at) <==> FirstAt(doc, marker, at)
  {
    hide Find, Occurs;
    forall k: nat | Occurs(doc, marker, k)
      ensures Find(doc, marker).Some? && Find(doc, marker).value <= k
    {
      FindIsFirst(doc, marker, k);
    }
  }

  /** Which of the four outcomes a document has: a marker is missing, the end marker first stands
      before the begin marker, or everything from the one through the other is replaced. */
  lemma OutcomeSpelled(m: Markers, doc: string, generated: string)
    ensures Replace(m, doc, generated) == NoBegin <==> forall k: nat :: !Occurs(doc, m.begin, k)
    ensures Replace(m, doc, generated) == NoEnd <==>
      (exists k: nat :: Occurs(doc, m.begin, k)) && forall k: nat :: !Occurs(doc, m.end, k)
    ensures Replace(m, doc, generated) == WrongOrder <==>
      exists b: nat, e: nat :: FirstAt(doc, m.begin, b) && FirstAt(doc, m.end, e) && e < b
    ensures forall b: nat, e: nat :: FirstAt(doc, m.begin, b) && FirstAt(doc, m.end, e) && b <= e ==>
      e + |m.end| <= |doc| && Replace(m, doc, generated) == Spliced(doc[..b] + generated + doc[e + |m.end|..])
  {
    FindSpelled(doc, m.begin);
    FindSpelled(doc, m.end);
    hide Find;
  }
}
