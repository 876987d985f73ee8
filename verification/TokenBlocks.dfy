/** Why source is stripped before its brackets are counted (xtask/src/gates.rs): in stripped
    source only the brackets of the code count, so a block of the code is what is found. */
module TokenBlocks {
  import opened Blanking
  import opened RustBlocks
  import RustNoise
  import opened RustTokens

  /** A pair of brackets: no part of a name, a lifetime or a blank. */
  datatype Brackets = Brackets(open: char, close: char) {
    predicate Valid() {
      open != close && Foreign(open) && Foreign(close)
    }

    function Step(c: char): int {
      if c == open then 1 else if c == close then -1 else 0
    }

    /** Openings minus closings in all of `s`. */
    function Level(s: string): int {
      Depth(s, open, close, 0, |s|)
    }
  }

  predicate Foreign(c: char) {
    !IsNameChar(c) && c != ' ' && c != '\n' && c != '\''
  }

  /** Openings minus closings among the code tokens. */
  function CodeLevel(source: Source, b: Brackets): int {
    if source == [] then 0
    else CodeLevel(source[1..], b) + if source[0].Code? then b.Step(source[0].c) else 0
  }

  lemma {:induction false} DepthOfPart(a: string, s: string, c: string, b: Brackets, k: nat)
    requires k <= |s|
    ensures Depth(a + s + c, b.open, b.close, |a|, |a| + k) == Depth(s, b.open, b.close, 0, k)
  {
    if k > 0 {
      DepthOfPart(a, s, c, b, k - 1);
    }
  }

  lemma {:induction false} LevelOfOther(s: string, b: Brackets, k: nat)
    requires k <= |s| && forall i :: 0 <= i < |s| ==> s[i] != b.open && s[i] != b.close
    ensures Depth(s, b.open, b.close, 0, k) == 0
  {
    if k > 0 {
      LevelOfOther(s, b, k - 1);
    }
  }

  /** A lifetime is a quote and name characters. */
  predicate Named(token: Token) {
    token.Lifetime? ==> forall k :: 0 <= k < |token.name| ==> IsNameChar(token.name[k])
  }

  predicate AllNamed(source: Source) {
    forall k :: 0 <= k < |source| ==> Named(source[k])
  }

  lemma {:induction false} ValidIsNamed(source: Source)
    requires Valid(source)
    ensures AllNamed(source)
  {
    if source != [] {
      ValidIsNamed(source[1..]);
      assert forall k :: 1 <= k < |source| ==> source[k] == source[1..][k - 1];
    }
  }

  /** No token but a code token leaves a bracket. */
  lemma OnlyCodeHasBrackets(token: Token, b: Brackets)
    requires b.Valid() && Named(token) && !token.Code?
    ensures forall i :: 0 <= i < |token.Left()| ==> token.Left()[i] != b.open && token.Left()[i] != b.close
  {
  }

  /** The count over any part of what is left of a source is the count over some of its code. */
  lemma {:induction false} LevelOfPrefix(source: Source, b: Brackets, k: nat) returns (j: nat)
    requires b.Valid() && AllNamed(source) && k <= |Left(source)|
    ensures j <= |source| && Depth(Left(source), b.open, b.close, 0, k) == CodeLevel(source[..j], b)
    ensures k == |Left(source)| ==> CodeLevel(source[..j], b) == CodeLevel(source, b)
  {
    hide Token.Left, Named;
    if source == [] {
      j := 0;
    } else {
      var token, more, n := source[0], source[1..], |source[0].Left()|;
      assert Left(source) == token.Left() + Left(more);
      var first := FirstLevel(token, b, if k < n then k else n);
      assert "" + token.Left() + Left(more) == Left(source);
      DepthOfPart("", token.Left(), Left(more), b, if k < n then k else n);
      if k < n {
        j := first;
        assert source[..j] == if j == 0 then [] else [token];
        assert [token][1..] == [];
      } else {
        var i := LevelOfPrefix(more, b, k - n);
        j := i + 1;
        assert token.Left() + Left(more) + "" == Left(source);
        DepthOfPart(token.Left(), Left(more), "", b, k - n);
        DepthAdds(Left(source), b.open, b.close, 0, n, k);
        assert source[..j][1..] == more[..i];
      }
    }
  }

  /** The count over the first `k` characters a token leaves: that of the token, or none. */
  lemma FirstLevel(token: Token, b: Brackets, k: nat) returns (j: nat)
    requires b.Valid() && Named(token) && k <= |token.Left()|
    ensures j <= 1 && Depth(token.Left(), b.open, b.close, 0, k) ==
      if j == 1 && token.Code? then b.Step(token.c) else 0
    ensures k == |token.Left()| ==> j == 1
  {
    if token.Code? {
      assert token.Left() == [token.c];
      assert Depth([token.c], b.open, b.close, 0, 0) == 0;
      j := k;
    } else {
      OnlyCodeHasBrackets(token, b);
      LevelOfOther(token.Left(), b, k);
      j := if k == |token.Left()| then 1 else 0;
    }
  }

  lemma {:induction false} LeftAppend(a: Source, c: Source)
    ensures Left(a + c) == Left(a) + Left(c)
  {
    if a == [] {
      assert a + c == c;
    } else {
      assert (a + c)[1..] == a[1..] + c;
      LeftAppend(a[1..], c);
    }
  }

  /** The depth of stripped source is the depth of its code: no bracket in a comment, a string
      or a literal counts. */
  lemma StrippedLevelIsCodeLevel(source: Source, b: Brackets)
    requires b.Valid() && Valid(source) && AllRecognised(source)
    ensures b.Level(RustNoise.Strip(Text(source))) == CodeLevel(source, b)
  {
    StripBlanksNoise(source);
    ValidIsNamed(source);
    hide Valid, Left, AllNamed;
    var j := LevelOfPrefix(source, b, |Left(source)|);
  }

  /** The code closes no bracket it has not opened, and all it has opened. */
  ghost predicate Balanced(source: Source, b: Brackets) {
    CodeLevel(source, b) == 0 && forall j :: 0 <= j <= |source| ==> CodeLevel(source[..j], b) >= 0
  }

  lemma DepthInBlock(pre: string, inner: string, post: string, b: Brackets, k: nat)
    requires b.Valid() && k <= |inner|
    ensures var s := pre + ([b.open] + inner + [b.close]) + post;
      |s| == |pre| + |inner| + 2 + |post| &&
      Depth(s, b.open, b.close, |pre|, |pre| + 1 + k) == 1 + Depth(inner, b.open, b.close, 0, k)
  {
    var block := [b.open] + inner + [b.close];
    assert Depth(block, b.open, b.close, 0, 0) == 0;
    assert Depth(block, b.open, b.close, 0, 1) == 1;
    hide Depth;
    DepthOfPart(pre, block, post, b, k + 1);
    DepthOfPart([b.open], inner, [b.close], b, k);
    DepthAdds(block, b.open, b.close, 0, 1, k + 1);
  }

  /** No closing bracket of `s` comes before its opening one. */
  ghost predicate NeverBelow(s: string, b: Brackets) {
    forall k: nat :: k <= |s| ==> Depth(s, b.open, b.close, 0, k) >= 0
  }

  lemma BalancedIsBlock(pre: string, inner: string, post: string, b: Brackets)
    requires b.Valid() && b.Level(inner) == 0 && NeverBelow(inner, b)
    ensures IsBlock(pre + ([b.open] + inner + [b.close]) + post, b.open, b.close, |pre|, |pre| + |inner| + 2)
  {
    var s, start := pre + ([b.open] + inner + [b.close]) + post, |pre|;
    var last := start + |inner| + 1;
    assert s[last] == b.close && s[start] == b.open && last < |s|;
    forall k | start < k <= last
      ensures Depth(s, b.open, b.close, start, k) == 1 + Depth(inner, b.open, b.close, 0, k - start - 1)
    {
      DepthInBlock(pre, inner, post, b, k - start - 1);
    }
    assert Depth(s, b.open, b.close, start, last + 1) == Depth(s, b.open, b.close, start, last) - 1;
    hide Depth;
  }

  /** A source with a bracketed part. */
  function Around(before: Source, inner: Source, after: Source, b: Brackets): Source {
    before + ([Code(b.open)] + inner + [Code(b.close)]) + after
  }

  /** A balanced block of code is exactly the block that counting brackets in the stripped
      source finds, whatever brackets its comments, strings and literals hold. */
  lemma CodeBlockIsFound(before: Source, inner: Source, after: Source, b: Brackets)
    requires b.Valid() && Balanced(inner, b)
    requires Valid(Around(before, inner, after, b)) && AllRecognised(Around(before, inner, after, b))
    ensures var s, start := RustNoise.Strip(Text(Around(before, inner, after, b))), |Left(before)|;
      && IsBlock(s, b.open, b.close, start, start + |Left(inner)| + 2)
      && EndOf(s, b.open, b.close, start, 0) == start + |Left(inner)| + 2
  {
    hide *;
    StripBlanksNoise(Around(before, inner, after, b));
    LeftOfBlock(before, inner, after, b);
    InnerIsLevel(before, inner, after, b);
    BalancedIsBlock(Left(before), Left(inner), Left(after), b);
    var s, start := RustNoise.Strip(Text(Around(before, inner, after, b))), |Left(before)|;
    BlockEnds(s, b, start, start + |Left(inner)| + 2);
  }

  lemma BlockEnds(s: string, b: Brackets, start: nat, end: nat)
    requires b.Valid() && IsBlock(s, b.open, b.close, start, end)
    ensures EndOf(s, b.open, b.close, start, 0) == end
  {
    EndOfIsBlock(s, b.open, b.close, start);
    BlockEndIsUnique(s, b.open, b.close, start, end, EndOf(s, b.open, b.close, start, 0));
  }

  lemma LeftOfBlock(before: Source, inner: Source, after: Source, b: Brackets)
    ensures Left(Around(before, inner, after, b)) == Left(before) + ([b.open] + Left(inner) + [b.close]) + Left(after)
  {
    var open, close := [Code(b.open)], [Code(b.close)];
    assert open[1..] == [] && close[1..] == [];
    assert Left(open) == [b.open] && Left(close) == [b.close];
    hide Left;
    LeftAppend(before + (open + inner + close), after);
    LeftAppend(before, open + inner + close);
    LeftAppend(open + inner, close);
    LeftAppend(open, inner);
  }

  lemma InnerIsLevel(before: Source, inner: Source, after: Source, b: Brackets)
    requires b.Valid() && Balanced(inner, b) && Valid(Around(before, inner, after, b))
    ensures b.Level(Left(inner)) == 0 && NeverBelow(Left(inner), b)
  {
    var source := Around(before, inner, after, b);
    ValidIsNamed(source);
    assert forall k :: 0 <= k < |inner| ==> inner[k] == source[|before| + 1 + k];
    assert AllNamed(inner);
    hide Valid, Left, Depth, AllNamed, CodeLevel, Around;
    forall k: nat | k <= |Left(inner)|
      ensures Depth(Left(inner), b.open, b.close, 0, k) >= 0
      ensures k == |Left(inner)| ==> Depth(Left(inner), b.open, b.close, 0, k) == 0
    {
      var j := LevelOfPrefix(inner, b, k);
    }
  }
}
