/** What `strip_comments` (xtask/src/fixtures.rs) guarantees: on every text its positions and
    line numbers, and that a second pass finds nothing; on a tokenised text, that exactly the
    comments are blanked. */
module SourceCommentsLaws {
  import opened Blanking
  import opened Lines
  import opened SourceComments
  import opened RustTokens

  /** Each position keeps its character, or a character that is not a newline became a space. */
  ghost predicate InPlace(s: string, out: string) {
    |out| == |s| && forall k :: 0 <= k < |s| ==> out[k] == s[k] || (out[k] == ' ' && s[k] != '\n')
  }

  lemma {:induction false} Positions(s: string)
    ensures InPlace(s, SourceComments.Strip(s))
    decreases |s|
  {
    if s != [] {
      var n := Lex(s).used;
      Positions(s[n..]);
      var rest := SourceComments.Strip(s[n..]);
      assert SourceComments.Strip(s) == Piece(s) + rest;
      assert InPlace(s[..n], Piece(s));
      hide Lex, Piece, SourceComments.Strip;
      InPlaceParts(s, n, Piece(s), rest);
    }
  }

  lemma InPlaceParts(s: string, n: nat, a: string, b: string)
    requires n <= |s| && InPlace(s[..n], a) && InPlace(s[n..], b)
    ensures InPlace(s, a + b)
  {
    forall k | 0 <= k < |s|
      ensures (a + b)[k] == s[k] || ((a + b)[k] == ' ' && s[k] != '\n')
    {
      if k < n {
        assert s[..n][k] == s[k];
      } else {
        assert s[n..][k - n] == s[k];
      }
    }
  }

  // ---- Line numbers --------------------------------------------------------------------

  /** A position has the same line number in the stripped text as in the original. */
  lemma {:induction false} LinesUnmoved(src: string, offset: nat)
    requires offset <= |src|
    ensures |SourceComments.Strip(src)| == |src|
    ensures LineOf(SourceComments.Strip(src), offset) == LineOf(src, offset)
  {
    Positions(src);
    if offset > 0 {
      LinesUnmoved(src, offset - 1);
      assert src[..offset][..offset - 1] == src[..offset - 1];
      var out := SourceComments.Strip(src);
      assert out[..offset][..offset - 1] == out[..offset - 1];
    }
  }

  // ---- A second pass -------------------------------------------------------------------

  lemma {:induction false} HashesBeforeEnd(s: string, hashes: nat, k: nat)
    requires k < |s| && forall m :: 0 <= m < k ==> s[m] == '#'
    ensures SourceComments.RawEnd(s, hashes) > k
  {
    if k > 0 {
      HashesBeforeEnd(s[1..], hashes, k - 1);
    }
  }

  /** The end of a raw string depends only on the characters before it. */
  lemma {:induction false} RawEndStable(s: string, u: string, hashes: nat)
    requires |u| == |s| && var n := SourceComments.RawEnd(s, hashes); u[..n] == s[..n]
    ensures SourceComments.RawEnd(u, hashes) == SourceComments.RawEnd(s, hashes)
  {
    if s != [] {
      var n := SourceComments.RawEnd(s, hashes);
      assert forall k :: 0 <= k < n ==> s[..n][k] == s[k] && u[..n][k] == u[k];
      if !SourceComments.ClosesRaw(s, hashes) {
        if s[0] == '"' {
          var k := FirstNonHash(s, hashes);
          HashesBeforeEnd(s[1..], hashes, k - 1);
          assert u[k] == s[k];
        }
        assert s[1..][..n - 1] == s[..n][1..] && u[1..][..n - 1] == u[..n][1..];
        RawEndStable(s[1..], u[1..], hashes);
      }
    }
  }

  lemma FirstNonHash(s: string, hashes: nat) returns (k: nat)
    requires s != [] && s[0] == '"' && !SourceComments.ClosesRaw(s, hashes)
    ensures 1 <= k <= hashes && k < |s| && s[k] != '#'
    ensures forall m :: 1 <= m < k ==> s[m] == '#'
  {
    k := 1;
    while s[k] == '#'
      invariant 1 <= k <= hashes && k < |s|
      invariant forall m :: 1 <= m < k ==> s[m] == '#'
      decreases hashes - k
    {
      k := k + 1;
    }
  }

  lemma {:induction false} BodyEndStable(s: string, u: string)
    requires |u| == |s| && var n := StringEnd(s); u[..n] == s[..n]
    ensures BodyEnd(u) == BodyEnd(s)
    decreases |s|
  {
    if s != [] {
      var n := StringEnd(s);
      assert s[0] == s[..n][0] == u[..n][0] == u[0];
      if s[0] == '\\' && |s| > 1 {
        assert s[2..][..n - 2] == s[..n][2..] && u[2..][..n - 2] == u[..n][2..];
        BodyEndStable(s[2..], u[2..]);
      } else if s[0] != '"' {
        assert s[1..][..n - 1] == s[..n][1..] && u[1..][..n - 1] == u[..n][1..];
        BodyEndStable(s[1..], u[1..]);
      }
    }
  }

  lemma {:induction false} QuoteEndStable(s: string, u: string)
    requires |u| == |s| && var n := QuoteEnd(s); u[..n] == s[..n]
    ensures QuoteEnd(u) == QuoteEnd(s)
  {
    if s != [] {
      var n := QuoteEnd(s);
      assert s[0] == s[..n][0] == u[..n][0] == u[0];
      if s[0] != '\'' {
        assert s[1..][..n - 1] == s[..n][1..] && u[1..][..n - 1] == u[..n][1..];
        QuoteEndStable(s[1..], u[1..]);
      }
    }
  }

  lemma {:induction false} HashesAgree(s: string, n: nat)
    requires n <= |s| && At(s, n) != '#' && forall k :: 0 <= k < n ==> s[k] == '#'
    ensures Hashes(s) == n
  {
    if n > 0 {
      HashesAgree(s[1..], n - 1);
    }
  }

  lemma Agree(s: string, u: string, n: nat, from: nat)
    requires |u| == |s| && from <= n <= |s| && u[..n] == s[..n]
    ensures u[from..][..n - from] == s[from..][..n - from]
  {
    assert u[from..][..n - from] == u[..n][from..];
    assert s[from..][..n - from] == s[..n][from..];
  }

  /** A copied token is read the same way when only text after it has been blanked. */
  lemma LexStable(s: string, u: string)
    requires s != [] && !Lex(s).comment && InPlace(s, u) && u[..Lex(s).used] == s[..Lex(s).used]
    ensures Lex(u) == Lex(s)
  {
    var n := Lex(s).used;
    assert forall k :: 0 <= k < n ==> s[..n][k] == s[k] && u[..n][k] == u[k];
    if s[0] == 'r' && OpensRaw(s[1..]) {
      var open := Hashes(s[1..]) + 2;
      assert s[1..][open - 2] == s[open - 1];
      assert forall k :: 0 <= k < open - 2 ==> u[1..][k] == s[1..][k];
      assert u[1..][open - 2] == '"';
      HashesAgree(u[1..], open - 2);
      Agree(s, u, n, open);
      RawEndStable(s[open..], u[open..], open - 2);
    } else if s[0] == '"' {
      Agree(s, u, n, 1);
      BodyEndStable(s[1..], u[1..]);
    } else if s[0] == '\'' && |s| > 2 && s[1] == '\\' {
      Agree(s, u, n, 2);
      QuoteEndStable(s[2..], u[2..]);
    } else if s[0] == 'r' {
      RawStaysShut(s[1..], u[1..]);
    }
  }

  lemma RawStaysShut(s: string, u: string)
    requires InPlace(s, u) && !OpensRaw(s)
    ensures !OpensRaw(u)
  {
    var n := Hashes(u);
    if At(u, n) == '"' {
      assert forall k :: 0 <= k < n ==> s[k] == u[k];
      HashesAgree(s, n);
    }
  }

  lemma {:induction false} BlanksAreCopied(blanks: string, t: string)
    requires forall k :: 0 <= k < |blanks| ==> blanks[k] == ' ' || blanks[k] == '\n'
    ensures SourceComments.Strip(blanks + t) == blanks + SourceComments.Strip(t)
  {
    hide SourceComments.Strip;
    if blanks == [] {
      assert blanks + t == t && blanks + SourceComments.Strip(t) == SourceComments.Strip(t);
    } else {
      var c, more := blanks[0], blanks[1..];
      assert blanks == [c] + more;
      BlanksAreCopied(more, t);
      Concat([c], more, t);
      Concat([c], more, SourceComments.Strip(t));
      PassesByLex([c], false, more + t);
    }
  }

  /** Stripping twice is stripping once. */
  lemma {:induction false} StripTwice(s: string)
    ensures SourceComments.Strip(SourceComments.Strip(s)) == SourceComments.Strip(s)
    decreases |s|
  {
    if s != [] {
      var r := Lex(s);
      var t := SourceComments.Strip(s[r.used..]);
      StripTwice(s[r.used..]);
      if r.comment {
        BlanksAreCopied(Piece(s), t);
      } else {
        var u := Piece(s) + t;
        Positions(s);
        assert u[..r.used] == s[..r.used] && u[r.used..] == t;
        LexStable(s, u);
      }
    }
  }

  /** Reading `s` token by token, no comment is met. */
  predicate CommentFree(s: string)
    decreases |s|
  {
    s == [] || (!Lex(s).comment && CommentFree(s[Lex(s).used..]))
  }

  /** The texts that stripping leaves alone are exactly those without a comment. */
  lemma {:induction false} FixedExactlyWhenCommentFree(s: string)
    ensures SourceComments.Strip(s) == s <==> CommentFree(s)
    decreases |s|
  {
    if s != [] {
      var n := Lex(s).used;
      FixedExactlyWhenCommentFree(s[n..]);
      assert SourceComments.Strip(s) == Piece(s) + SourceComments.Strip(s[n..]);
      assert Lex(s).comment ==> Piece(s)[0] == ' ' && s[0] == '/';
      hide Lex, SourceComments.Strip;
      SplitEquality(s, n, Piece(s), SourceComments.Strip(s[n..]));
    }
  }

  lemma SplitEquality(s: string, n: nat, a: string, b: string)
    requires n <= |s| && |a| == n
    ensures a + b == s <==> a == s[..n] && b == s[n..]
  {
    assert (a + b)[..n] == a && (a + b)[n..] == b;
    assert s == s[..n] + s[n..];
  }

  // ---- Tokenised text ------------------------------------------------------------------

  /** What comment stripping leaves of a token. */
  function Kept(token: Token): string {
    if token.LineComment? || token.BlockComment? then Blank(token.Text()) else token.Text()
  }

  function KeptOf(source: Source): string {
    if source == [] then [] else Kept(source[0]) + KeptOf(source[1..])
  }

  ghost predicate Passes(text: string, left: string, rest: string) {
    SourceComments.Strip(text + rest) == left + SourceComments.Strip(rest)
  }

  lemma PassesByLex(text: string, comment: bool, rest: string)
    requires text != [] && Lex(text + rest) == Span(|text|, comment)
    ensures Passes(text, if comment then Blank(text) else text, rest)
  {
    assert (text + rest)[|text|..] == rest && (text + rest)[..|text|] == text;
  }

  lemma CommentPasses(token: Token, rest: string)
    requires (token.LineComment? || token.BlockComment?) && token.Valid(rest)
    ensures Passes(token.Text(), Kept(token), rest)
  {
    hide LineEnd, BlockEnd, SourceComments.Strip;
    var text := token.Text();
    if token.LineComment? {
      assert (text + rest)[..|text|] == text;
      LineEndsAt(text + rest, |text|);
    } else {
      var tail := token.inside.Text() + ("*/" + rest);
      NestedText(token.inside.Text(), "", rest);
      assert ("/*" + tail)[2..] == tail;
      InsideEnds(token.inside, rest, 0);
      BlockOver(rest, 0);
    }
    PassesByLex(text, true, rest);
  }

  lemma CharReads(c: StringChar, t: string)
    requires c.Valid()
    ensures BodyEnd(c.Text() + t) == |c.Text()| + BodyEnd(t)
  {
    assert (c.Text() + t)[|c.Text()|..] == t;
  }

  /** A body written as plain and escaped characters is read whole, up to its closing quote or
      to the end of the text. */
  lemma {:induction false} BodyReads(chars: seq<StringChar>, rest: string)
    requires forall k :: 0 <= k < |chars| ==> chars[k].Valid()
    requires rest == [] || rest[0] == '"'
    ensures BodyEnd(StringText(chars) + rest) == |StringText(chars)|
  {
    if chars == [] {
      assert StringText(chars) + rest == rest;
    } else {
      hide BodyEnd;
      var more := StringText(chars[1..]);
      BodyReads(chars[1..], rest);
      Concat(chars[0].Text(), more, rest);
      CharReads(chars[0], more + rest);
    }
  }

  lemma StringPasses(chars: seq<StringChar>, rest: string)
    requires Str(chars).Valid(rest)
    ensures Passes(Str(chars).Text(), Kept(Str(chars)), rest)
  {
    hide BodyEnd, SourceComments.Strip;
    var text := Str(chars).Text();
    BodyReads(chars, "\"" + rest);
    assert (text + rest)[1..] == StringText(chars) + ("\"" + rest);
    PassesByLex(text, false, rest);
  }

  /** A raw string closes at a quote with its hashes, or with fewer where the text ends. */
  predicate Closes(s: string, hashes: nat) {
    "\"" + Sharp(hashes) <= s || (s != [] && s <= "\"" + Sharp(hashes))
  }

  lemma ClosingIsQuoteAndHashes(s: string, hashes: nat)
    ensures SourceComments.ClosesRaw(s, hashes) <==> Closes(s, hashes)
  {
    var closing := "\"" + Sharp(hashes);
    if SourceComments.ClosesRaw(s, hashes) {
      assert forall k :: 0 <= k < |s| && k < |closing| ==> closing[k] == s[k];
    }
    if Closes(s, hashes) {
      assert forall k :: 0 <= k < |s| && k < |closing| ==> s[k] == closing[k];
    }
  }

  /** Of any text after an opening quote: the raw string ends with the first closing sequence,
      and with the text when there is none or only part of one at the end. */
  lemma {:induction false} RawEndsAtFirstClosing(s: string, hashes: nat, k: nat)
    requires k <= |s| && forall j :: 0 <= j < k ==> !Closes(s[j..], hashes)
    ensures k < |s| && Closes(s[k..], hashes) ==>
      SourceComments.RawEnd(s, hashes) == if k + 1 + hashes < |s| then k + 1 + hashes else |s|
    ensures k == |s| ==> SourceComments.RawEnd(s, hashes) == |s|
  {
    hide Closes;
    assert s[0..] == s;
    if s != [] {
      ClosingIsQuoteAndHashes(s, hashes);
      if k > 0 {
        assert forall j :: 0 <= j < k ==> s[1..][j..] == s[j + 1..];
        RawEndsAtFirstClosing(s[1..], hashes, k - 1);
      }
    }
  }

  lemma RawReads(body: string, hashes: nat, rest: string)
    requires RawStr(hashes, body).Valid(rest)
    ensures SourceComments.RawEnd(body + ("\"" + (Sharp(hashes) + rest)), hashes) == |body| + 1 + hashes
  {
    var closing := "\"" + Sharp(hashes);
    var s := body + ("\"" + (Sharp(hashes) + rest));
    assert s[|body|..] == closing + rest;
    forall j | 0 <= j < |body|
      ensures !Closes(s[j..], hashes)
    {
      RawStaysOpen(body[j..], closing, rest);
      assert s[j..] == body[j..] + (closing + rest);
    }
    RawEndsAtFirstClosing(s, hashes, |body|);
  }

  lemma RawPasses(hashes: nat, body: string, rest: string)
    requires RawStr(hashes, body).Valid(rest)
    ensures Passes(RawStr(hashes, body).Text(), Kept(RawStr(hashes, body)), rest)
  {
    hide SourceComments.RawEnd, Hashes, OpensRaw, SourceComments.Strip;
    var text := RawStr(hashes, body).Text();
    var tail := body + ("\"" + (Sharp(hashes) + rest));
    RawText(hashes, body, rest);
    RawOpensWith(hashes, "\"" + tail);
    assert ("r" + (Sharp(hashes) + ("\"" + tail)))[1..] == Sharp(hashes) + ("\"" + tail);
    assert (text + rest)[hashes + 2..] == tail;
    RawReads(body, hashes, rest);
    PassesByLex(text, false, rest);
  }

  lemma {:induction false} QuoteReads(escape: string, rest: string)
    requires '\'' !in escape
    ensures QuoteEnd(escape + ("'" + rest)) == |escape| + 1
  {
    if escape == [] {
      assert escape + ("'" + rest) == "'" + rest;
    } else {
      QuoteReads(escape[1..], rest);
      assert (escape + ("'" + rest))[1..] == escape[1..] + ("'" + rest);
    }
  }

  lemma EscapedPasses(escape: string, rest: string)
    requires escape != [] && '\'' !in escape
    ensures Passes(EscapedLit(escape).Text(), EscapedLit(escape).Text(), rest)
  {
    hide QuoteEnd, SourceComments.Strip;
    var text := EscapedLit(escape).Text();
    QuoteReads(escape, rest);
    assert (text + rest)[2..] == escape + ("'" + rest);
    PassesByLex(text, false, rest);
  }

  lemma QuotePasses(rest: string)
    requires !OpensLiteral("'" + rest)
    ensures Passes("'\\''", "'\\''", rest)
  {
    hide SourceComments.Strip;
    PassesByLex("'", false, rest);
    QuoteLiteralSplits(rest);
    assert "'\\'" + ("'" + SourceComments.Strip(rest)) == "'\\''" + SourceComments.Strip(rest);
  }

  lemma LiteralPasses(token: Token, rest: string)
    requires (token.CharLit? || token.EscapedLit?) && token.Valid(rest) && Settled(token, rest)
    ensures Passes(token.Text(), Kept(token), rest)
  {
    hide Passes;
    if token == EscapedLit("'") {
      QuotePasses(rest);
      assert token.Text() == "'\\''";
    } else if token.EscapedLit? {
      EscapedPasses(token.escape, rest);
    } else {
      PassesByLex(token.Text(), false, rest);
    }
  }

  /** A quote at the head of `s` opens what is read as a character literal. */
  predicate OpensLiteral(s: string) {
    |s| > 2 && s[0] == '\'' && (s[1] == '\\' || s[2] == '\'')
  }

  /** If the token is `'\''`, its last quote opens no literal with the text after it. */
  predicate Settled(token: Token, rest: string) {
    token == EscapedLit("'") ==> !OpensLiteral("'" + rest)
  }

  /** `'\''` is copied up to its escaped quote; the last quote is read with the text after it. */
  lemma QuoteLiteralSplits(rest: string)
    ensures SourceComments.Strip("'\\''" + rest) == "'\\'" + SourceComments.Strip("'" + rest)
  {
    var t := "'" + rest;
    assert "'\\''" + rest == "'\\'" + t;
    assert ("'\\'" + t)[2..] == "'" + t;
    QuoteReads("", t);
    assert "" + ("'" + t) == "'" + t;
    PassesByLex("'\\'", false, t);
  }

  lemma CodePasses(c: char, rest: string)
    requires Code(c).Valid(rest)
    ensures Passes([c], [c], rest)
  {
    assert ([c] + rest)[1..] == rest;
    RawOpenerIsOpening(rest);
    PassesByLex([c], false, rest);
  }

  lemma PassesTogether(a: string, b: string, rest: string)
    requires Passes(a, a, b + rest) && Passes(b, b, rest)
    ensures Passes(a + b, a + b, rest)
  {
    hide SourceComments.Strip;
    Concat(a, b, rest);
    Concat(a, b, SourceComments.Strip(rest));
  }

  lemma {:induction false} NamePasses(name: string, rest: string)
    requires forall k :: 0 <= k < |name| ==> IsNameChar(name[k])
    requires name != [] && name[|name| - 1] == 'r' ==> !RawOpener(rest)
    ensures Passes(name, name, rest)
  {
    hide SourceComments.Strip;
    if name == [] {
      assert name + rest == rest && name + SourceComments.Strip(rest) == SourceComments.Strip(rest);
    } else {
      var t := name[1..] + rest;
      NamePasses(name[1..], rest);
      NameOpensNothing(name, rest);
      CodePasses(name[0], t);
      PassesTogether([name[0]], name[1..], rest);
      assert [name[0]] + name[1..] == name;
    }
  }

  lemma LifetimePasses(name: string, rest: string)
    requires Lifetime(name).Valid(rest)
    ensures Passes(Lifetime(name).Text(), Lifetime(name).Text(), rest)
  {
    hide SourceComments.Strip;
    var s := "'" + (name + rest);
    assert At(s, 1) == name[0];
    assert |name| > 1 ==> At(s, 2) == name[1];
    assert |name| == 1 ==> At(s, 2) == At(rest, 0);
    PassesByLex("'", false, name + rest);
    NamePasses(name, rest);
    PassesTogether("'", name, rest);
  }

  lemma TokenPasses(token: Token, rest: string)
    requires token.Valid(rest) && Settled(token, rest)
    ensures Passes(token.Text(), Kept(token), rest)
  {
    hide Passes;
    match token
    case Code(c) => CodePasses(c, rest);
    case Lifetime(name) => LifetimePasses(name, rest);
    case LineComment(_) => CommentPasses(token, rest);
    case BlockComment(_) => CommentPasses(token, rest);
    case Str(chars) => StringPasses(chars, rest);
    case RawStr(hashes, body) => RawPasses(hashes, body, rest);
    case CharLit(_) => LiteralPasses(token, rest);
    case EscapedLit(_) => LiteralPasses(token, rest);
  }

  predicate AllSettled(source: Source) {
    source == [] || (Settled(source[0], RustTokens.Text(source[1..])) && AllSettled(source[1..]))
  }

  /** Exactly the comments are blanked: a comment opener inside a literal opens nothing, and a
      quote inside a comment closes nothing. The last quote of a `'\''` must open no literal. */
  lemma {:induction false} StripBlanksComments(source: Source)
    requires RustTokens.Valid(source)
    ensures AllSettled(source) ==> SourceComments.Strip(RustTokens.Text(source)) == KeptOf(source)
  {
    if source != [] && AllSettled(source) {
      TokenPasses(source[0], RustTokens.Text(source[1..]));
      StripBlanksComments(source[1..]);
    }
  }

  /** When it does open one, a comment can be taken for a string: this text is left alone. */
  lemma QuoteLiteralHidesComment(s: string)
    requires s == "'\\'' '\"' // \""
    ensures SourceComments.Strip(s) == s
  {
    hide *;
    var t := "\"' // \"";
    QuoteLiteralSplits(" '" + t);
    assert "'" + (" '" + t) == "' '" + t;
    SpaceLiteralIsKept(t);
    UncoveredString(t);
    assert "'\\''" + (" '" + t) == s == "'\\'" + ("' '" + t);
  }

  lemma SpaceLiteralIsKept(t: string)
    ensures SourceComments.Strip("' '" + t) == "' '" + SourceComments.Strip(t)
  {
    hide SourceComments.Strip;
    LiteralPasses(CharLit(' '), t);
    assert CharLit(' ').Text() == "' '";
  }

  lemma StringAloneIsKept(chars: seq<StringChar>)
    requires forall k :: 0 <= k < |chars| ==> chars[k].Valid()
    ensures SourceComments.Strip("\"" + (StringText(chars) + "\"")) == "\"" + (StringText(chars) + "\"")
  {
    assert SourceComments.Strip("") == "";
    hide SourceComments.Strip, StringText;
    StringPasses(chars, "");
    var text := Str(chars).Text();
    assert text + "" == text;
  }

  lemma UncoveredString(t: string)
    requires t == "\"' // \""
    ensures SourceComments.Strip(t) == t
  {
    hide SourceComments.Strip, StringText;
    var body := [Plain('\''), Plain(' '), Plain('/'), Plain('/'), Plain(' ')];
    AccidentText(body);
    StringAloneIsKept(body);
    assert "\"" + ("' // " + "\"") == t;
  }
}
