/** Rust source as a sequence of tokens, and what `strip_rust_noise` (xtask/src/gates.rs)
    leaves of it: code and lifetimes as written, every other token blanked where it stood. */
module RustTokens {
  import opened Blanking
  import opened Options
  import opened RustNoise

  /** The inside of a block comment; comments nest. */
  datatype Inside = Done | Char(c: char, more: Inside) | Nested(inner: Inside, more: Inside) {
    function Text(): string {
      match this
      case Done => ""
      case Char(c, more) => [c] + more.Text()
      case Nested(inner, more) => "/*" + (inner.Text() + ("*/" + more.Text()))
    }

    /** No delimiter is spelled by accident, not even with the closing one that follows. */
    predicate Valid() {
      match this
      case Done => true
      case Char(c, more) =>
        && !(c == '/' && At(more.Text() + "*/", 0) == '*')
        && !(c == '*' && At(more.Text() + "*/", 0) == '/')
        && more.Valid()
      case Nested(inner, more) => inner.Valid() && more.Valid()
    }
  }

  datatype StringChar = Plain(c: char) | Escaped(c: char) {
    predicate Valid() {
      Plain? ==> c != '"' && c != '\\'
    }

    function Text(): string {
      if Plain? then [c] else ['\\', c]
    }
  }

  datatype Token =
    | Code(c: char)
    | Lifetime(name: string)
    | LineComment(body: string)
    | BlockComment(inside: Inside)
    | Str(chars: seq<StringChar>)
    | RawStr(hashes: nat, body: string)
    | CharLit(c: char)
    | EscapedLit(escape: string)
  {
    function Text(): string {
      match this
      case Code(c) => [c]
      case Lifetime(name) => "'" + name
      case LineComment(body) => "//" + body
      case BlockComment(inside) => "/*" + (inside.Text() + "*/")
      case Str(chars) => "\"" + (StringText(chars) + "\"")
      case RawStr(hashes, body) => "r" + (Sharp(hashes) + ("\"" + (body + ("\"" + Sharp(hashes)))))
      case CharLit(c) => ['\'', c, '\'']
      case EscapedLit(escape) => "'\\" + (escape + "'")
    }

    /** What stripping leaves. */
    function Left(): string {
      match this
      case Code(_) => Text()
      case Lifetime(_) => Text()
      case CharLit(_) => Spaces(3)
      case EscapedLit(escape) => Spaces(|escape| + 3)
      case _ => Blank(Text())
    }

    /** The token is well formed, and stands where Rust's own lexer would read it as written:
        `rest` is the text after it. */
    predicate Valid(rest: string) {
      match this
      case Code(c) =>
        && c != '"' && c != '\''
        && !(c == '/' && At(rest, 0) in {'/', '*'})
        && !(c == 'r' && RawOpener(rest))
      case Lifetime(name) =>
        && name != [] && (forall k :: 0 <= k < |name| ==> IsNameChar(name[k]))
        && (|name| == 1 ==> At(rest, 0) != '\'')
        && (name[|name| - 1] == 'r' ==> !RawOpener(rest))
      case LineComment(body) => '\n' !in body && (rest == [] || rest[0] == '\n')
      case BlockComment(inside) => inside.Valid()
      case Str(chars) => forall k :: 0 <= k < |chars| ==> chars[k].Valid()
      case RawStr(hashes, body) =>
        forall k :: 0 <= k < |body| ==> !("\"" + Sharp(hashes) <= body[k..])
      case CharLit(c) => c != '\\'
      case EscapedLit(escape) => escape != [] && ('\'' !in escape || escape == "'")
    }

    /** The escape of a character literal is at most as long as that of `\u{7F}`, and is not
        that of a quote. */
    predicate Recognised() {
      EscapedLit? ==> |escape| <= 5 && escape != "'"
    }
  }

  predicate IsNameChar(c: char) {
    'a' <= c <= 'z' || 'A' <= c <= 'Z' || '0' <= c <= '9' || c == '_' || '\U{0080}' <= c
  }

  function Sharp(n: nat): (r: string)
    ensures |r| == n && forall k :: 0 <= k < n ==> r[k] == '#'
  {
    seq(n, _ => '#')
  }

  /** `s` begins with hashes, or none, and a quote. */
  predicate RawOpener(s: string) {
    exists n: nat :: n < |s| && Sharp(n) + "\"" <= s
  }

  function StringText(chars: seq<StringChar>): string {
    if chars == [] then [] else chars[0].Text() + StringText(chars[1..])
  }

  type Source = seq<Token>

  function Text(source: Source): string {
    if source == [] then [] else source[0].Text() + Text(source[1..])
  }

  function Left(source: Source): string {
    if source == [] then [] else source[0].Left() + Left(source[1..])
  }

  predicate Valid(source: Source) {
    source == [] || (source[0].Valid(Text(source[1..])) && Valid(source[1..]))
  }

  // ---- Raw strings, by their delimiters ------------------------------------------------

  lemma HashesThenQuote(s: string, n: nat)
    requires n < |s| && Sharp(n) + "\"" <= s
    ensures Hashes(s) == n && s[n] == '"'
  {
    var opener := Sharp(n) + "\"";
    assert forall k :: 0 <= k <= n ==> s[k] == opener[k];
    assert opener[n] == '"';
    assert forall k :: 0 <= k < n ==> opener[k] == '#';
  }

  /** The lexer's test for an opening is one for hashes and a quote. */
  lemma RawOpenerIsOpening(s: string)
    ensures RawOpener(s) <==> OpensRaw(s)
  {
    var h := Hashes(s);
    if OpensRaw(s) {
      assert Sharp(h) + "\"" == s[..h + 1];
    }
    if n: nat :| n < |s| && Sharp(n) + "\"" <= s {
      HashesThenQuote(s, n);
    }
  }

  /** Its test for a closing is one for a quote and as many hashes. */
  lemma ClosingIsQuoteAndHashes(s: string, hashes: nat)
    ensures ClosesRaw(s, hashes) <==> "\"" + Sharp(hashes) <= s
  {
    var closing := "\"" + Sharp(hashes);
    if ClosesRaw(s, hashes) {
      assert At(s, hashes) != '\0';
      assert forall k :: 0 <= k <= hashes ==> closing[k] == At(s, k);
    }
    if closing <= s {
      assert forall k :: 0 <= k <= hashes ==> s[k] == closing[k];
    }
  }

  /** Of any text after an opening quote: the raw string ends with the first closing sequence,
      or with the text when there is none. */
  lemma {:induction false} RawEndsAtFirstClosing(s: string, hashes: nat, k: nat)
    requires k <= |s| && forall j :: 0 <= j < k ==> !("\"" + Sharp(hashes) <= s[j..])
    ensures k < |s| && "\"" + Sharp(hashes) <= s[k..] ==> RawEnd(s, hashes) == k + 1 + hashes
    ensures k == |s| ==> RawEnd(s, hashes) == |s|
  {
    assert s[0..] == s;
    if s != [] {
      ClosingIsQuoteAndHashes(s, hashes);
      if k > 0 {
        assert forall j :: 0 <= j < k ==> s[1..][j..] == s[j + 1..];
        RawEndsAtFirstClosing(s[1..], hashes, k - 1);
      }
    }
  }

  // ---- One token -----------------------------------------------------------------------

  /** Stripping `text + rest` turns `text` into `left` and goes on with `rest`. */
  ghost predicate Passes(text: string, left: string, rest: string) {
    Strip(text + rest) == left + Strip(rest)
  }

  lemma PassesByLex(text: string, left: string, rest: string)
    requires text != [] && Lex(text + rest) == Step(|text|, left)
    ensures Passes(text, left, rest)
  {
    assert (text + rest)[|text|..] == rest;
  }

  lemma BlockSteps(t: string, depth: nat)
    requires depth > 0
    ensures BlockEnd("/*" + t, depth) == 2 + BlockEnd(t, depth + 1)
    ensures BlockEnd("*/" + t, depth) == 2 + BlockEnd(t, depth - 1)
  {
    assert ("/*" + t)[2..] == t && ("*/" + t)[2..] == t;
  }

  lemma BlockPassesOver(c: char, t: string, depth: nat)
    requires depth > 0 && !(c == '/' && At(t, 0) == '*') && !(c == '*' && At(t, 0) == '/')
    ensures BlockEnd([c] + t, depth) == 1 + BlockEnd(t, depth)
  {
    assert ([c] + t)[1..] == t;
    assert At([c] + t, 1) == At(t, 0);
  }

  lemma {:induction false} InsideEnds(inside: Inside, rest: string, depth: nat)
    requires inside.Valid()
    ensures BlockEnd(inside.Text() + ("*/" + rest), depth + 1) == |inside.Text()| + 2 + BlockEnd(rest, depth)
  {
    hide BlockEnd;
    var t := "*/" + rest;
    match inside
    case Done =>
      assert "" + t == t;
      BlockSteps(rest, depth + 1);
    case Char(c, more) =>
      InsideEnds(more, rest, depth);
      Concat([c], more.Text(), t);
      assert At(more.Text() + t, 0) == At(more.Text() + "*/", 0);
      BlockPassesOver(c, more.Text() + t, depth + 1);
    case Nested(inner, more) =>
      var u := more.Text() + t;
      InsideEnds(inner, u, depth + 1);
      InsideEnds(more, rest, depth);
      NestedText(inner.Text(), more.Text(), t);
      BlockSteps(inner.Text() + ("*/" + u), depth + 1);
  }

  lemma NestedText(inner: string, more: string, t: string)
    ensures "/*" + (inner + ("*/" + more)) + t == "/*" + (inner + ("*/" + (more + t)))
    ensures "/*" + (inner + "*/") + t == "/*" + (inner + ("*/" + t))
  {
  }

  lemma BlockPasses(inside: Inside, rest: string)
    requires inside.Valid()
    ensures Passes(BlockComment(inside).Text(), BlockComment(inside).Left(), rest)
  {
    hide BlockEnd, Strip;
    var text, tail := BlockComment(inside).Text(), inside.Text() + ("*/" + rest);
    NestedText(inside.Text(), "", rest);
    assert ("/*" + tail)[2..] == tail;
    InsideEnds(inside, rest, 0);
    BlockOver(rest, 0);
    assert (text + rest)[..|text|] == text;
    PassesByLex(text, Blank(text), rest);
  }

  lemma {:induction false} LineEndsAt(s: string, n: nat)
    requires n <= |s| && '\n' !in s[..n] && (n < |s| ==> s[n] == '\n')
    ensures LineEnd(s) == n
  {
    if n > 0 {
      assert s[0] == s[..n][0];
      assert s[1..][..n - 1] == s[..n][1..];
      LineEndsAt(s[1..], n - 1);
    }
  }

  lemma LinePasses(body: string, rest: string)
    requires LineComment(body).Valid(rest)
    ensures Passes(LineComment(body).Text(), LineComment(body).Left(), rest)
  {
    hide LineEnd, Strip;
    var text := LineComment(body).Text();
    assert (text + rest)[..|text|] == text;
    LineEndsAt(text + rest, |text|);
    BlankSpaces(text);
    PassesByLex(text, Blank(text), rest);
  }

  lemma StringCharReads(c: StringChar, t: string)
    requires c.Valid()
    ensures var r := StringBody(t);
      StringBody(c.Text() + t) == Step(|c.Text()| + r.used, Blank(c.Text()) + r.out)
  {
    assert (c.Text() + t)[|c.Text()|..] == t;
    assert Blank(c.Text()) == if c.Plain? then [BlankChar(c.c)] else [' ', BlankChar(c.c)];
  }

  lemma {:induction false} StringReads(chars: seq<StringChar>, rest: string)
    requires Str(chars).Valid(rest)
    ensures var body := StringText(chars);
      StringBody(body + ("\"" + rest)) == Step(|body| + 1, Blank(body) + " ")
  {
    var t := "\"" + rest;
    if chars == [] {
      assert StringText(chars) + t == t;
      assert Blank("") + " " == " ";
    } else {
      hide StringBody, Blank, StringChar.Text;
      var c, more := chars[0].Text(), StringText(chars[1..]);
      StringReads(chars[1..], rest);
      StringCharReads(chars[0], more + t);
      Concat(c, more, t);
      BlankAppend(c, more);
      Concat(Blank(c), Blank(more), " ");
    }
  }

  lemma StringPasses(chars: seq<StringChar>, rest: string)
    requires Str(chars).Valid(rest)
    ensures Passes(Str(chars).Text(), Str(chars).Left(), rest)
  {
    hide StringBody, StringText, Strip;
    var text, body := Str(chars).Text(), StringText(chars);
    StringReads(chars, rest);
    assert (text + rest)[1..] == body + ("\"" + rest);
    assert Blank(text) == " " + (Blank(body) + " ");
    PassesByLex(text, Blank(text), rest);
  }

  lemma RawReads(body: string, hashes: nat, rest: string)
    requires RawStr(hashes, body).Valid(rest)
    ensures RawEnd(body + ("\"" + (Sharp(hashes) + rest)), hashes) == |body| + 1 + hashes
  {
    var closing := "\"" + Sharp(hashes);
    var s := body + ("\"" + (Sharp(hashes) + rest));
    assert s[|body|..] == closing + rest;
    forall j | 0 <= j < |body|
      ensures !(closing <= s[j..])
    {
      RawStaysOpen(body[j..], closing, rest);
      assert s[j..] == body[j..] + (closing + rest);
    }
    RawEndsAtFirstClosing(s, hashes, |body|);
  }

  /** A closing sequence cannot begin inside the body and end in the real one: the real one
      starts with a quote, and after its first character a closing sequence has only hashes. */
  lemma RawStaysOpen(body: string, closing: string, rest: string)
    requires body != [] && closing != [] && closing[0] == '"' && !(closing <= body)
    requires forall k :: 1 <= k < |closing| ==> closing[k] == '#'
    ensures !(closing <= body + (closing + rest))
  {
    var s := body + (closing + rest);
    if |body| < |closing| {
      assert s[|body|] == '"' && closing[|body|] == '#';
    } else {
      assert s[..|closing|] == body[..|closing|];
    }
  }

  lemma {:induction false} RawOpensWith(hashes: nat, t: string)
    requires At(t, 0) == '"'
    ensures Hashes(Sharp(hashes) + t) == hashes && OpensRaw(Sharp(hashes) + t)
  {
    if hashes == 0 {
      assert Sharp(0) + t == t;
    } else {
      RawOpensWith(hashes - 1, t);
      assert (Sharp(hashes) + t)[1..] == Sharp(hashes - 1) + t;
    }
    assert At(Sharp(hashes) + t, hashes) == At(t, 0);
  }

  lemma RawPasses(hashes: nat, body: string, rest: string)
    requires RawStr(hashes, body).Valid(rest)
    ensures Passes(RawStr(hashes, body).Text(), RawStr(hashes, body).Left(), rest)
  {
    var text := RawStr(hashes, body).Text();
    var tail := body + ("\"" + (Sharp(hashes) + rest));
    RawText(hashes, body, rest);
    RawOpensWith(hashes, "\"" + tail);
    assert ("r" + (Sharp(hashes) + ("\"" + tail)))[1..] == Sharp(hashes) + ("\"" + tail);
    assert (text + rest)[hashes + 2..] == tail;
    RawReads(body, hashes, rest);
    assert (text + rest)[..|text|] == text;
    PassesByLex(text, Blank(text), rest);
  }

  lemma RawText(hashes: nat, body: string, rest: string)
    ensures RawStr(hashes, body).Text() + rest ==
      "r" + (Sharp(hashes) + ("\"" + (body + ("\"" + (Sharp(hashes) + rest)))))
  {
  }

  lemma CodePasses(c: char, rest: string)
    requires Code(c).Valid(rest)
    ensures Passes([c], [c], rest)
  {
    assert ([c] + rest)[1..] == rest;
    RawOpenerIsOpening(rest);
    PassesByLex([c], [c], rest);
  }

  lemma PassesTogether(a: string, a': string, b: string, b': string, rest: string)
    requires Passes(a, a', b + rest) && Passes(b, b', rest)
    ensures Passes(a + b, a' + b', rest)
  {
    hide Strip;
    Concat(a, b, rest);
    Concat(a', b', Strip(rest));
  }

  lemma NameOpensNothing(name: string, rest: string)
    requires name != [] && forall k :: 0 <= k < |name| ==> IsNameChar(name[k])
    requires name[|name| - 1] == 'r' ==> !RawOpener(rest)
    ensures Code(name[0]).Valid(name[1..] + rest)
  {
    var t := name[1..] + rest;
    if |name| > 1 {
      assert At(t, 0) == name[1];
      RawOpenerIsOpening(t);
    } else {
      assert t == rest;
    }
  }

  lemma {:induction false} NamePasses(name: string, rest: string)
    requires forall k :: 0 <= k < |name| ==> IsNameChar(name[k])
    requires name != [] && name[|name| - 1] == 'r' ==> !RawOpener(rest)
    ensures Passes(name, name, rest)
  {
    hide Strip;
    if name == [] {
      assert name + rest == rest && name + Strip(rest) == Strip(rest);
    } else {
      var t := name[1..] + rest;
      NamePasses(name[1..], rest);
      NameOpensNothing(name, rest);
      CodePasses(name[0], t);
      PassesTogether([name[0]], [name[0]], name[1..], name[1..], rest);
      assert [name[0]] + name[1..] == name;
    }
  }

  lemma LifetimePasses(name: string, rest: string)
    requires Lifetime(name).Valid(rest)
    ensures Passes(Lifetime(name).Text(), Lifetime(name).Left(), rest)
  {
    hide Strip;
    var s := "'" + (name + rest);
    assert At(s, 1) == name[0];
    assert |name| > 1 ==> At(s, 2) == name[1];
    assert |name| == 1 ==> At(s, 2) == At(rest, 0);
    PassesByLex("'", "'", name + rest);
    NamePasses(name, rest);
    PassesTogether("'", "'", name, name, rest);
  }

  /** The literal is blanked whole exactly when its escape is at most five characters long
      and holds no quote: the search for the closing quote looks at positions 2 to 7. */
  lemma EscapedLiteralRead(escape: string, rest: string)
    requires escape != []
    ensures LiteralClose(EscapedLit(escape).Text() + rest) == Some(|escape| + 2) <==>
      |escape| <= 5 && '\'' !in escape
  {
    var s := EscapedLit(escape).Text() + rest;
    assert s[0] == '\'' && s[1] == '\\' && s[|escape| + 2] == '\'';
    assert forall k :: 0 <= k < |escape| ==> At(s, k + 2) == escape[k];
    var close := EscapeClose(s, 2);
    if '\'' in escape {
      var k :| 0 <= k < |escape| && escape[k] == '\'';
      assert At(s, k + 2) == '\'';
    } else {
      assert forall m :: 2 <= m < |escape| + 2 ==> At(s, m) == escape[m - 2];
    }
  }

  lemma LiteralPasses(token: Token, rest: string)
    requires (token.CharLit? || token.EscapedLit?) && token.Valid(rest) && token.Recognised()
    ensures Passes(token.Text(), token.Left(), rest)
  {
    if token.EscapedLit? {
      EscapedLiteralRead(token.escape, rest);
    } else {
      assert LiteralClose(token.Text() + rest) == Some(2);
    }
    PassesByLex(token.Text(), token.Left(), rest);
  }

  lemma TokenPasses(token: Token, rest: string)
    requires token.Valid(rest) && token.Recognised()
    ensures Passes(token.Text(), token.Left(), rest)
  {
    hide Passes;
    match token
    case Code(c) => CodePasses(c, rest);
    case Lifetime(name) => LifetimePasses(name, rest);
    case LineComment(body) => LinePasses(body, rest);
    case BlockComment(inside) => BlockPasses(inside, rest);
    case Str(chars) => StringPasses(chars, rest);
    case RawStr(hashes, body) => RawPasses(hashes, body, rest);
    case CharLit(_) => LiteralPasses(token, rest);
    case EscapedLit(_) => LiteralPasses(token, rest);
  }

  // ---- Every source --------------------------------------------------------------------

  /** A longer escape, as in `'\u{FFFD}'`, is not recognised: the opening quote is left as code. */
  lemma LongEscapeIsLeft(escape: string, rest: string)
    requires |escape| > 5 && '\'' !in escape
    ensures var s := EscapedLit(escape).Text() + rest;
      LiteralClose(s).None? && Strip(s) == "'" + Strip(s[1..])
  {
    var s := EscapedLit(escape).Text() + rest;
    assert forall k :: 0 <= k < |escape| ==> At(s, k + 2) == escape[k];
    assert forall m :: 2 <= m < 8 ==> At(s, m) == escape[m - 2];
  }

  /** `'\''` closes at its escaped quote; its last quote is read with the text after it. */
  lemma QuoteLiteralClosesEarly(rest: string)
    ensures Strip("'\\''" + rest) == "   " + Strip("'" + rest)
  {
    var s := "'\\''" + rest;
    assert At(s, 2) == '\'';
    assert LiteralClose(s) == Some(2);
    assert s[3..] == "'" + rest;
  }

  /** With `rest` after it, a quote is taken for the start of a literal: a quote stands two
      places on, or two to seven places on after a backslash. */
  predicate StartsLiteral(rest: string) {
    if 0 < |rest| && rest[0] == '\\' then exists k :: 1 <= k < 7 && k < |rest| && rest[k] == '\''
    else 1 < |rest| && rest[1] == '\''
  }

  lemma StartsLiteralIsClosed(rest: string)
    ensures StartsLiteral(rest) <==> LiteralClose("'" + rest).Some?
  {
    var s := "'" + rest;
    assert forall k :: 0 <= k < |rest| ==> At(s, k + 1) == rest[k];
    if StartsLiteral(rest) && At(s, 1) == '\\' {
      var k :| 1 <= k < 7 && k < |rest| && rest[k] == '\'';
      assert At(s, k + 1) == '\'';
    }
    if At(s, 1) == '\\' && EscapeClose(s, 2).Some? {
      assert rest[EscapeClose(s, 2).value - 1] == '\'';
    }
  }

  /** Where that quote opens no literal, it is left as code. */
  lemma LeftoverQuoteIsCode(rest: string)
    requires !StartsLiteral(rest)
    ensures Strip("'" + rest) == "'" + Strip(rest)
  {
    StartsLiteralIsClosed(rest);
    assert ("'" + rest)[1..] == rest;
  }

  lemma StripNothing()
    ensures Strip([]) == []
  {
  }

  /** So a quote literal alone is not blanked whole. */
  lemma QuoteLiteralIsLeft(s: string)
    requires s == "'\\''"
    ensures Strip(s) == "   '"
  {
    hide Strip;
    QuoteLiteralClosesEarly("");
    assert "'\\''" + "" == "'\\''" && "'" + "" == "'";
    LeftoverQuoteIsCode("");
    StripNothing();
  }

  /** The last quote of each quote literal opens no literal with the text after it. */
  predicate QuotesSettled(source: Source) {
    source == [] || ((source[0] == EscapedLit("'") ==> !StartsLiteral(Text(source[1..])))
                     && QuotesSettled(source[1..]))
  }

  predicate AllRecognised(source: Source) {
    forall k :: 0 <= k < |source| ==> source[k].Recognised()
  }

  /** When every escape is recognised, exactly the code and the lifetimes are kept and every
      other token is blanked in place. When some is not, something else comes out, unless the
      last quote of a quote literal opens a literal of its own. */
  lemma {:induction false} StripBlanksNoise(source: Source)
    requires Valid(source)
    ensures AllRecognised(source) ==> Strip(Text(source)) == Left(source)
    ensures QuotesSettled(source) ==> (Strip(Text(source)) == Left(source) <==> AllRecognised(source))
    ensures |Left(source)| == |Text(source)|
  {
    hide Strip, Lex, LiteralClose, Token.Valid;
    if source != [] {
      var token, rest := source[0], Text(source[1..]);
      StripBlanksNoise(source[1..]);
      assert forall k :: 1 <= k < |source| ==> source[k] == source[1..][k - 1];
      if token.Recognised() {
        TokenPasses(token, rest);
        SameAfter(token.Left(), Strip(rest), Left(source[1..]));
      } else if token == EscapedLit("'") ==> !StartsLiteral(rest) {
        UnrecognisedShows(token, rest, Left(source[1..]));
      }
      assert |token.Left()| == |token.Text()|;
    } else {
      StripNothing();
    }
  }

  lemma UnrecognisedShows(token: Token, rest: string, more: string)
    requires token.Valid(rest) && !token.Recognised()
    requires token == EscapedLit("'") ==> !StartsLiteral(rest)
    ensures Strip(token.Text() + rest) != token.Left() + more
  {
    if token == EscapedLit("'") {
      hide Strip, LiteralClose;
      assert token.Text() == "'\\''";
      QuoteLiteralClosesEarly(rest);
      LeftoverQuoteIsCode(rest);
      assert (token.Left() + more)[3] == ' ';
      assert ("   " + ("'" + Strip(rest)))[3] == '\'';
    } else {
      LongEscapeIsLeft(token.escape, rest);
      assert (token.Left() + more)[0] == ' ';
    }
  }

  lemma SameAfter(a: string, b: string, c: string)
    ensures a + b == a + c <==> b == c
  {
    if a + b == a + c {
      assert b == (a + b)[|a|..] == (a + c)[|a|..] == c;
    }
  }

  /** The exception is real: here the leftover quote uncovers a string that ends in the comment,
      and what comes out is what the literals and the comment should leave. */
  lemma RightByAccident(s: string)
    requires s == "'\\'' '\"' // \"\n"
    ensures Strip(s) == Spaces(13) + "\n"
  {
    hide Strip, Spaces, Blank;
    var t := "\"' // \"" + "\n";
    QuoteLiteralClosesEarly(" '" + t);
    assert "'" + (" '" + t) == "' '" + t;
    SpaceLiteral(t);
    UncoveredString("\"' // \"");
    assert "'\\''" + (" '" + t) == s;
    AllSpaces();
  }

  lemma SpaceLiteral(t: string)
    ensures Strip("' '" + t) == Spaces(3) + Strip(t)
  {
    LiteralPasses(CharLit(' '), t);
  }

  lemma UncoveredString(t: string)
    requires t == "\"' // \""
    ensures Strip(t + "\n") == Blank(t) + "\n"
  {
    hide Strip, StringText;
    var body := [Plain('\''), Plain(' '), Plain('/'), Plain('/'), Plain(' ')];
    AccidentText(body);
    StringPasses(body, "\n");
    assert Str(body).Text() == t;
    CodePasses('\n', "");
    StripNothing();
    assert "\n" + "" == "\n";
  }

  lemma AllSpaces()
    ensures "   " + (Spaces(3) + (Blank("\"' // \"") + "\n")) == Spaces(13) + "\n"
  {
  }

  lemma AccidentText(body: seq<StringChar>)
    requires body == [Plain('\''), Plain(' '), Plain('/'), Plain('/'), Plain(' ')]
    ensures StringText(body) == "' // "
  {
    assert body[1..] == [Plain(' '), Plain('/'), Plain('/'), Plain(' ')];
    assert body[1..][1..] == [Plain('/'), Plain('/'), Plain(' ')];
    assert body[1..][1..][1..] == [Plain('/'), Plain(' ')];
    assert body[1..][1..][1..][1..] == [Plain(' ')];
    assert StringText([Plain(' ')]) == " ";
    assert StringText([Plain('/'), Plain(' ')]) == "/ ";
    assert StringText([Plain('/'), Plain('/'), Plain(' ')]) == "// ";
    assert StringText([Plain(' '), Plain('/'), Plain('/'), Plain(' ')]) == " // ";
  }
}
