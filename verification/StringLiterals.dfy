/** `string_literals` of xtask/src/fixtures.rs: every string literal with its line. */
module StringLiterals {
  import opened Blanking
  import opened Lines
  import opened SourceComments
  import opened SourceCommentsLaws
  import RustTokens

  /** A literal by the offset of its opening quote. */
  datatype Literal = Literal(at: nat, body: string)

  function From(text: string, i: nat): seq<Literal>
    decreases |text| - i
  {
    if i >= |text| then []
    else if text[i] != '"' then From(text, i + 1)
    else
      var n := BodyEnd(text[i + 1..]);
      [Literal(i, text[i + 1..i + 1 + n])] + From(text, i + n + 2)
  }

  /** Literals at or after `i`, in order and apart, each the text between its opening quote and
      the quote that closes it, or the end. */
  ghost predicate InOrder(text: string, i: nat, found: seq<Literal>) {
    && (forall k :: 0 <= k < |found| ==> i <= found[k].at && Spans(text, found[k]))
    && (forall j, k :: 0 <= j < k < |found| ==> After(found[j]) <= found[k].at)
  }

  /** The first literal from `i` on, when a quote stands there. */
  function First(text: string, i: nat): Literal
    requires i < |text|
  {
    Literal(i, text[i + 1..i + 1 + BodyEnd(text[i + 1..])])
  }

  lemma FromStep(text: string, i: nat)
    requires i < |text|
    ensures From(text, i) ==
      if text[i] == '"' then [First(text, i)] + From(text, After(First(text, i))) else From(text, i + 1)
    ensures text[i] == '"' ==> Spans(text, First(text, i))
  {
    var n := BodyEnd(text[i + 1..]);
    assert i + 1 + n < |text| ==> text[i + 1..][n] == text[i + 1 + n];
  }

  lemma {:induction false} LiteralsInOrder(text: string, i: nat)
    ensures InOrder(text, i, From(text, i))
    decreases |text| - i
  {
    if i < |text| {
      FromStep(text, i);
      hide From, BodyEnd, Spans;
      if text[i] != '"' {
        LiteralsInOrder(text, i + 1);
      } else {
        LiteralsInOrder(text, After(First(text, i)));
        InOrderCons(text, i, First(text, i), From(text, After(First(text, i))));
      }
    }
  }

  lemma InOrderCons(text: string, i: nat, first: Literal, rest: seq<Literal>)
    requires first.at == i && Spans(text, first) && InOrder(text, After(first), rest)
    ensures InOrder(text, i, [first] + rest)
  {
    assert forall k :: 1 <= k < |rest| + 1 ==> ([first] + rest)[k] == rest[k - 1];
  }

  /** The first position past a literal and its closing quote. */
  function After(l: Literal): nat {
    l.at + |l.body| + 2
  }

  /** Every quote opens a literal, closes one, or stands inside one. */
  lemma {:induction false} EveryQuoteIsFound(text: string, i: nat, q: nat)
    requires i <= q < |text| && text[q] == '"'
    ensures exists l :: l in From(text, i) && l.at <= q < After(l)
    decreases |text| - i
  {
    FromStep(text, i);
    hide From, BodyEnd;
    if text[i] != '"' {
      EveryQuoteIsFound(text, i + 1, q);
    } else {
      var first := First(text, i);
      if q < After(first) {
        assert first in [first];
      } else {
        EveryQuoteIsFound(text, After(first), q);
        var l :| l in From(text, After(first)) && l.at <= q < After(l);
        assert l in From(text, i);
      }
    }
  }

  predicate Spans(text: string, l: Literal) {
    var end := l.at + 1 + |l.body|;
    && end <= |text| && text[l.at] == '"' && l.body == text[l.at + 1..end]
    && (end < |text| ==> text[end] == '"')
  }

  // ---- Tokenised text ------------------------------------------------------------------

  /** The string tokens of a source that begins at offset `at`. */
  function StrsOf(source: RustTokens.Source, at: nat): seq<Literal> {
    if source == [] then []
    else
      (if source[0].Str? then [Literal(at, RustTokens.StringText(source[0].chars))] else [])
      + StrsOf(source[1..], at + |source[0].Text()|)
  }

  predicate Quoteless(s: string) {
    forall k :: 0 <= k < |s| ==> s[k] != '"'
  }

  /** No other token than a string has a double quote in it. */
  predicate QuotesOnlyInStrings(source: RustTokens.Source) {
    forall k :: 0 <= k < |source| && !source[k].Str? ==> Quoteless(source[k].Text())
  }

  lemma {:induction false} FromSkips(text: string, i: nat, j: nat)
    requires i <= j <= |text| && forall k :: i <= k < j ==> text[k] != '"'
    ensures From(text, i) == From(text, j)
    decreases j - i
  {
    if i < j {
      FromSkips(text, i + 1, j);
    }
  }

  lemma {:induction false} StrsBegin(source: RustTokens.Source, at: nat)
    ensures forall l :: l in StrsOf(source, at) ==> at <= l.at
  {
    if source != [] {
      StrsBegin(source[1..], at + |source[0].Text()|);
    }
  }

  lemma QuotedAt(text: string, i: nat, body: string, tail: string)
    requires i < |text| && text[i] == '"' && text[i + 1..] == body + tail && BodyEnd(body + tail) == |body|
    ensures From(text, i) == [Literal(i, body)] + From(text, i + |body| + 2)
  {
    hide *;
    FromStep(text, i);
    FirstIs(text, i, body, tail);
  }

  lemma FirstIs(text: string, i: nat, body: string, tail: string)
    requires i < |text| && text[i + 1..] == body + tail && BodyEnd(body + tail) == |body|
    ensures First(text, i) == Literal(i, body) && After(First(text, i)) == i + |body| + 2
  {
    hide BodyEnd;
    var rest := text[i + 1..];
    assert text[i + 1..i + 1 + |body|] == rest[..|body|];
    assert rest[..|body|] == body;
  }

  /** A string token behind `prefix`, by its parts. */
  lemma StrText(prefix: string, chars: seq<RustTokens.StringChar>, rest: string)
    ensures var token, body := RustTokens.Str(chars), RustTokens.StringText(chars);
      var text := prefix + (token.Text() + rest);
      && |text| > |prefix| && text[|prefix|] == '"' && text[|prefix| + 1..] == body + ("\"" + rest)
      && |token.Text()| == |body| + 2
  {
    hide RustTokens.StringText;
    var body := RustTokens.StringText(chars);
    var s := "\"" + (body + ("\"" + rest));
    assert RustTokens.Str(chars).Text() + rest == s;
    assert (prefix + s)[|prefix|..] == s;
  }

  lemma StrIsFound(prefix: string, chars: seq<RustTokens.StringChar>, rest: string)
    requires forall k :: 0 <= k < |chars| ==> chars[k].Valid()
    ensures var token := RustTokens.Str(chars);
      From(prefix + (token.Text() + rest), |prefix|) ==
        [Literal(|prefix|, RustTokens.StringText(chars))]
        + From(prefix + (token.Text() + rest), |prefix| + |token.Text()|)
  {
    hide *;
    var body, tail := RustTokens.StringText(chars), "\"" + rest;
    var s := RustTokens.Str(chars).Text() + rest;
    BodyReads(chars, tail);
    StrText(prefix, chars, rest);
    QuotedAt(prefix + s, |prefix|, body, tail);
  }

  lemma SameTail(x: Literal, a: seq<Literal>, b: seq<Literal>)
    ensures [x] + a == [x] + b <==> a == b
  {
    if [x] + a == [x] + b {
      assert a == ([x] + a)[1..] == ([x] + b)[1..] == b;
    }
  }

  lemma QuoteIsReported(text: string, i: nat, q: nat, strs: seq<Literal>)
    requires i <= q < |text| && text[q] == '"' && forall k :: i <= k < q ==> text[k] != '"'
    requires forall l :: l in strs ==> q < l.at
    ensures From(text, i) != strs
  {
    FromSkips(text, i, q);
    assert From(text, q)[0].at == q;
    assert strs != [] ==> strs[0] in strs;
  }

  lemma FirstQuote(s: string) returns (q: nat)
    requires !Quoteless(s)
    ensures q < |s| && s[q] == '"' && forall k :: 0 <= k < q ==> s[k] != '"'
  {
    q := 0;
    while s[q] != '"'
      invariant q < |s| && forall k :: 0 <= k < q ==> s[k] != '"'
      decreases |s| - q
    {
      q := q + 1;
    }
  }

  lemma QuotesOnlyTail(source: RustTokens.Source)
    requires source != []
    ensures QuotesOnlyInStrings(source) <==>
      (source[0].Str? || Quoteless(source[0].Text())) && QuotesOnlyInStrings(source[1..])
  {
    hide Quoteless, RustTokens.Token.Text;
    assert forall k :: 1 <= k < |source| ==> source[k] == source[1..][k - 1];
  }

  /** The literals reported are the string tokens of the source exactly when no other token has a
      double quote in it: no character literal of one, no raw string, no quoting comment. */
  lemma {:induction false} StringsFoundExactly(prefix: string, source: RustTokens.Source)
    requires RustTokens.Valid(source)
    ensures From(prefix + RustTokens.Text(source), |prefix|) == StrsOf(source, |prefix|) <==>
      QuotesOnlyInStrings(source)
    decreases |source|
  {
    hide From, RustTokens.Token.Text, RustTokens.Token.Valid;
    if source == [] {
      NothingFound(prefix);
      assert prefix + [] == prefix;
    } else {
      var token, rest := source[0], RustTokens.Text(source[1..]);
      var text, i, j := prefix + (token.Text() + rest), |prefix|, |prefix| + |token.Text()|;
      assert text == (prefix + token.Text()) + rest;
      StringsFoundExactly(prefix + token.Text(), source[1..]);
      QuotesOnlyTail(source);
      if token.Str? {
        CharsAreValid(token, rest);
        StrIsFound(prefix, token.chars, rest);
        SameTail(Literal(i, RustTokens.StringText(token.chars)), From(text, j), StrsOf(source[1..], j));
      } else if Quoteless(token.Text()) {
        FromSkips(text, i, j);
      } else {
        var q := FirstQuote(token.Text());
        StrsBegin(source[1..], j);
        QuoteIsReported(text, i, i + q, StrsOf(source, i));
      }
    }
  }

  lemma CharsAreValid(token: RustTokens.Token, rest: string)
    requires token.Str? && token.Valid(rest)
    ensures forall k :: 0 <= k < |token.chars| ==> token.chars[k].Valid()
  {
  }

  lemma NothingFound(text: string)
    ensures From(text, |text|) == []
  {
  }

  /** The character literal of a double quote is taken for the start of a string. */
  lemma QuoteCharacterOpensString()
    ensures From("'\"'", 0) == [Literal(1, "'")]
  {
    var text := "'\"'";
    assert text[2..] == "'" && BodyEnd("'") == 1 + BodyEnd("'"[1..]) == 1;
    assert text[2..3] == "'";
    assert From(text, 0) == From(text, 1);
  }

  lemma NewlineStep(text: string, i: nat, j: nat)
    requires i <= j <= |text| && j <= i + 2
    ensures Newlines(text[..j]) == Newlines(text[..i])
      + (if i < j && text[i] == '\n' then 1 else 0) + (if i + 1 < j && text[i + 1] == '\n' then 1 else 0)
  {
    if i < j {
      assert text[..i + 1][..i] == text[..i];
      if i + 1 < j {
        assert text[..j][..i + 1] == text[..i + 1];
      }
    }
  }

  /** The literal whose body starts at `start`. */
  method ReadBody(b: string, start: nat, startLine: nat) returns (i: nat, line: nat, s: string)
    requires start <= |b| && startLine == LineOf(b, start)
    ensures var n := BodyEnd(b[start..]);
      s == b[start..start + n] && i == (if start + n < |b| then start + n + 1 else |b|)
    ensures line == LineOf(b, i)
  {
    hide Newlines, BodyEnd;
    i, line, s := start, startLine, [];
    while i < |b|
      invariant start <= i <= |b| && s == b[start..i]
      invariant BodyEnd(b[start..]) == i - start + BodyEnd(b[i..])
      invariant line == LineOf(b, i)
    {
      BodyStep(b, i);
      Extend(b, start, i);
      if b[i] == '\\' && i + 1 < |b| {
        NewlineStep(b, i, i + 2);
        if b[i + 1] == '\n' {
          line := line + 1;
        }
        s := s + [b[i]] + [b[i + 1]];
        i := i + 2;
      } else {
        NewlineStep(b, i, i + 1);
        if b[i] == '"' {
          return i + 1, line, s;
        }
        if b[i] == '\n' {
          line := line + 1;
        }
        s := s + [b[i]];
        i := i + 1;
      }
    }
    BodyOver(b[i..]);
  }

  lemma Extend(b: string, start: nat, i: nat)
    requires start <= i < |b|
    ensures b[start..i + 1] == b[start..i] + [b[i]]
    ensures i + 1 < |b| ==> b[start..i + 2] == b[start..i] + [b[i]] + [b[i + 1]]
  {
  }

  lemma BodyOver(s: string)
    ensures s == [] ==> BodyEnd(s) == 0
  {
  }

  lemma FirstLine(text: string)
    ensures LineOf(text, 0) == 1
  {
  }

  /** Each literal is reported with one plus the newlines before its opening quote. */
  method FindLiterals(text: string) returns (out: seq<(nat, string)>)
    ensures var found := From(text, 0);
      |out| == |found| &&
      forall k :: 0 <= k < |out| ==> found[k].at <= |text| && out[k] == (LineOf(text, found[k].at), found[k].body)
  {
    hide Newlines, BodyEnd;
    out := [];
    var i, line := 0, 1;
    ghost var done: seq<Literal> := [];
    FirstLine(text);
    while i < |text|
      invariant 0 <= i <= |text| && line == LineOf(text, i)
      invariant From(text, 0) == done + From(text, i)
      invariant |out| == |done|
      invariant forall k :: 0 <= k < |out| ==>
        done[k].at <= |text| && out[k] == (LineOf(text, done[k].at), done[k].body)
    {
      NewlineStep(text, i, i + 1);
      if text[i] == '"' {
        var startLine, s := line, "";
        ghost var at := i;
        i, line, s := ReadBody(text, i + 1, line);
        out := out + [(startLine, s)];
        done := done + [Literal(at, s)];
      } else {
        if text[i] == '\n' {
          line := line + 1;
        }
        i := i + 1;
      }
    }
  }
}
