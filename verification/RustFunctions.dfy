/** `functions_in` of xtask/src/gates.rs: every function of a file with its body and the `impl`
    block that owns it. Line counting and call extraction are parameters. */
module RustFunctions {
  import opened Blanking
  import opened Decimals
  import opened Lines
  import opened Options
  import opened RustBlocks
  import opened CallClosure

  /** A `fn` keyword at `at` whose body is `s[body..end]`. */
  datatype Fn = Fn(at: nat, name: string, body: nat, end: nat)

  function SkipWhite(s: string, j: nat, u: Classes): (r: nat)
    requires j <= |s|
    ensures j <= r <= |s|
    decreases |s| - j
  {
    if j < |s| && u.whitespace(s[j]) then SkipWhite(s, j + 1, u) else j
  }

  function SkipWord(s: string, j: nat, u: Classes): (r: nat)
    requires j <= |s|
    ensures j <= r <= |s|
    decreases |s| - j
  {
    if j < |s| && u.Word(s[j]) then SkipWord(s, j + 1, u) else j
  }

  predicate FnKeyword(s: string, i: nat, u: Classes) {
    KeywordAt(s, i, "fn", u)
  }

  lemma FnKeywordIsWord(s: string, i: nat, u: Classes)
    requires u.Valid() && u.alphanumeric('f') && u.alphanumeric('n')
    ensures FnKeyword(s, i, u) <==> WordRun(s, i, i + 2, u) && s[i..i + 2] == "fn"
  {
    var keyword := "fn";
    assert keyword == ['f', 'n'];
    KeywordIsWord(s, i, keyword, u);
  }

  /** What a `fn` keyword at `i` leads to: its name, the end of its balanced parameter list and
      the first `{` or `;` after it. */
  function FnAt(s: string, i: nat, u: Classes): (f: Option<Fn>)
    requires FnKeyword(s, i, u)
    ensures f.Some? ==> i + 2 <= f.value.body < |s| && s[f.value.body] == '{'
    ensures f.Some? ==> f.value.at == i && f.value.end == EndOf(s, '{', '}', f.value.body, 0)
  {
    var nameStart := SkipWhite(s, i + 2, u);
    var nameEnd := SkipWord(s, nameStart, u);
    var paren := Seek(s, nameEnd, IsParen);
    var close := ParenEnd(s, paren);
    var stop := Seek(s, close, IsStop);
    if stop < |s| && s[stop] == '{' && nameStart < nameEnd then
      Some(Fn(i, s[nameStart..nameEnd], stop, EndOf(s, '{', '}', stop, 0)))
    else None
  }

  predicate IsParen(c: char) {
    c == '('
  }

  predicate IsStop(c: char) {
    c == '{' || c == ';'
  }

  function ParenEnd(s: string, paren: nat): (r: nat)
    requires paren <= |s| && (paren < |s| ==> s[paren] == '(')
    ensures paren <= r <= |s|
  {
    if paren == |s| then paren
    else
      EndOfIsBlock(s, '(', ')', paren);
      EndOf(s, '(', ')', paren, 0)
  }

  function Fns(s: string, i: nat, u: Classes): seq<Fn>
    decreases |s| - i
  {
    if i >= |s| then []
    else if FnKeyword(s, i, u) && FnAt(s, i, u).Some? then
      var f := FnAt(s, i, u).value;
      EndOfIsBlock(s, '{', '}', f.body);
      [f] + Fns(s, f.end, u)
    else Fns(s, i + 1, u)
  }

  /** Spans from `i` on, in order and apart; each body is a brace block, closed or cut by the end. */
  ghost predicate Apart(s: string, i: nat, fns: seq<Fn>)
    decreases |fns|
  {
    fns != [] ==>
      && i <= fns[0].at < fns[0].body && IsBlock(s, '{', '}', fns[0].body, fns[0].end)
      && Apart(s, fns[0].end, fns[1..])
  }

  lemma {:induction false} FunctionsAreApart(s: string, i: nat, u: Classes)
    ensures Apart(s, i, Fns(s, i, u))
    decreases |s| - i
  {
    hide EndOf, FnKeyword;
    if i < |s| {
      if FnKeyword(s, i, u) && FnAt(s, i, u).Some? {
        var f := FnAt(s, i, u).value;
        hide FnAt;
        EndOfIsBlock(s, '{', '}', f.body);
        FunctionsAreApart(s, f.end, u);
        assert ([f] + Fns(s, f.end, u))[1..] == Fns(s, f.end, u);
      } else {
        FunctionsAreApart(s, i + 1, u);
      }
    }
  }

  lemma {:induction false} ApartAt(s: string, i: nat, fns: seq<Fn>, k: nat)
    requires Apart(s, i, fns) && k < |fns|
    ensures i <= fns[k].at < fns[k].body && IsBlock(s, '{', '}', fns[k].body, fns[k].end)
    decreases k
  {
    if k > 0 {
      ApartAt(s, fns[0].end, fns[1..], k - 1);
    }
  }

  /** Two functions of one file never share a character. */
  lemma {:induction false} ApartPair(s: string, i: nat, fns: seq<Fn>, j: nat, k: nat)
    requires Apart(s, i, fns) && j < k < |fns|
    ensures fns[j].end <= fns[k].at
    decreases j
  {
    if j == 0 {
      ApartAt(s, fns[0].end, fns[1..], k - 1);
    } else {
      ApartPair(s, fns[0].end, fns[1..], j - 1, k - 1);
    }
  }

  // ---- Which functions are found -------------------------------------------------------

  /** Where the parts of a function stand: its name, its first parenthesised list, and the
      first `{` after that. */
  datatype Signature = Signature(nameStart: nat, nameEnd: nat, paren: nat, close: nat, brace: nat)

  /** The text after the keyword at `h` is white space, the name, no parenthesis up to a matched
      list, and no `{` up to the brace. */
  ghost predicate Signed(s: string, h: nat, u: Classes, g: Signature) {
    && h + 2 <= g.nameStart < g.nameEnd <= g.paren < g.close <= g.brace < |s|
    && (forall k :: h + 2 <= k < g.nameStart ==> u.whitespace(s[k])) && !u.whitespace(s[g.nameStart])
    && (forall k :: g.nameStart <= k < g.nameEnd ==> u.Word(s[k])) && !u.Word(s[g.nameEnd])
    && (forall k :: g.nameEnd <= k < g.paren ==> s[k] != '(') && s[g.paren] == '('
    && IsBlock(s, '(', ')', g.paren, g.close) && Depth(s, '(', ')', g.paren, g.close) == 0
    && (forall k :: g.close <= k < g.brace ==> s[k] != '{') && s[g.brace] == '{'
  }

  predicate NoSemicolon(s: string, i: nat, j: nat) {
    forall k :: i <= k < j && k < |s| ==> s[k] != ';'
  }

  lemma {:induction false} SkipWhiteSpan(s: string, j: nat, u: Classes)
    requires j <= |s|
    ensures var n := SkipWhite(s, j, u);
      (forall k :: j <= k < n ==> u.whitespace(s[k])) && (n < |s| ==> !u.whitespace(s[n]))
    decreases |s| - j
  {
    if j < |s| && u.whitespace(s[j]) {
      SkipWhiteSpan(s, j + 1, u);
    }
  }

  lemma {:induction false} SkipWordSpan(s: string, j: nat, u: Classes)
    requires j <= |s|
    ensures var n := SkipWord(s, j, u);
      (forall k :: j <= k < n ==> u.Word(s[k])) && (n < |s| ==> !u.Word(s[n]))
    decreases |s| - j
  {
    if j < |s| && u.Word(s[j]) {
      SkipWordSpan(s, j + 1, u);
    }
  }

  /** A signature with a name, a list and a brace is read as a function exactly when no
      semicolon stands between the list and the brace, not even one in a return type. */
  lemma SignedIsRead(s: string, h: nat, u: Classes, g: Signature)
    requires FnKeyword(s, h, u) && Signed(s, h, u, g)
    ensures FnAt(s, h, u).Some? <==> NoSemicolon(s, g.close, g.brace)
    ensures FnAt(s, h, u).Some? ==>
      FnAt(s, h, u).value == Fn(h, s[g.nameStart..g.nameEnd], g.brace, EndOf(s, '{', '}', g.brace, 0))
  {
    SkipWhiteSpan(s, h + 2, u);
    assert SkipWhite(s, h + 2, u) == g.nameStart;
    SkipWordSpan(s, g.nameStart, u);
    assert SkipWord(s, g.nameStart, u) == g.nameEnd;
    assert Seek(s, g.nameEnd, IsParen) == g.paren;
    EndOfIsBlock(s, '(', ')', g.paren);
    BlockEndIsUnique(s, '(', ')', g.paren, g.close, EndOf(s, '(', ')', g.paren, 0));
    hide IsBlock, EndOf, Depth, FnKeyword, Classes.Word;
    var stop := Seek(s, g.close, IsStop);
    assert stop <= g.brace by {
      assert IsStop(s[g.brace]);
    }
    assert s[stop] == '{' ==> stop == g.brace;
  }

  /** What is read as a function has such a signature. */
  lemma ReadIsSigned(s: string, h: nat, u: Classes) returns (g: Signature)
    requires FnKeyword(s, h, u) && FnAt(s, h, u).Some?
    ensures Signed(s, h, u, g) && NoSemicolon(s, g.close, g.brace)
  {
    hide FnKeyword, Classes.Word, EndOf;
    var start := SkipWhite(s, h + 2, u);
    var end := SkipWord(s, start, u);
    SkipWhiteSpan(s, h + 2, u);
    SkipWordSpan(s, start, u);
    var paren := Seek(s, end, IsParen);
    var close := ParenEnd(s, paren);
    assert close < |s|;
    EndOfIsBlock(s, '(', ')', paren);
    var brace := Seek(s, close, IsStop);
    g := Signature(start, end, paren, close, brace);
  }

  lemma SignedBounds(s: string, h: nat, u: Classes, g: Signature)
    requires Signed(s, h, u, g)
    ensures h + 2 <= g.nameStart < g.nameEnd <= g.paren < g.close <= g.brace < |s|
  {
  }

  lemma {:induction false} ReadIsFound(s: string, i: nat, h: nat, u: Classes) returns (f: Fn)
    requires i <= h && FnKeyword(s, h, u) && FnAt(s, h, u).Some?
    ensures f in Fns(s, i, u) && f.at <= h < f.end
    ensures f.at == h ==> f == FnAt(s, h, u).value
    decreases |s| - i
  {
    hide EndOf, FnKeyword, FnAt;
    if FnKeyword(s, i, u) && FnAt(s, i, u).Some? {
      f := FnAt(s, i, u).value;
      EndOfIsBlock(s, '{', '}', f.body);
      if f.end <= h {
        f := ReadIsFound(s, f.end, h, u);
      }
    } else {
      f := ReadIsFound(s, i + 1, h, u);
    }
  }

  /** Every function with a name, a list and a brace, and no semicolon between those two, is
      listed with that brace as its body, or lies within one that is listed. */
  lemma EveryFunctionIsFound(s: string, h: nat, u: Classes, g: Signature) returns (f: Fn)
    requires FnKeyword(s, h, u) && Signed(s, h, u, g) && NoSemicolon(s, g.close, g.brace)
    ensures g.nameStart <= g.nameEnd <= |s| && f in Fns(s, 0, u) && f.at <= h < f.end
    ensures f.at == h ==> f.body == g.brace && f.name == s[g.nameStart..g.nameEnd]
  {
    SignedIsRead(s, h, u, g);
    hide EndOf, FnKeyword, FnAt, Signed, NoSemicolon;
    f := ReadIsFound(s, 0, h, u);
  }

  /** Only readable functions are listed. */
  lemma {:induction false} OnlyFunctionsAreFound(s: string, i: nat, f: Fn, u: Classes) returns (g: Signature)
    requires f in Fns(s, i, u)
    ensures i <= f.at && FnKeyword(s, f.at, u) && Signed(s, f.at, u, g) && NoSemicolon(s, g.close, g.brace)
    ensures g.nameStart <= g.nameEnd <= |s| && f.name == s[g.nameStart..g.nameEnd] && f.body == g.brace
    decreases |s| - i
  {
    hide EndOf, FnKeyword, FnAt, Signed, NoSemicolon;
    if FnKeyword(s, i, u) && FnAt(s, i, u).Some? {
      var first := FnAt(s, i, u).value;
      if f == first {
        g := ReadIsSigned(s, i, u);
        SignedBounds(s, i, u, g);
        SignedIsRead(s, i, u, g);
      } else {
        EndOfIsBlock(s, '{', '}', first.body);
        g := OnlyFunctionsAreFound(s, first.end, f, u);
      }
    } else {
      g := OnlyFunctionsAreFound(s, i + 1, f, u);
    }
  }

  /** A function that nothing encloses is listed exactly when no semicolon stands between its
      parameter list and its brace. */
  lemma ListedExactlyWhenNoSemicolon(s: string, h: nat, u: Classes, g: Signature)
    requires FnKeyword(s, h, u) && Signed(s, h, u, g)
    requires forall f :: f in Fns(s, 0, u) && f.at < h ==> f.end <= h
    ensures (exists f :: f in Fns(s, 0, u) && f.at == h) <==> NoSemicolon(s, g.close, g.brace)
  {
    SignedIsRead(s, h, u, g);
    hide FnKeyword, FnAt, Signed, NoSemicolon;
    if NoSemicolon(s, g.close, g.brace) {
      var f := EveryFunctionIsFound(s, h, u, g);
    }
    forall f | f in Fns(s, 0, u) && f.at == h
      ensures NoSemicolon(s, g.close, g.brace)
    {
      var g' := OnlyFunctionsAreFound(s, 0, f, u);
      SignedBounds(s, h, u, g');
      SignedIsRead(s, h, u, g');
    }
  }

  lemma ParenPair(s: string, i: nat)
    requires i + 2 <= |s| && s[i] == '(' && s[i + 1] == ')'
    ensures IsBlock(s, '(', ')', i, i + 2) && Depth(s, '(', ')', i, i + 2) == 0
  {
    assert Depth(s, '(', ')', i, i) == 0;
    assert Depth(s, '(', ')', i, i + 1) == 1;
  }

  lemma OnlyAtTheStart(s: string, u: Classes)
    requires forall k :: 1 <= k < |s| ==> s[k] != 'f'
    ensures forall f :: f in Fns(s, 0, u) ==> f.at == 0
  {
    hide Fns, Signed;
    forall f | f in Fns(s, 0, u)
      ensures f.at == 0
    {
      var g := OnlyFunctionsAreFound(s, 0, f, u);
      assert s[f.at] == s[f.at..f.at + 2][0] == 'f';
    }
  }

  /** A return type with a semicolon in it hides the function: this one is not listed at all. */
  lemma ArrayReturnHidesFunction(s: string, g: Signature, u: Classes)
    requires s == "fn g()->[u8;4]{}" && g == Signature(3, 4, 4, 6, 14)
    requires u.whitespace(' ') && !u.Word(' ') && u.Word('g') && !u.whitespace('g') && !u.Word('(')
    ensures FnKeyword(s, 0, u) && Signed(s, 0, u, g) && Fns(s, 0, u) == []
  {
    hide Fns, FnAt, Classes.Word, IsBlock, Depth;
    assert |s| == 16 && s[2] == ' ' && s[3] == 'g' && s[11] == ';' && s[14] == '{';
    ParenPair(s, 4);
    assert s[0..2] == "fn";
    assert Signed(s, 0, u, g);
    hide Signed;
    OnlyAtTheStart(s, u);
    ListedExactlyWhenNoSemicolon(s, 0, u, g);
    assert Fns(s, 0, u) != [] ==> Fns(s, 0, u)[0] in Fns(s, 0, u);
  }

  // ---- Owners --------------------------------------------------------------------------

  predicate Encloses(b: Block, i: nat) {
    b.start <= i < b.end
  }

  /** `k` is the innermost block around `i`: every other block around `i` goes around it. */
  ghost predicate Innermost(blocks: seq<Block>, i: nat, k: nat) {
    && k < |blocks| && Encloses(blocks[k], i)
    && forall j :: 0 <= j < |blocks| && j != k && Encloses(blocks[j], i) ==>
      blocks[j].start < blocks[k].start && blocks[k].end <= blocks[j].end
  }

  /** A shortest block around the function; the first of several. */
  method Owner(s: string, blocks: seq<Block>, i: nat) returns (owner: Option<nat>)
    requires Laminar(s, blocks)
    ensures owner.None? <==> forall k :: 0 <= k < |blocks| ==> !Encloses(blocks[k], i)
    ensures owner.Some? ==> Innermost(blocks, i, owner.value)
    ensures forall k: nat :: Innermost(blocks, i, k) ==> owner == Some(k)
  {
    owner := None;
    for k := 0 to |blocks|
      invariant owner.Some? ==> owner.value < k && Encloses(blocks[owner.value], i)
      invariant owner.None? ==> forall j :: 0 <= j < k ==> !Encloses(blocks[j], i)
      invariant owner.Some? ==> forall j :: 0 <= j < k && Encloses(blocks[j], i) ==>
        blocks[owner.value].end - blocks[owner.value].start <= blocks[j].end - blocks[j].start
    {
      if Encloses(blocks[k], i) {
        if owner.None? || blocks[k].end - blocks[k].start < blocks[owner.value].end - blocks[owner.value].start {
          owner := Some(k);
        }
      }
    }
    if owner.Some? {
      SmallestIsInnermost(s, blocks, i, owner.value);
    }
  }

  lemma SmallestIsInnermost(s: string, blocks: seq<Block>, i: nat, k: nat)
    requires Laminar(s, blocks) && k < |blocks| && Encloses(blocks[k], i)
    requires forall j :: 0 <= j < |blocks| && Encloses(blocks[j], i) ==>
      blocks[k].end - blocks[k].start <= blocks[j].end - blocks[j].start
    ensures Innermost(blocks, i, k)
    ensures forall j: nat :: Innermost(blocks, i, j) ==> j == k
  {
  }

  // ---- The method ----------------------------------------------------------------------

  /** Resolution keys: a free function answers to its name, a method to two. */
  function Keys(owner: Option<string>, name: string): seq<string> {
    if owner.None? then [name] else [owner.value + "::" + name, "." + name]
  }

  function FullName(owner: Option<string>, name: string): string {
    if owner.None? then name else owner.value + "::" + name
  }

  function SiteOf(file: string, line: nat): string {
    file + ":" + Decimal(line)
  }

  /** `p` is what `functions_in` reports for `f`. */
  ghost predicate Reports(
    file: string, s: string, f: Fn, p: PacketdFn, blocks: seq<Block>,
    codeLines: string -> nat, callKeys: string -> seq<string>)
  {
    && f.at < f.body < f.end <= |s|
    && p.site == SiteOf(file, LineOf(s, f.at))
    && p.codeLines == codeLines(s[f.body..f.end]) && p.calls == callKeys(s[f.body..f.end])
    && exists owner: Option<string> ::
      OwnerName(blocks, f.at, owner) && p.name == FullName(owner, f.name) && p.keys == Keys(owner, f.name)
  }

  ghost predicate OwnerName(blocks: seq<Block>, i: nat, owner: Option<string>) {
    match owner
    case None => forall k :: 0 <= k < |blocks| ==> !Encloses(blocks[k], i)
    case Some(name) => exists k: nat :: Innermost(blocks, i, k) && blocks[k].name == name
  }

  method FunctionsIn(file: string, s: string, u: Classes, codeLines: string -> nat, callKeys: string -> seq<string>)
    returns (out: seq<PacketdFn>)
    requires u.Valid()
    ensures |out| == |Fns(s, 0, u)|
    ensures forall k :: 0 <= k < |out| ==>
      Reports(file, s, Fns(s, 0, u)[k], out[k], Impls(s, 0, u), codeLines, callKeys)
  {
    hide Reports, FnAt, Impls, Laminar, Fns, FnKeyword;
    FnsEnd(s, u);
    var owners := ImplBlocks(s, u);
    out := [];
    var i := 0;
    ghost var found: seq<Fn> := [];
    while i < |s|
      invariant 0 <= i
      invariant Fns(s, 0, u) == found + Fns(s, i, u)
      invariant |out| == |found|
      invariant forall k :: 0 <= k < |out| ==> Reports(file, s, found[k], out[k], owners, codeLines, callKeys)
    {
      FnsStep(s, i, u);
      if FnKeyword(s, i, u) {
        var f := ReadFunction(s, i, u);
        if f.Some? {
          var p := Report(file, s, f.value, owners, codeLines, callKeys);
          out := out + [p];
          found := found + [f.value];
          i := f.value.end;
          continue;
        }
      }
      i := i + 1;
    }
  }

  lemma FnsStep(s: string, i: nat, u: Classes)
    requires i < |s|
    ensures Fns(s, i, u) ==
      if FnKeyword(s, i, u) && FnAt(s, i, u).Some? then [FnAt(s, i, u).value] + Fns(s, FnAt(s, i, u).value.end, u)
      else Fns(s, i + 1, u)
  {
    hide FnAt, FnKeyword;
  }

  lemma FnsEnd(s: string, u: Classes)
    ensures forall i: nat :: i >= |s| ==> Fns(s, i, u) == []
  {
  }

  /** The name, the parameter list and the body that follow a `fn` keyword. */
  method ReadFunction(s: string, i: nat, u: Classes) returns (f: Option<Fn>)
    requires u.Valid() && FnKeyword(s, i, u)
    ensures f == FnAt(s, i, u)
    ensures f.Some? ==> i < f.value.body < f.value.end <= |s|
  {
    assert i + 2 <= |s|;
    hide EndOf, KeywordAt;
    var nameStart, j := ReadName(s, i + 2, u);
    var name := s[nameStart..j];
    j := SeekFrom(s, j, IsParen);
    if j < |s| {
      j := MatchBracket(s, '(', ')', j);
    }
    j := SeekFrom(s, j, IsStop);
    if At(s, j) == '{' && name != [] {
      var end := MatchBracket(s, '{', '}', j);
      return Some(Fn(i, name, j, end));
    }
    return None;
  }

  method ReadName(s: string, i: nat, u: Classes) returns (start: nat, j: nat)
    requires u.Valid() && i <= |s|
    ensures i <= start <= j <= |s|
    ensures start == SkipWhite(s, i, u) && j == SkipWord(s, start, u)
  {
    j := i;
    while u.whitespace(At(s, j))
      invariant i <= j <= |s| && SkipWhite(s, i, u) == SkipWhite(s, j, u)
      decreases |s| - j
    {
      j := j + 1;
    }
    start := j;
    while u.Word(At(s, j))
      invariant start <= j <= |s| && SkipWord(s, start, u) == SkipWord(s, j, u)
      decreases |s| - j
    {
      j := j + 1;
    }
  }

  method Report(
    file: string, s: string, f: Fn, owners: seq<Block>, codeLines: string -> nat, callKeys: string -> seq<string>)
    returns (p: PacketdFn)
    requires f.at < f.body < f.end <= |s| && Laminar(s, owners)
    ensures Reports(file, s, f, p, owners, codeLines, callKeys)
  {
    var body := s[f.body..f.end];
    var at := Owner(s, owners, f.at);
    var owner: Option<string> := if at.Some? then Some(owners[at.value].name) else None;
    var site := SiteOf(file, LineOf(s, f.at));
    p := PacketdFn(FullName(owner, f.name), site, codeLines(body), Keys(owner, f.name), callKeys(body));
    assert OwnerName(owners, f.at, owner);
  }

  // ---- What a report says --------------------------------------------------------------

  ghost predicate AnswersTo(p: PacketdFn, keys: set<string>) {
    forall key :: key in p.keys <==> key in keys
  }

  /** No block that contains position `i` is shorter than the `k`th, which does. */
  ghost predicate Shortest(blocks: seq<Block>, i: nat, k: nat) {
    && k < |blocks| && blocks[k].start <= i < blocks[k].end
    && forall j :: 0 <= j < |blocks| && blocks[j].start <= i < blocks[j].end ==>
      blocks[k].end - blocks[k].start <= blocks[j].end - blocks[j].start
  }

  /** A function outside every block is called by its name alone. A function inside some is a
      method of the shortest: it is called through the type or through a value, and in no other
      way. Its site is the file and the line of its `fn`, counted from one. */
  lemma ReportedAs(
    file: string, s: string, f: Fn, p: PacketdFn, blocks: seq<Block>,
    codeLines: string -> nat, callKeys: string -> seq<string>)
    requires Reports(file, s, f, p, blocks, codeLines, callKeys)
    ensures exists line :: p.site == file + ":" + line && Writes(line, 1 + |set k | 0 <= k < f.at && s[k] == '\n'|)
    ensures (forall k :: 0 <= k < |blocks| ==> !(blocks[k].start <= f.at < blocks[k].end)) ==>
      p.name == f.name && AnswersTo(p, {f.name})
    ensures forall k: nat :: Shortest(blocks, f.at, k) && Laminar(s, blocks) ==>
      p.name == blocks[k].name + "::" + f.name
      && AnswersTo(p, {blocks[k].name + "::" + f.name, "." + f.name})
    ensures p.codeLines == codeLines(s[f.body..f.end]) && p.calls == callKeys(s[f.body..f.end])
  {
    var line := LineOf(s, f.at);
    LineCounts(s, f.at);
    OnlyDecimalWrites(Decimal(line), line);
    assert p.site == file + ":" + Decimal(line);
    forall k: nat | Shortest(blocks, f.at, k) && Laminar(s, blocks)
      ensures p.name == blocks[k].name + "::" + f.name
      ensures AnswersTo(p, {blocks[k].name + "::" + f.name, "." + f.name})
    {
      SmallestIsInnermost(s, blocks, f.at, k);
      InnermostIsUnique(blocks, f.at, k);
    }
  }

  lemma InnermostIsUnique(blocks: seq<Block>, i: nat, k: nat)
    requires Innermost(blocks, i, k)
    ensures forall j: nat :: Innermost(blocks, i, j) ==> j == k
  {
  }

  /** A body that calls `.name` calls every method of that name, whatever its type. */
  lemma MethodCallsReachMethods(
    file: string, s: string, f: Fn, p: PacketdFn, blocks: seq<Block>,
    codeLines: string -> nat, callKeys: string -> seq<string>,
    defined: seq<PacketdFn>, seeds: seq<string>, caller: PacketdFn)
    requires Reports(file, s, f, p, blocks, codeLines, callKeys) && p in defined
    requires exists k :: 0 <= k < |blocks| && blocks[k].start <= f.at < blocks[k].end
    requires Runs(defined, seeds, caller) && "." + f.name in caller.calls
    ensures Runs(defined, seeds, p)
  {
    var k :| 0 <= k < |blocks| && blocks[k].start <= f.at < blocks[k].end;
    assert Encloses(blocks[k], f.at);
    assert "." + f.name in p.keys;
    var key :| key in caller.keys && Reachable(defined, seeds, key);
    CalleeIsReachable(defined, seeds, key, "." + f.name);
  }
}
