/** `impl_blocks` and `functions_in` of xtask/src/gates.rs: the blocks and the functions of
    noise-free Rust source, found by counting braces.

    Text is indexed by character. Unicode's classification of characters is a parameter. */
module RustBlocks {
  import opened Blanking
  import opened Options

  /** Unicode's alphanumeric characters and its white space. */
  datatype Classes = Classes(alphanumeric: char -> bool, whitespace: char -> bool) {
    predicate Word(c: char) {
      alphanumeric(c) || c == '_'
    }

    /** The padding character belongs to neither class. */
    predicate Valid() {
      !alphanumeric('\0') && !whitespace('\0')
    }
  }

  // ---- Matching ------------------------------------------------------------------------

  /** Openings minus closings in `s[from..upto]`. */
  function Depth(s: string, open: char, close: char, from: nat, upto: nat): int
    requires from <= upto <= |s|
    decreases upto
  {
    if from == upto then 0
    else Depth(s, open, close, from, upto - 1)
         + (if s[upto - 1] == open then 1 else if s[upto - 1] == close then -1 else 0)
  }

  lemma {:induction false} DepthAdds(s: string, open: char, close: char, from: nat, mid: nat, upto: nat)
    requires from <= mid <= upto <= |s|
    ensures Depth(s, open, close, from, upto) == Depth(s, open, close, from, mid) + Depth(s, open, close, mid, upto)
    decreases upto
  {
    if mid < upto {
      DepthAdds(s, open, close, from, mid, upto - 1);
    }
  }

  /** `s[start..end]` is a bracketed block: never closed before `end`, and closed there unless
      the text runs out first. */
  ghost predicate IsBlock(s: string, open: char, close: char, start: nat, end: nat) {
    && start < end <= |s| && s[start] == open
    && (forall k :: start < k < end ==> Depth(s, open, close, start, k) > 0)
    && (Depth(s, open, close, start, end) == 0 || (end == |s| && Depth(s, open, close, start, end) > 0))
  }

  /** A block that closes ends with its closing bracket. */
  lemma ClosedBlockEndsWithBracket(s: string, open: char, close: char, start: nat, end: nat)
    requires open != close && IsBlock(s, open, close, start, end)
    ensures Depth(s, open, close, start, end) == 0 ==> s[end - 1] == close && start + 2 <= end
  {
    assert Depth(s, open, close, start, start + 1) == 1 + Depth(s, open, close, start, start);
    if start + 1 < end {
      assert Depth(s, open, close, start, end - 1) > 0;
    }
  }

  /** Only one end makes a block of a given start. */
  lemma BlockEndIsUnique(s: string, open: char, close: char, start: nat, end: nat, end': nat)
    requires IsBlock(s, open, close, start, end) && IsBlock(s, open, close, start, end')
    ensures end == end'
  {
  }

  /** Two blocks of one text are nested or apart. */
  lemma BlocksAreLaminar(s: string, open: char, close: char, a: nat, aEnd: nat, b: nat, bEnd: nat)
    requires IsBlock(s, open, close, a, aEnd) && IsBlock(s, open, close, b, bEnd) && a < b
    ensures aEnd <= b || bEnd <= aEnd
  {
    if b < aEnd {
      DepthAdds(s, open, close, a, b, aEnd);
    }
  }

  /** The end of the block in which `depth` brackets are open before position `j`. */
  function EndOf(s: string, open: char, close: char, j: nat, depth: nat): nat
    decreases |s| - j
  {
    if j >= |s| then |s|
    else if s[j] == open then EndOf(s, open, close, j + 1, depth + 1)
    else if s[j] == close && depth <= 1 then j + 1
    else EndOf(s, open, close, j + 1, if s[j] == close then depth - 1 else depth)
  }

  lemma {:induction false} EndOfScan(s: string, open: char, close: char, start: nat, j: nat, depth: nat)
    requires start < j <= |s| && s[start] == open && open != close
    requires depth > 0 && depth == Depth(s, open, close, start, j)
    requires forall k :: start < k < j ==> Depth(s, open, close, start, k) > 0
    ensures IsBlock(s, open, close, start, EndOf(s, open, close, j, depth))
    decreases |s| - j
  {
    if j < |s| {
      if s[j] == open {
        EndOfScan(s, open, close, start, j + 1, depth + 1);
      } else if s[j] == close && depth == 1 {
        assert Depth(s, open, close, start, j + 1) == 0;
      } else {
        EndOfScan(s, open, close, start, j + 1, if s[j] == close then depth - 1 else depth);
      }
    }
  }

  lemma EndOfIsBlock(s: string, open: char, close: char, start: nat)
    requires start < |s| && s[start] == open && open != close
    ensures IsBlock(s, open, close, start, EndOf(s, open, close, start, 0))
  {
    assert Depth(s, open, close, start, start + 1) == 1 + Depth(s, open, close, start, start);
    EndOfScan(s, open, close, start, start + 1, 1);
  }

  /** The inner loop both functions use, from an opening bracket at `start`. */
  method MatchBracket(s: string, open: char, close: char, start: nat) returns (j: nat)
    requires start < |s| && s[start] == open && open != close
    ensures j == EndOf(s, open, close, start, 0)
    ensures IsBlock(s, open, close, start, j)
  {
    EndOfIsBlock(s, open, close, start);
    j := start;
    var depth := 0;
    while j < |s|
      invariant start <= j <= |s| && 0 <= depth && (j > start ==> depth > 0)
      invariant EndOf(s, open, close, start, 0) == EndOf(s, open, close, j, depth)
    {
      if s[j] == open {
        depth := depth + 1;
      } else if s[j] == close {
        depth := depth - 1;
        if depth == 0 {
          return j + 1;
        }
      }
      j := j + 1;
    }
  }

  // ---- Words ---------------------------------------------------------------------------

  /** The first position from `j` on where `stop` holds, or the end. */
  function Seek(s: string, j: nat, stop: char -> bool): (r: nat)
    requires j <= |s|
    ensures j <= r <= |s| && (r < |s| ==> stop(s[r]))
    ensures forall k :: j <= k < r ==> !stop(s[k])
    decreases |s| - j
  {
    if j == |s| || stop(s[j]) then j else Seek(s, j + 1, stop)
  }

  method SeekFrom(s: string, start: nat, stop: char -> bool) returns (j: nat)
    requires start <= |s|
    ensures j == Seek(s, start, stop)
  {
    j := start;
    while j < |s| && !stop(s[j])
      invariant start <= j <= |s|
      invariant Seek(s, start, stop) == Seek(s, j, stop)
    {
      j := j + 1;
    }
  }

  /** The keyword `word` stands at `i`, and is no part of a longer word. */
  predicate KeywordAt(s: string, i: nat, word: string, u: Classes) {
    && i + |word| <= |s| && s[i..i + |word|] == word
    && (i == 0 || !u.Word(s[i - 1]))
    && !u.Word(At(s, i + |word|))
  }

  /** How many word characters `s` begins with. */
  function WordLength(s: string, u: Classes): (n: nat)
    ensures n <= |s|
    ensures forall k :: 0 <= k < n ==> u.Word(s[k])
    ensures n < |s| ==> !u.Word(s[n])
  {
    if s == [] || !u.Word(s[0]) then 0 else 1 + WordLength(s[1..], u)
  }

  /** The words of a text: `split_whitespace` after every other character became a space. */
  function Words(s: string, u: Classes): seq<string>
    decreases |s|
  {
    if s == [] then []
    else if !u.Word(s[0]) then Words(s[1..], u)
    else [s[..WordLength(s, u)]] + Words(s[WordLength(s, u)..], u)
  }

  function LastName(words: seq<string>): string {
    if words == [] then ""
    else if words[|words| - 1] !in {"for", "where"} then words[|words| - 1]
    else LastName(words[..|words| - 1])
  }

  /** The type an `impl` header names. */
  function HeaderName(header: string, u: Classes): string {
    LastName(Words(header, u))
  }

  // ---- impl blocks ---------------------------------------------------------------------

  datatype Block = Block(name: string, start: nat, end: nat)

  /** The opening brace that ends the header of an `impl` at `i`, or the end of the text. */
  function BraceAfter(s: string, i: nat): (q: nat)
    requires i + 4 <= |s|
    ensures i + 4 <= q <= |s| && (q < |s| ==> s[q] == '{')
  {
    Seek(s, i + 4, IsBrace)
  }

  predicate IsBrace(c: char) {
    c == '{'
  }

  /** An `impl` that has a block stands at `i`. */
  predicate ImplAt(s: string, i: nat, u: Classes) {
    KeywordAt(s, i, "impl", u) && BraceAfter(s, i) < |s|
  }

  function BlockOf(s: string, i: nat, u: Classes): Block
    requires ImplAt(s, i, u)
  {
    var q := BraceAfter(s, i);
    Block(HeaderName(s[i + 4..q], u), q, EndOf(s, '{', '}', q, 0))
  }

  function Impls(s: string, i: nat, u: Classes): seq<Block>
    decreases |s| - i
  {
    if i >= |s| then []
    else if !ImplAt(s, i, u) then Impls(s, i + 1, u)
    else
      var b := BlockOf(s, i, u);
      (if b.name != "" then [b] else []) + Impls(s, b.start + 1, u)
  }

  /** Starts strictly increase from `i` on, and every interval is a brace block. */
  ghost predicate Ordered(s: string, i: nat, blocks: seq<Block>)
    decreases |blocks|
  {
    blocks != [] ==>
      && i <= blocks[0].start && IsBlock(s, '{', '}', blocks[0].start, blocks[0].end)
      && Ordered(s, blocks[0].start + 1, blocks[1..])
  }

  /** Starts strictly increase, every interval is a brace block, and any two intervals are
      nested or apart. */
  ghost predicate Laminar(s: string, blocks: seq<Block>) {
    && (forall k :: 0 <= k < |blocks| ==> IsBlock(s, '{', '}', blocks[k].start, blocks[k].end))
    && (forall j, k :: 0 <= j < k < |blocks| ==> blocks[j].start < blocks[k].start)
    && (forall j, k :: 0 <= j < k < |blocks| ==>
      blocks[j].end <= blocks[k].start || blocks[k].end <= blocks[j].end)
  }

  /** One turn of the loop over an `impl`. */
  lemma ImplsStep(s: string, i: nat, u: Classes)
    requires ImplAt(s, i, u)
    ensures var b := BlockOf(s, i, u);
      && i < b.start < |s| && s[b.start] == '{' && b.start == BraceAfter(s, i)
      && b.end == EndOf(s, '{', '}', b.start, 0) && b.name == HeaderName(s[i + 4..b.start], u)
      && Impls(s, i, u) == (if b.name != "" then [b] else []) + Impls(s, b.start + 1, u)
  {
  }

  lemma {:induction false} ImplsInOrder(s: string, i: nat, u: Classes)
    ensures Ordered(s, i, Impls(s, i, u))
    decreases |s| - i
  {
    if i < |s| {
      if ImplAt(s, i, u) {
        ImplsStep(s, i, u);
        hide IsBlock, EndOf, HeaderName, ImplAt, BlockOf, BraceAfter, Impls;
        var b := BlockOf(s, i, u);
        var rest := Impls(s, b.start + 1, u);
        EndOfIsBlock(s, '{', '}', b.start);
        ImplsInOrder(s, b.start + 1, u);
        assert ([b] + rest)[1..] == rest && [] + rest == rest;
      } else {
        ImplsInOrder(s, i + 1, u);
      }
    }
  }

  lemma {:induction false} OrderedAt(s: string, i: nat, blocks: seq<Block>, k: nat)
    requires Ordered(s, i, blocks) && k < |blocks|
    ensures i <= blocks[k].start && IsBlock(s, '{', '}', blocks[k].start, blocks[k].end)
    decreases k
  {
    if k > 0 {
      OrderedAt(s, blocks[0].start + 1, blocks[1..], k - 1);
    }
  }

  lemma {:induction false} OrderedPair(s: string, i: nat, blocks: seq<Block>, j: nat, k: nat)
    requires Ordered(s, i, blocks) && j < k < |blocks|
    ensures blocks[j].start < blocks[k].start
    decreases j
  {
    if j == 0 {
      OrderedAt(s, blocks[0].start + 1, blocks[1..], k - 1);
    } else {
      OrderedPair(s, blocks[0].start + 1, blocks[1..], j - 1, k - 1);
    }
  }

  lemma ImplsAreLaminar(s: string, u: Classes)
    ensures Laminar(s, Impls(s, 0, u))
  {
    hide IsBlock;
    ImplsInOrder(s, 0, u);
    var blocks := Impls(s, 0, u);
    forall k | 0 <= k < |blocks|
      ensures IsBlock(s, '{', '}', blocks[k].start, blocks[k].end)
    {
      OrderedAt(s, 0, blocks, k);
    }
    forall j, k | 0 <= j < k < |blocks|
      ensures blocks[j].start < blocks[k].start
      ensures blocks[j].end <= blocks[k].start || blocks[k].end <= blocks[j].end
    {
      OrderedPair(s, 0, blocks, j, k);
      BlocksAreLaminar(s, '{', '}', blocks[j].start, blocks[j].end, blocks[k].start, blocks[k].end);
    }
  }

  /** Every `impl` with a block is found, unless an `impl` in the same header stands before it
      and speaks for the block, or the header names nothing. */
  lemma {:induction false} EveryImplIsFound(s: string, i: nat, h: nat, u: Classes) returns (first: nat)
    requires i <= h && ImplAt(s, h, u)
    ensures i <= first <= h && ImplAt(s, first, u) && BraceAfter(s, first) == BraceAfter(s, h)
    ensures BlockOf(s, first, u).name != "" ==> BlockOf(s, first, u) in Impls(s, i, u)
    decreases |s| - i
  {
    hide EndOf, KeywordAt, HeaderName;
    if !ImplAt(s, i, u) {
      first := EveryImplIsFound(s, i + 1, h, u);
    } else {
      var q := BraceAfter(s, i);
      if h <= q {
        HeaderBefore(s, i, h, u);
        first := i;
      } else {
        first := EveryImplIsFound(s, q + 1, h, u);
      }
    }
  }

  lemma HeaderBefore(s: string, i: nat, h: nat, u: Classes)
    requires ImplAt(s, i, u) && ImplAt(s, h, u) && i <= h <= BraceAfter(s, i)
    ensures BraceAfter(s, h) == BraceAfter(s, i)
  {
    SameHeader(s, i, h);
  }

  lemma SameHeader(s: string, i: nat, h: nat)
    requires i + 4 <= |s| && i <= h <= BraceAfter(s, i) < |s| && h + 4 <= |s| && s[h..h + 4] == "impl"
    ensures BraceAfter(s, h) == BraceAfter(s, i)
  {
    assert forall k :: 0 <= k < 4 ==> s[h + k] == "impl"[k];
    assert forall k :: i + 4 <= k < BraceAfter(s, i) ==> s[k] != '{';
    assert forall k :: h + 4 <= k < BraceAfter(s, h) ==> s[k] != '{';
  }

  /** Only `impl` blocks are found, under the name of their header. */
  lemma {:induction false} OnlyImplsAreFound(s: string, i: nat, b: Block, u: Classes) returns (h: nat)
    requires b in Impls(s, i, u)
    ensures i <= h && ImplAt(s, h, u) && b == BlockOf(s, h, u) && b.name != ""
    ensures forall m: nat :: i <= m < h && ImplAt(s, m, u) ==> BraceAfter(s, m) < BraceAfter(s, h)
    decreases |s| - i
  {
    hide EndOf, KeywordAt, HeaderName;
    if !ImplAt(s, i, u) {
      h := OnlyImplsAreFound(s, i + 1, b, u);
    } else if b == BlockOf(s, i, u) && b.name != "" {
      h := i;
    } else {
      h := OnlyImplsAreFound(s, BraceAfter(s, i) + 1, b, u);
      forall m: nat | i <= m <= BraceAfter(s, i) && ImplAt(s, m, u)
        ensures BraceAfter(s, m) == BraceAfter(s, i)
      {
        HeaderBefore(s, i, m, u);
      }
    }
  }

  /** The first `impl` of its header. */
  ghost predicate Leads(s: string, h: nat, u: Classes) {
    ImplAt(s, h, u) && forall m: nat :: m < h && ImplAt(s, m, u) ==> BraceAfter(s, m) != BraceAfter(s, h)
  }

  /** `b` is the block of an `impl` that leads its header and stands at an item. */
  ghost predicate IsItem(s: string, b: Block, u: Classes, item: nat -> bool) {
    exists h: nat :: Leads(s, h, u) && item(h) && b == BlockOf(s, h, u)
  }

  /** Every `impl` counts, in whatever position. For any notion of where an item can begin, the
      blocks reported are those of items exactly when every `impl` that leads a header with a
      name in it stands where an item can begin. */
  lemma OnlyItemsExactly(s: string, u: Classes, item: nat -> bool)
    ensures (forall b :: b in Impls(s, 0, u) ==> IsItem(s, b, u, item)) <==>
      forall h: nat :: Leads(s, h, u) && BlockOf(s, h, u).name != "" ==> item(h)
  {
    hide EndOf, KeywordAt, HeaderName, Impls;
    assert forall g, h: nat :: Leads(s, g, u) && Leads(s, h, u) && BlockOf(s, g, u) == BlockOf(s, h, u) ==> g == h;
    hide ImplAt, BlockOf, BraceAfter;
    forall h: nat | Leads(s, h, u) && BlockOf(s, h, u).name != ""
      ensures BlockOf(s, h, u) in Impls(s, 0, u)
      ensures IsItem(s, BlockOf(s, h, u), u, item) <==> item(h)
    {
      var first := EveryImplIsFound(s, 0, h, u);
    }
    forall b | b in Impls(s, 0, u)
      ensures exists h: nat :: Leads(s, h, u) && b == BlockOf(s, h, u) && b.name != ""
    {
      var h := OnlyImplsAreFound(s, 0, b, u);
      assert Leads(s, h, u);
    }
  }

  method ImplBlocks(s: string, u: Classes) returns (out: seq<Block>)
    ensures out == Impls(s, 0, u) && Laminar(s, out)
  {
    hide EndOf, IsBlock, HeaderName, Laminar, KeywordAt;
    out := [];
    var i := 0;
    while i < |s|
      invariant 0 <= i
      invariant Impls(s, 0, u) == out + Impls(s, i, u)
    {
      var b := ReadImpl(s, i, u);
      if b.Some? {
        ImplsStep(s, i, u);
        hide BlockOf;
        if b.value.name != "" {
          out := out + [b.value];
        }
        i := b.value.start + 1;
      } else {
        i := i + 1;
      }
    }
    ImplsAreLaminar(s, u);
  }

  /** The block of the `impl` at `i`, if one stands there. */
  method ReadImpl(s: string, i: nat, u: Classes) returns (b: Option<Block>)
    ensures b == if ImplAt(s, i, u) then Some(BlockOf(s, i, u)) else None
  {
    if KeywordAt(s, i, "impl", u) {
      var start := SeekFrom(s, i + 4, IsBrace);
      if start < |s| {
        var end := MatchBracket(s, '{', '}', start);
        return Some(Block(HeaderName(s[i + 4..start], u), start, end));
      }
    }
    return None;
  }

  lemma {:induction false} WordLengthBefore(a: string, b: string, u: Classes)
    requires b != [] && !u.Word(b[0])
    ensures WordLength(a + b, u) == WordLength(a, u)
  {
    if a == [] {
      assert a + b == b;
    } else {
      assert (a + b)[1..] == a[1..] + b;
      WordLengthBefore(a[1..], b, u);
    }
  }

  lemma {:induction false} WordsSplit(a: string, b: string, u: Classes)
    requires b != [] && !u.Word(b[0])
    ensures Words(a + b, u) == Words(a, u) + Words(b, u)
    decreases |a|
  {
    if a == [] {
      assert a + b == b;
    } else if !u.Word(a[0]) {
      assert (a + b)[1..] == a[1..] + b;
      WordsSplit(a[1..], b, u);
    } else {
      var n := WordLength(a, u);
      WordLengthBefore(a, b, u);
      assert (a + b)[..n] == a[..n] && (a + b)[n..] == a[n..] + b;
      WordsSplit(a[n..], b, u);
    }
  }

  /** `word` is one word. */
  predicate IsWord(word: string, u: Classes) {
    word != [] && forall k :: 0 <= k < |word| ==> u.Word(word[k])
  }

  lemma {:induction false} OneWord(word: string, u: Classes)
    requires forall k :: 0 <= k < |word| ==> u.Word(word[k])
    ensures WordLength(word, u) == |word|
    ensures word != [] ==> Words(word, u) == [word]
  {
    if word != [] {
      OneWord(word[1..], u);
      assert word[|word|..] == [] && word[..|word|] == word;
    }
  }

  lemma {:induction false} WordsAreWords(s: string, u: Classes)
    ensures "" !in Words(s, u)
    decreases |s|
  {
    if s != [] {
      WordsAreWords(if u.Word(s[0]) then s[WordLength(s, u)..] else s[1..], u);
    }
  }

  lemma {:induction false} LastNameAppend(a: seq<string>, b: seq<string>)
    requires "" !in b
    ensures LastName(a + b) == if LastName(b) == "" then LastName(a) else LastName(b)
  {
    if b == [] {
      assert a + b == a;
    } else {
      var front := b[..|b| - 1];
      assert b == front + [b[|b| - 1]] && b[|b| - 1] in b;
      assert (a + b)[..|a + b| - 1] == a + front;
      LastNameAppend(a, front);
    }
  }

  lemma HeaderWords(header: string, t: string, args: string, u: Classes)
    requires IsWord(t, u) && !u.Word('<') && !u.Word('>') && !u.Word(' ')
    ensures Words(header + (" " + (t + ("<" + (args + "> ")))), u) == Words(header, u) + ([t] + Words(args, u))
  {
    assert Words("", u) == [];
    hide Words, WordLength;
    var tail, close := "<" + (args + "> "), "> ";
    WordsSplit(header, " " + (t + tail), u);
    WordsSplit(t, tail, u);
    OneWord(t, u);
    WordsSplit(args, close, u);
    SkipsOne(' ', t + tail, u);
    SkipsOne('<', args + close, u);
    SkipsOne('>', " ", u);
    SkipsOne(' ', "", u);
    assert [' '] + "" == " " && ['>'] + " " == close;
    assert Words(args, u) + [] == Words(args, u);
  }

  lemma SkipsOne(c: char, s: string, u: Classes)
    requires !u.Word(c)
    ensures Words([c] + s, u) == Words(s, u)
  {
    assert ([c] + s)[1..] == s;
  }

  /** The documentation reads `impl Trait for T<R>` as an `impl` of `T`. Generic arguments are
      not discarded: the last name among them is taken, and `T` only when they name nothing. */
  lemma GenericArgumentIsTaken(header: string, t: string, args: string, u: Classes)
    requires IsWord(t, u) && t != "for" && t != "where"
    requires !u.Word('<') && !u.Word('>') && !u.Word(' ')
    ensures HeaderName(header + (" " + (t + ("<" + (args + "> ")))), u) ==
      if HeaderName(args, u) == "" then t else HeaderName(args, u)
  {
    HeaderWords(header, t, args, u);
    WordsAreWords(args, u);
    LastNameAppend([t], Words(args, u));
    LastNameAppend(Words(header, u), [t] + Words(args, u));
    assert LastName([t]) == t;
  }

  /** The block that `impl Trait for T<R> {` begins is filed under `R`. */
  lemma ImplOfGenericType(s: string, u: Classes)
    requires s == "impl Trait for T<R> {}" && (forall c :: c in {'f', 'o', 'r', 'T', 'R'} ==> u.Word(c))
    requires forall c :: c in {'<', '>', ' ', '{', '}'} ==> !u.Word(c)
    ensures ImplAt(s, 0, u) && BlockOf(s, 0, u).name == "R"
  {
    hide HeaderName, EndOf, Classes.Word;
    assert s[0..4] == "impl" && s[4] == ' ' && s[20] == '{' && |s| == 22;
    BraceAt(s, 0, 20);
    assert s[4..20] == " Trait for" + (" " + ("T" + ("<" + ("R" + "> "))));
    GenericArgumentIsTaken(" Trait for", "T", "R", u);
    SingleWord("R", u);
  }

  lemma BraceAt(s: string, i: nat, q: nat)
    requires i + 4 <= q < |s| && s[q] == '{' && forall k :: i + 4 <= k < q ==> s[k] != '{'
    ensures BraceAfter(s, i) == q
  {
  }

  lemma SingleWord(word: string, u: Classes)
    requires IsWord(word, u) && word != "for" && word != "where"
    ensures HeaderName(word, u) == word
  {
    OneWord(word, u);
    assert LastName([word]) == word;
  }

  /** An `impl` in type position counts too: the body of this function is reported as an `impl`
      block of `T`. */
  lemma TypePositionImplIsReported(s: string, u: Classes)
    requires s == "fn f(g:impl A)->T{}" && u.Word('A') && u.Word('T')
    requires forall c :: c in {':', ' ', ')', '-', '>', '{', '}'} ==> !u.Word(c)
    ensures Block("T", 17, 19) in Impls(s, 0, u)
  {
    hide HeaderName, EndOf, Impls, Classes.Word;
    assert |s| == 19 && s[6] == ':' && s[11] == ' ' && s[17] == '{' && s[18] == '}';
    assert s[7..11] == "impl";
    BracePair(s, 17);
    BraceAt(s, 7, 17);
    assert s[11..17] == " A)->T";
    TypePositionHeader(u);
    var first := EveryImplIsFound(s, 0, 7, u);
    OnlyStartsWithI(s, first);
  }

  lemma OnlyStartsWithI(s: string, k: nat)
    requires s == "fn f(g:impl A)->T{}" && k <= 7 && s[k..k + 4] == "impl"
    ensures k == 7
  {
    assert s[k] == s[k..k + 4][0] == 'i';
  }

  lemma BracePair(s: string, k: nat)
    requires k + 2 <= |s| && s[k] == '{' && s[k + 1] == '}'
    ensures EndOf(s, '{', '}', k, 0) == k + 2
  {
    assert EndOf(s, '{', '}', k, 0) == EndOf(s, '{', '}', k + 1, 1);
  }

  lemma TypePositionHeader(u: Classes)
    requires u.Word('A') && u.Word('T') && !u.Word(' ') && !u.Word(')') && !u.Word('-') && !u.Word('>')
    ensures HeaderName(" A)->T", u) == "T"
  {
    assert [' '] + ("A" + ")->T") == " A)->T" && [')'] + "->T" == ")->T";
    assert ['-'] + ">T" == "->T" && ['>'] + "T" == ">T";
    hide Words, WordLength;
    SkipsOne(' ', "A" + ")->T", u);
    WordsSplit("A", ")->T", u);
    SkipsOne(')', "->T", u);
    SkipsOne('-', ">T", u);
    SkipsOne('>', "T", u);
    OneWord("A", u);
    OneWord("T", u);
    assert ["A"] + ["T"] == ["A", "T"];
  }

  /** A count of brackets is at most as large as the text it is taken over: on any text of
      fewer than 2^31 characters the 32-bit counter of the source never saturates. */
  lemma {:induction false} DepthFits(s: string, open: char, close: char, from: nat, upto: nat)
    requires from <= upto <= |s|
    ensures -(upto - from) <= Depth(s, open, close, from, upto) <= upto - from
    decreases upto
  {
    if from < upto {
      DepthFits(s, open, close, from, upto - 1);
    }
  }

  // ---- Words and headers, in terms of characters ---------------------------------------

  /** `s[a..b]` is a word: letters, digits and underscores, with none of them next to it. */
  ghost predicate WordRun(s: string, a: nat, b: nat, u: Classes) {
    && a < b <= |s|
    && (forall k :: a <= k < b ==> u.alphanumeric(s[k]) || s[k] == '_')
    && (a > 0 ==> !u.alphanumeric(s[a - 1]) && s[a - 1] != '_')
    && (b < |s| ==> !u.alphanumeric(s[b]) && s[b] != '_')
  }

  /** A keyword is a word of the text. */
  lemma KeywordIsWord(s: string, i: nat, word: string, u: Classes)
    requires u.Valid() && IsWord(word, u)
    ensures KeywordAt(s, i, word, u) <==> WordRun(s, i, i + |word|, u) && s[i..i + |word|] == word
  {
    assert i + |word| <= |s| && s[i..i + |word|] == word ==>
      forall k :: i <= k < i + |word| ==> s[k] == word[k - i];
  }

  /** No run but those of `for` and `where` begins behind position `a`. */
  ghost predicate NoNameBehind(s: string, a: int, u: Classes) {
    forall c: nat, d: nat :: a < c && WordRun(s, c, d, u) ==> s[c..d] in {"for", "where"}
  }

  /** Behind a gap, or from its start, a text has the runs it has on its own. */
  lemma NoNameShift(s: string, n: nat, a: int, u: Classes)
    requires 0 < n <= |s| && -1 <= a && NoNameBehind(s[n..], a, u)
    requires n < |s| ==> !u.Word(s[n]) || !u.Word(s[n - 1])
    ensures NoNameBehind(s, a + n, u)
  {
    forall c: nat, d: nat | a + n < c && WordRun(s, c, d, u)
      ensures s[c..d] in {"for", "where"}
    {
      RunShift(s, n, c - n, d - n, u);
      assert s[n..][c - n..d - n] == s[c..d];
    }
  }

  lemma RunShift(s: string, n: nat, c: nat, d: nat, u: Classes)
    requires 0 < n <= |s|
    requires n < |s| ==> !u.Word(s[n]) || !u.Word(s[n - 1])
    ensures WordRun(s[n..], c, d, u) <==> WordRun(s, c + n, d + n, u)
  {
    if c < d && d + n <= |s| {
      assert forall k :: 0 <= k < |s| - n ==> s[n..][k] == s[k + n];
      assert forall k :: c + n <= k < d + n ==> s[k] == s[n..][k - n];
    }
  }

  /** The runs that begin in the word a text begins with. */
  lemma RunsInFirstWord(s: string, c: nat, d: nat, u: Classes)
    requires WordRun(s, c, d, u) && c < WordLength(s, u)
    ensures c == 0 && d == WordLength(s, u)
  {
    assert c > 0 ==> u.Word(s[c - 1]);
  }

  /** `name` stands at `s[a..b]`, the last word that is not `for` or `where`; it is empty when
      there is none. */
  ghost predicate LastWordIs(s: string, name: string, a: nat, b: nat, u: Classes) {
    if name == "" then NoNameBehind(s, -1, u)
    else
      && WordRun(s, a, b, u) && s[a..b] == name && name !in {"for", "where"}
      && NoNameBehind(s, a, u)
  }

  lemma LastWordShift(s: string, n: nat, name: string, a: nat, b: nat, u: Classes)
    requires 0 < n <= |s| && name != "" && LastWordIs(s[n..], name, a, b, u)
    requires n < |s| ==> !u.Word(s[n]) || !u.Word(s[n - 1])
    ensures LastWordIs(s, name, a + n, b + n, u)
  {
    NoNameShift(s, n, a, u);
    RunShift(s, n, a, b, u);
    assert s[n..][a..b] == s[a + n..b + n];
  }

  lemma FirstWordNames(s: string, u: Classes)
    requires s != [] && u.Word(s[0]) && NoNameBehind(s[WordLength(s, u)..], -1, u)
    ensures LastWordIs(s, LastName([s[..WordLength(s, u)]]), 0, WordLength(s, u), u)
  {
    var n := WordLength(s, u);
    NoNameShift(s, n, -1, u);
    forall c: nat, d: nat | c < n && WordRun(s, c, d, u)
      ensures c == 0 && d == n
    {
      RunsInFirstWord(s, c, d, u);
    }
    assert s[0..n] == s[..n] && LastName([]) == "";
  }

  lemma GapNames(s: string, u: Classes)
    requires s != [] && !u.Word(s[0])
    ensures HeaderName(s, u) == HeaderName(s[1..], u)
    ensures NoNameBehind(s[1..], -1, u) ==> NoNameBehind(s, -1, u)
  {
    if NoNameBehind(s[1..], -1, u) {
      NoNameShift(s, 1, -1, u);
    }
  }

  lemma NameAfterWord(s: string, u: Classes)
    requires s != [] && u.Word(s[0])
    ensures var n := WordLength(s, u);
      HeaderName(s, u) == if HeaderName(s[n..], u) == "" then LastName([s[..n]]) else HeaderName(s[n..], u)
  {
    var n := WordLength(s, u);
    WordsAreWords(s[n..], u);
    LastNameAppend([s[..n]], Words(s[n..], u));
  }

  lemma NoWords(u: Classes)
    ensures LastWordIs("", HeaderName("", u), 0, 0, u)
  {
  }

  /** The name of a header is its last word that is not `for` or `where`. */
  lemma {:induction false} HeaderNameIsLastWord(header: string, u: Classes) returns (a: nat, b: nat)
    ensures LastWordIs(header, HeaderName(header, u), a, b, u)
    decreases |header|
  {
    hide WordRun, NoNameBehind, HeaderName, LastName;
    a, b := 0, 0;
    if header == [] {
      NoWords(u);
    } else {
      var n := if u.Word(header[0]) then WordLength(header, u) else 1;
      a, b := HeaderNameIsLastWord(header[n..], u);
      if u.Word(header[0]) {
        NameAfterWord(header, u);
      } else {
        GapNames(header, u);
      }
      if HeaderName(header[n..], u) != "" {
        LastWordShift(header, n, HeaderName(header[n..], u), a, b, u);
        a, b := a + n, b + n;
      } else if u.Word(header[0]) {
        FirstWordNames(header, u);
        a, b := 0, n;
      }
    }
  }

  /** An `impl` is the word `impl` with a brace somewhere behind it. Its block runs from the first
      such brace to where the braces balance, and its name is that of the text between. */
  lemma ImplReads(s: string, i: nat, q: nat, u: Classes) returns (a: nat, b: nat)
    requires u.Valid() && u.alphanumeric('i') && u.alphanumeric('m') && u.alphanumeric('p') && u.alphanumeric('l')
    requires i + 4 <= q <= |s| && (q < |s| ==> s[q] == '{') && forall k :: i + 4 <= k < q ==> s[k] != '{'
    ensures ImplAt(s, i, u) <==> q < |s| && WordRun(s, i, i + 4, u) && s[i..i + 4] == "impl"
    ensures ImplAt(s, i, u) ==>
      BlockOf(s, i, u).start == q && IsBlock(s, '{', '}', q, BlockOf(s, i, u).end)
    ensures ImplAt(s, i, u) ==> LastWordIs(s[i + 4..q], BlockOf(s, i, u).name, a, b, u)
  {
    hide EndOf, IsBlock, HeaderName, LastWordIs, KeywordAt, WordRun;
    var keyword := "impl";
    assert keyword == ['i', 'm', 'p', 'l'];
    KeywordIsWord(s, i, keyword, u);
    if q < |s| {
      EndOfIsBlock(s, '{', '}', q);
    }
    a, b := HeaderNameIsLastWord(s[i + 4..q], u);
  }
}
