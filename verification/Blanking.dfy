/** Text in which some characters have been replaced by spaces, and the pieces of lexical
    structure that the two Rust scanners of xtask share. */
module Blanking {

  /** The character at a position, or a padding character past the end. */
  function At(s: string, k: nat): char {
    if k < |s| then s[k] else '\0'
  }

  function Spaces(n: nat): (r: string)
    ensures |r| == n && forall k :: 0 <= k < n ==> r[k] == ' '
  {
    seq(n, _ => ' ')
  }

  function BlankChar(c: char): char {
    if c == '\n' then '\n' else ' '
  }

  /** Every character but a newline becomes a space. */
  function Blank(s: string): (r: string)
    ensures |r| == |s| && forall k :: 0 <= k < |s| ==> r[k] == BlankChar(s[k])
  {
    seq(|s|, k requires 0 <= k < |s| => BlankChar(s[k]))
  }

  lemma Drop(b: string, i: nat, n: nat)
    requires i + n <= |b|
    ensures b[i..][n..] == b[i + n..]
  {
  }

  lemma AtDrop(b: string, i: nat, k: nat)
    requires i <= |b|
    ensures At(b[i..], k) == At(b, i + k)
  {
  }

  lemma Concat(a: string, b: string, c: string)
    ensures (a + b) + c == a + (b + c)
  {
  }

  lemma BlankNext(b: string, start: nat, i: nat)
    requires start <= i < |b|
    ensures Blank(b[start..i]) + [BlankChar(b[i])] == Blank(b[start..i + 1])
  {
  }

  lemma BlankSpaces(s: string)
    requires '\n' !in s
    ensures Blank(s) == Spaces(|s|)
  {
  }

  lemma BlankAppend(a: string, b: string)
    ensures Blank(a + b) == Blank(a) + Blank(b)
  {
  }

  /** How many characters come before the first newline. */
  function LineEnd(s: string): (n: nat)
    ensures n <= |s|
    ensures n < |s| ==> s[n] == '\n'
    ensures '\n' !in s[..n]
  {
    if s == [] || s[0] == '\n' then 0 else 1 + LineEnd(s[1..])
  }

  /** How many characters it takes to close `depth` nested block comments, or to run out. */
  function BlockEnd(s: string, depth: nat): (n: nat)
    ensures n <= |s|
    decreases |s|
  {
    if s == [] || depth == 0 then 0
    else if s[0] == '/' && At(s, 1) == '*' then 2 + BlockEnd(s[2..], depth + 1)
    else if s[0] == '*' && At(s, 1) == '/' then 2 + BlockEnd(s[2..], depth - 1)
    else 1 + BlockEnd(s[1..], depth)
  }

  /** How the count moves over one step of the comment that starts at `i`. */
  lemma BlockStep(b: string, i: nat, depth: nat)
    requires i < |b| && depth > 0
    ensures var opens, closes := b[i] == '/' && At(b, i + 1) == '*', b[i] == '*' && At(b, i + 1) == '/';
      && (opens || closes ==> i + 2 <= |b|)
      && BlockEnd(b[i..], depth) ==
        if opens then 2 + BlockEnd(b[i + 2..], depth + 1)
        else if closes then 2 + BlockEnd(b[i + 2..], depth - 1)
        else 1 + BlockEnd(b[i + 1..], depth)
  {
    AtDrop(b, i, 1);
    Drop(b, i, 1);
    if i + 2 <= |b| { Drop(b, i, 2); }
  }

  function Hashes(s: string): (n: nat)
    ensures n <= |s|
    ensures forall k :: 0 <= k < n ==> s[k] == '#'
    ensures At(s, n) != '#'
  {
    if s == [] || s[0] != '#' then 0 else 1 + Hashes(s[1..])
  }

  /** `s`, the text after an `r`, opens a raw string. */
  predicate OpensRaw(s: string) {
    At(s, Hashes(s)) == '"'
  }

  lemma BlankPair(b: string, start: nat, i: nat)
    requires start <= i && i + 2 <= |b| && b[i] != '\n' && b[i + 1] != '\n'
    ensures Blank(b[start..i]) + "  " == Blank(b[start..i + 2])
    ensures start == i ==> Blank(b[start..i + 2]) == "  "
  {
  }

  lemma BlockOver(s: string, depth: nat)
    requires s == [] || depth == 0
    ensures BlockEnd(s, depth) == 0
  {
  }

  lemma RawOpens(b: string, i: nat)
    requires i <= |b|
    ensures OpensRaw(b[i..]) <==> At(b, i + Hashes(b[i..])) == '"'
    ensures OpensRaw(b[i..]) ==> At(b, i) in {'"', '#'} && i + Hashes(b[i..]) < |b|
  {
    AtDrop(b, i, Hashes(b[i..]));
    AtDrop(b, i, 0);
  }

  // ---- The loops that both scanners have ----------------------------------------------

  /** A block comment is blanked up to where its depth returns to zero. */
  method BlankBlock(b: string, start: nat) returns (i: nat, out: string)
    requires start + 2 <= |b| && b[start] == '/' && b[start + 1] == '*'
    ensures i == start + 2 + BlockEnd(b[start + 2..], 1)
    ensures out == Blank(b[start..i])
  {
    hide Blank, BlockEnd;
    var depth := 1;
    BlankPair(b, start, start);
    out := "  ";
    i := start + 2;
    while i < |b| && depth > 0
      invariant start + 2 <= i <= |b| && 0 <= depth
      invariant BlockEnd(b[start + 2..], 1) == i - start - 2 + BlockEnd(b[i..], depth)
      invariant out == Blank(b[start..i])
    {
      BlockStep(b, i, depth);
      if b[i] == '/' && At(b, i + 1) == '*' {
        BlankPair(b, start, i);
        depth, out, i := depth + 1, out + "  ", i + 2;
      } else if b[i] == '*' && At(b, i + 1) == '/' {
        BlankPair(b, start, i);
        depth, out, i := depth - 1, out + "  ", i + 2;
      } else {
        BlankNext(b, start, i);
        out, i := out + [BlankChar(b[i])], i + 1;
      }
    }
    BlockOver(b[i..], depth);
  }

  method CountHashes(b: string, start: nat) returns (hashes: nat, j: nat)
    requires start <= |b|
    ensures hashes == Hashes(b[start..]) && j == start + hashes
  {
    hashes, j := 0, start;
    while j < |b| && b[j] == '#'
      invariant j == start + hashes <= |b|
      invariant Hashes(b[start..]) == hashes + Hashes(b[j..])
    {
      Drop(b, j, 1);
      hashes, j := hashes + 1, j + 1;
    }
  }
}
