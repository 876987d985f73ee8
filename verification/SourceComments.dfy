/** `strip_comments`, `line_of` and `string_literals` of xtask/src/fixtures.rs: comments are
    blanked in place and everything else, literals included, is copied. */
module SourceComments {
  import opened Blanking

  datatype Span = Span(used: nat, comment: bool)

  /** Fewer hashes than the opening has are enough when the text ends with them. */
  predicate ClosesRaw(s: string, hashes: nat) {
    At(s, 0) == '"' && forall k :: 1 <= k <= hashes && k < |s| ==> s[k] == '#'
  }

  function Min(a: nat, b: nat): nat {
    if a < b then a else b
  }

  /** How many characters follow the opening quote of a raw string, closing included. */
  function RawEnd(s: string, hashes: nat): (n: nat)
    ensures n <= |s|
  {
    if s == [] then 0
    else if ClosesRaw(s, hashes) then Min(hashes + 1, |s|)
    else 1 + RawEnd(s[1..], hashes)
  }

  /** How many characters come before the closing quote, or before the end. */
  function BodyEnd(s: string): (n: nat)
    ensures n <= |s|
    ensures n < |s| ==> s[n] == '"'
    decreases |s|
  {
    if s == [] || s[0] == '"' then 0
    else if s[0] == '\\' && |s| > 1 then 2 + BodyEnd(s[2..])
    else 1 + BodyEnd(s[1..])
  }

  /** How many characters follow the opening quote of a string, closing included. */
  function StringEnd(s: string): (n: nat)
    ensures n <= |s|
  {
    if BodyEnd(s) < |s| then BodyEnd(s) + 1 else |s|
  }

  lemma BodyStep(b: string, i: nat)
    requires i < |b|
    ensures BodyEnd(b[i..]) ==
      if b[i] == '\\' && i + 1 < |b| then 2 + BodyEnd(b[i + 2..])
      else if b[i] == '"' then 0
      else 1 + BodyEnd(b[i + 1..])
  {
    Drop(b, i, 1);
    if i + 1 < |b| { Drop(b, i, 2); }
  }

  /** How many characters up to and including the first quote, or all of them. */
  function QuoteEnd(s: string): (n: nat)
    ensures n <= |s|
  {
    if s == [] then 0 else if s[0] == '\'' then 1 else 1 + QuoteEnd(s[1..])
  }

  function Lex(s: string): (r: Span)
    requires s != []
    ensures 0 < r.used <= |s|
  {
    if s[0] == 'r' && OpensRaw(s[1..]) then
      var open := Hashes(s[1..]) + 2;
      Span(open + RawEnd(s[open..], open - 2), false)
    else if s[0] == '"' then Span(1 + StringEnd(s[1..]), false)
    else if s[0] == '\'' && |s| > 2 && s[1] == '\\' then Span(2 + QuoteEnd(s[2..]), false)
    else if s[0] == '\'' && |s| > 2 && s[2] == '\'' then Span(3, false)
    else if s[0] == '/' && At(s, 1) == '/' then Span(LineEnd(s), true)
    else if s[0] == '/' && At(s, 1) == '*' then Span(2 + BlockEnd(s[2..], 1), true)
    else Span(1, false)
  }

  function Piece(s: string): (r: string)
    requires s != []
    ensures |r| == Lex(s).used
  {
    var text := s[..Lex(s).used];
    if Lex(s).comment then Blank(text) else text
  }

  function Strip(s: string): string
    decreases |s|
  {
    if s == [] then [] else Piece(s) + Strip(s[Lex(s).used..])
  }

  // ---- The loops of strip_comments -----------------------------------------------------

  method AllHashes(b: string, k: nat, hashes: nat) returns (all: bool)
    requires k < |b| && b[k] == '"'
    ensures all == ClosesRaw(b[k..], hashes)
  {
    ghost var s := b[k..];
    for m := 1 to hashes + 1
      invariant forall n :: 1 <= n < m && n < |s| ==> s[n] == '#'
    {
      if k + m < |b| && b[k + m] != '#' {
        assert s[m] != '#';
        return false;
      }
    }
    return true;
  }

  method CopyRaw(b: string, open: nat, hashes: nat) returns (i: nat)
    requires open <= |b|
    ensures i == open + RawEnd(b[open..], hashes)
  {
    var k := open;
    while k < |b|
      invariant open <= k <= |b|
      invariant RawEnd(b[open..], hashes) == k - open + RawEnd(b[k..], hashes)
    {
      if b[k] == '"' {
        var closes := AllHashes(b, k, hashes);
        if closes {
          return Min(k + 1 + hashes, |b|);
        }
      }
      Drop(b, k, 1);
      k := k + 1;
    }
    return k;
  }

  method CopyString(b: string, open: nat) returns (i: nat)
    requires open <= |b|
    ensures i == open + StringEnd(b[open..])
  {
    hide BodyEnd;
    i := open;
    while i < |b|
      invariant open <= i <= |b|
      invariant BodyEnd(b[open..]) == i - open + BodyEnd(b[i..])
    {
      BodyStep(b, i);
      if b[i] == '\\' && i + 1 < |b| {
        i := i + 2;
      } else if b[i] == '"' {
        return i + 1;
      } else {
        i := i + 1;
      }
    }
  }

  method CopyEscapedLiteral(b: string, start: nat) returns (i: nat)
    requires start <= |b|
    ensures i == start + QuoteEnd(b[start..])
  {
    i := start;
    while i < |b| && b[i] != '\''
      invariant start <= i <= |b|
      invariant QuoteEnd(b[start..]) == i - start + QuoteEnd(b[i..])
    {
      Drop(b, i, 1);
      i := i + 1;
    }
    i := Min(i + 1, |b|);
  }

  method BlankLine(b: string, start: nat) returns (i: nat, out: string)
    requires start <= |b|
    ensures i == start + LineEnd(b[start..])
    ensures out == Blank(b[start..i])
  {
    i, out := start, [];
    while i < |b| && b[i] != '\n'
      invariant start <= i <= |b|
      invariant LineEnd(b[start..]) == i - start + LineEnd(b[i..])
      invariant out == Blank(b[start..i])
    {
      Drop(b, i, 1);
      BlankNext(b, start, i);
      out := out + " ";
      i := i + 1;
    }
  }

  /** One turn of the outer loop. */
  method LexAt(b: string, i: nat) returns (next: nat, piece: string)
    requires i < |b|
    ensures next == i + Lex(b[i..]).used && piece == Piece(b[i..])
  {
    hide Hashes, OpensRaw, RawEnd, BodyEnd, StringEnd, QuoteEnd, BlockEnd, LineEnd, Blank;
    ghost var s := b[i..];
    AtDrop(b, i, 1);
    Drop(b, i, 1);
    RawOpens(b, i + 1);
    if b[i] == 'r' && At(b, i + 1) in {'"', '#'} {
      var hashes, j := CountHashes(b, i + 1);
      if j < |b| && b[j] == '"' {
        Drop(b, i, hashes + 2);
        next := CopyRaw(b, j + 1, hashes);
        Take(b, i, next);
        return next, b[i..next];
      }
    }
    if b[i] == '"' {
      next := CopyString(b, i + 1);
      Take(b, i, next);
      return next, b[i..next];
    }
    if b[i] == '\'' && i + 2 < |b| {
      Drop(b, i, 2);
      if b[i + 1] == '\\' {
        next := CopyEscapedLiteral(b, i + 2);
        Take(b, i, next);
        return next, b[i..next];
      }
      if b[i + 2] == '\'' {
        Take(b, i, i + 3);
        return i + 3, b[i..i + 3];
      }
    }
    next, piece := BlankOrCopy(b, i);
  }

  method BlankOrCopy(b: string, i: nat) returns (next: nat, piece: string)
    requires i < |b| && NoLiteral(b[i..])
    ensures next == i + Lex(b[i..]).used && piece == Piece(b[i..])
  {
    hide BlockEnd, LineEnd, Blank, Hashes, OpensRaw;
    AtDrop(b, i, 1);
    if b[i] == '/' && At(b, i + 1) == '/' {
      next, piece := BlankLine(b, i);
    } else if b[i] == '/' && At(b, i + 1) == '*' {
      Drop(b, i, 2);
      next, piece := BlankBlock(b, i);
    } else {
      next, piece := i + 1, [b[i]];
    }
    Take(b, i, next);
  }

  /** No literal begins here. */
  predicate NoLiteral(s: string)
    requires s != []
  {
    && !(s[0] == 'r' && OpensRaw(s[1..]))
    && s[0] != '"'
    && !(s[0] == '\'' && |s| > 2 && (s[1] == '\\' || s[2] == '\''))
  }

  lemma Take(b: string, i: nat, n: nat)
    requires i <= n <= |b|
    ensures b[i..][..n - i] == b[i..n]
    ensures n == i + 1 ==> b[i..][..1] == [b[i]]
  {
  }

  method StripComments(src: string) returns (out: string)
    ensures out == Strip(src)
  {
    hide Lex, Piece;
    out := [];
    var i := 0;
    assert src[0..] == src;
    while i < |src|
      invariant 0 <= i <= |src|
      invariant Strip(src) == out + Strip(src[i..])
    {
      var next, piece := LexAt(src, i);
      Drop(src, i, next - i);
      Concat(out, piece, Strip(src[next..]));
      out := out + piece;
      i := next;
    }
  }
}
