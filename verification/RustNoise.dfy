/** `strip_rust_noise` of xtask/src/gates.rs: Rust source with comments, string literals and
    character literals blanked in place.

    `Strip` is what the loop computes. The results are: what can appear at each position, when
    the length and the line breaks are kept, that stripping twice is stripping once on every
    text, and that on a text derived from tokens exactly the noise is blanked. */
module RustNoise {
  import opened Blanking
  import opened Options

  /** What one turn of the outer loop consumes and pushes. */
  datatype Step = Step(used: nat, out: string)

  /** The closing quote of a raw string is followed by as many hashes as its opening. */
  predicate ClosesRaw(s: string, hashes: nat) {
    At(s, 0) == '"' && forall k :: 1 <= k <= hashes ==> At(s, k) == '#'
  }

  /** How many characters follow the opening quote of a raw string, closing included. */
  function RawEnd(s: string, hashes: nat): (n: nat)
    ensures n <= |s|
  {
    if s == [] then 0
    else if ClosesRaw(s, hashes) then assert At(s, hashes) != '\0'; hashes + 1
    else 1 + RawEnd(s[1..], hashes)
  }

  /** An ordinary string after its opening quote. A missing closing quote, and a missing
      escaped character, are pushed all the same. */
  function StringBody(s: string): (r: Step)
    ensures r.used <= |s|
    decreases |s|
  {
    if s == [] then Step(0, " ")
    else if s[0] == '"' then Step(1, " ")
    else if s[0] != '\\' then
      var r := StringBody(s[1..]);
      Step(r.used + 1, [BlankChar(s[0])] + r.out)
    else if |s| == 1 then Step(1, "   ")
    else
      var r := StringBody(s[2..]);
      Step(r.used + 2, [' ', BlankChar(s[1])] + r.out)
  }

  /** The first quote among positions `k..8` of a literal that starts with a backslash. */
  function EscapeClose(s: string, k: nat): (close: Option<nat>)
    requires k <= 8
    ensures close.Some? ==> k <= close.value < 8 && At(s, close.value) == '\''
    ensures forall m :: k <= m < (if close.Some? then close.value else 8) ==> At(s, m) != '\''
    decreases 8 - k
  {
    if k == 8 then None else if At(s, k) == '\'' then Some(k) else EscapeClose(s, k + 1)
  }

  /** Where the character literal opened by the quote at the head of `s` closes. */
  function LiteralClose(s: string): (close: Option<nat>)
    ensures close.Some? ==> 2 <= close.value < |s| && s[close.value] == '\''
  {
    if At(s, 1) == '\\' then EscapeClose(s, 2)
    else if At(s, 2) == '\'' then Some(2)
    else None
  }

  function Lex(s: string): (r: Step)
    requires s != []
    ensures 0 < r.used <= |s|
  {
    if s[0] == '/' && At(s, 1) == '/' then Step(LineEnd(s), Spaces(LineEnd(s)))
    else if s[0] == '/' && At(s, 1) == '*' then
      var n := 2 + BlockEnd(s[2..], 1);
      Step(n, Blank(s[..n]))
    else if s[0] == 'r' && OpensRaw(s[1..]) then
      var open := Hashes(s[1..]) + 2;
      var n := open + RawEnd(s[open..], open - 2);
      Step(n, Blank(s[..n]))
    else if s[0] == '"' then
      var body := StringBody(s[1..]);
      Step(1 + body.used, " " + body.out)
    else if s[0] == '\'' && LiteralClose(s).Some? then
      var n := LiteralClose(s).value + 1;
      Step(n, Spaces(n))
    else Step(1, [s[0]])
  }

  function Strip(s: string): string
    decreases |s|
  {
    if s == [] then [] else Lex(s).out + Strip(s[Lex(s).used..])
  }

  // ---- The loops of the source ---------------------------------------------------------

  method SkipLine(b: string, start: nat) returns (i: nat, out: string)
    requires start < |b|
    ensures i == start + LineEnd(b[start..])
    ensures out == Spaces(i - start)
  {
    i, out := start, [];
    while i < |b| && b[i] != '\n'
      invariant start <= i <= |b|
      invariant LineEnd(b[start..]) == i - start + LineEnd(b[i..])
      invariant out == Spaces(i - start)
    {
      out := out + " ";
      i := i + 1;
    }
  }

  method AllHashes(b: string, i: nat, hashes: nat) returns (all: bool)
    requires i < |b| && b[i] == '"'
    ensures all == ClosesRaw(b[i..], hashes)
  {
    for k := 1 to hashes + 1
      invariant forall m :: 1 <= m < k ==> At(b[i..], m) == '#'
    {
      AtDrop(b, i, k);
      if At(b, i + k) != '#' {
        return false;
      }
    }
    return true;
  }

  /** The body of a raw string from its opening quote at `open - 1`. */
  method SkipRaw(b: string, open: nat, hashes: nat) returns (i: nat, out: string)
    requires open <= |b|
    ensures i == open + RawEnd(b[open..], hashes)
    ensures out == Blank(b[open..i])
  {
    hide Blank;
    out := [];
    i := open;
    assert Blank(b[open..open]) == [];
    while i < |b|
      invariant open <= i <= |b|
      invariant RawEnd(b[open..], hashes) == i - open + RawEnd(b[i..], hashes)
      invariant out == Blank(b[open..i])
    {
      var closes := false;
      if b[i] == '"' {
        closes := AllHashes(b, i, hashes);
      }
      if closes {
        BlankClosing(b, open, i, hashes);
        out := out + Spaces(hashes + 1);
        i := i + hashes + 1;
        break;
      }
      Drop(b, i, 1);
      BlankNext(b, open, i);
      out := out + [BlankChar(b[i])];
      i := i + 1;
    }
  }

  lemma BlankClosing(b: string, open: nat, i: nat, hashes: nat)
    requires open <= i < |b| && ClosesRaw(b[i..], hashes)
    ensures RawEnd(b[i..], hashes) == hashes + 1 && i + hashes < |b|
    ensures Blank(b[open..i]) + Spaces(hashes + 1) == Blank(b[open..i + hashes + 1])
  {
    assert At(b[i..], hashes) != '\0';
    var closing := b[i..][..hashes + 1];
    assert forall k :: 0 <= k <= hashes ==> closing[k] == At(b[i..], k);
    BlankSpaces(closing);
    assert b[open..i + hashes + 1] == b[open..i] + closing;
    BlankAppend(b[open..i], closing);
  }

  /** The body of an ordinary string; `i` stops one short of where the source's index ends
      when a quote or an escaped character is missing, so that it stays within the text. */
  method SkipString(b: string, open: nat) returns (i: nat, out: string)
    requires open <= |b|
    ensures i == open + StringBody(b[open..]).used
    ensures out == StringBody(b[open..]).out
  {
    hide StringBody;
    out := [];
    i := open;
    while i < |b| && b[i] != '"'
      invariant open <= i <= |b|
      invariant StringBody(b[open..]).used == i - open + StringBody(b[i..]).used
      invariant StringBody(b[open..]).out == out + StringBody(b[i..]).out
    {
      StringStep(b, i);
      if b[i] != '\\' {
        Concat(out, [BlankChar(b[i])], StringBody(b[i + 1..]).out);
        out := out + [BlankChar(b[i])];
        i := i + 1;
      } else if i + 1 == |b| {
        return |b|, out + "   ";
      } else {
        Concat(out, [' ', BlankChar(b[i + 1])], StringBody(b[i + 2..]).out);
        out := out + [' ', BlankChar(b[i + 1])];
        i := i + 2;
      }
    }
    StringStep(b, i);
    out := out + " ";
    i := if i < |b| then i + 1 else i;
  }

  lemma StringStep(b: string, i: nat)
    requires i <= |b|
    ensures StringBody(b[i..]) ==
      if i == |b| then Step(0, " ")
      else if b[i] == '"' then Step(1, " ")
      else if b[i] != '\\' then
        Step(StringBody(b[i + 1..]).used + 1, [BlankChar(b[i])] + StringBody(b[i + 1..]).out)
      else if i + 1 == |b| then Step(1, "   ")
      else Step(StringBody(b[i + 2..]).used + 2, [' ', BlankChar(b[i + 1])] + StringBody(b[i + 2..]).out)
  {
    if i < |b| { Drop(b, i, 1); }
    if i + 1 < |b| { Drop(b, i, 2); }
  }

  method FindClose(b: string, i: nat) returns (close: Option<nat>)
    requires i < |b|
    ensures close == LiteralClose(b[i..])
  {
    assert forall k :: At(b[i..], k) == At(b, i + k);
    if At(b, i + 1) == '\\' {
      for k := 2 to 8
        invariant EscapeClose(b[i..], 2) == EscapeClose(b[i..], k)
      {
        if At(b, i + k) == '\'' {
          return Some(k);
        }
      }
      return None;
    } else if At(b, i + 2) == '\'' {
      return Some(2);
    }
    return None;
  }

  method StripRustNoise(text: string) returns (out: string)
    ensures out == Strip(text)
  {
    hide Lex;
    out := [];
    var i := 0;
    assert text[0..] == text;
    while i < |text|
      invariant 0 <= i <= |text|
      invariant Strip(text) == out + Strip(text[i..])
    {
      var next, piece := LexAt(text, i);
      Drop(text, i, next - i);
      Concat(out, piece, Strip(text[next..]));
      out := out + piece;
      i := next;
    }
  }

  method LexAt(text: string, i: nat) returns (next: nat, piece: string)
    requires i < |text|
    ensures next == i + Lex(text[i..]).used && piece == Lex(text[i..]).out
  {
    hide Hashes, OpensRaw, RawEnd, BlockEnd, StringBody, LiteralClose, LineEnd, Blank, Spaces;
    var c := text[i];
    AtDrop(text, i, 1);
    if c == '/' && At(text, i + 1) == '/' {
      next, piece := SkipLine(text, i);
      return;
    }
    if c == '/' && At(text, i + 1) == '*' {
      Drop(text, i, 2);
      next, piece := BlankBlock(text, i);
      assert text[i..][..next - i] == text[i..next];
      return;
    }
    next, piece := LexNotComment(text, i);
  }

  method LexNotComment(text: string, i: nat) returns (next: nat, piece: string)
    requires i < |text| && !(text[i] == '/' && At(text[i..], 1) in {'/', '*'})
    ensures next == i + Lex(text[i..]).used && piece == Lex(text[i..]).out
  {
    hide Hashes, OpensRaw, RawEnd, Blank, Spaces;
    Drop(text, i, 1);
    RawOpens(text, i + 1);
    if text[i] == 'r' && (At(text, i + 1) == '"' || At(text, i + 1) == '#') {
      var hashes, quote := CountHashes(text, i + 1);
      if At(text, quote) == '"' {
        next, piece := SkipRaw(text, i + hashes + 2, hashes);
        Drop(text, i, hashes + 2);
        RawOpening(text, i, hashes, next);
        piece := Spaces(hashes + 2) + piece;
        return;
      }
    }
    next, piece := LexQuoteOrCode(text, i);
  }

  method LexQuoteOrCode(text: string, i: nat) returns (next: nat, piece: string)
    requires i < |text|
    requires !(text[i] == '/' && At(text[i..], 1) in {'/', '*'})
    requires !(text[i] == 'r' && OpensRaw(text[i..][1..]))
    ensures next == i + Lex(text[i..]).used && piece == Lex(text[i..]).out
  {
    hide OpensRaw, StringBody, LiteralClose, Spaces;
    var c := text[i];
    Drop(text, i, 1);
    if c == '"' {
      next, piece := SkipString(text, i + 1);
      piece := " " + piece;
      return;
    }
    if c == '\'' {
      var close := FindClose(text, i);
      if close.Some? {
        return i + close.value + 1, Spaces(close.value + 1);
      }
    }
    return i + 1, [c];
  }

  lemma RawOpening(b: string, i: nat, hashes: nat, end: nat)
    requires i < |b| && b[i] == 'r' && hashes == Hashes(b[i + 1..]) && OpensRaw(b[i + 1..])
    requires i + hashes + 2 <= end <= |b|
    ensures Spaces(hashes + 2) + Blank(b[i + hashes + 2..end]) == Blank(b[i..][..end - i])
  {
    var s, t := b[i..], b[i + 1..];
    var opening := s[..hashes + 2];
    assert t[hashes] == '"' && forall k :: 0 <= k < hashes ==> t[k] == '#';
    hide Hashes, OpensRaw;
    assert forall k :: 1 <= k <= hashes + 1 ==> opening[k] == t[k - 1];
    BlankSpaces(opening);
    assert s[..end - i] == opening + b[i + hashes + 2..end];
    BlankAppend(opening, b[i + hashes + 2..end]);
  }
}
