/** What `strip_rust_noise` (xtask/src/gates.rs) guarantees on every text, well formed or not. */
module RustNoiseLaws {
  import opened Blanking
  import opened Options
  import opened RustNoise

  /** A comment, a string, a raw string or a character literal begins at the head of `s`. */
  predicate NoiseStarts(s: string) {
    || (At(s, 0) == '/' && At(s, 1) in {'/', '*'})
    || (At(s, 0) == 'r' && OpensRaw(s[1..]))
    || At(s, 0) == '"'
    || (At(s, 0) == '\'' && LiteralClose(s).Some?)
  }

  predicate IsBlank(c: char) {
    c == ' ' || c == '\n'
  }

  /** The text after an opening quote has a closing one that no backslash escapes. */
  predicate Closes(body: string) {
    body != [] &&
    (body[0] == '"' || Closes(if body[0] == '\\' && |body| > 1 then body[2..] else body[1..]))
  }

  /** Reading `s` token by token, every ordinary string met is closed. */
  predicate StringsClosed(s: string)
    decreases |s|
  {
    s == [] || ((s[0] == '"' ==> Closes(s[1..])) && StringsClosed(s[Lex(s).used..]))
  }

  /** Reading `s` token by token, no character literal met contains a line break. */
  predicate LiteralsOnOneLine(s: string)
    decreases |s|
  {
    s == [] ||
    ((s[0] == '\'' && LiteralClose(s).Some? ==> '\n' !in s[..Lex(s).used]) &&
     LiteralsOnOneLine(s[Lex(s).used..]))
  }

  lemma {:induction false} StringBodyShape(s: string)
    ensures var r := StringBody(s);
      && (Closes(s) ==> |r.out| == r.used)
      && (!Closes(s) ==> r.used == |s| && r.used < |r.out| <= r.used + 2)
      && forall k :: 0 <= k < |r.out| ==> r.out[k] == if k < r.used then BlankChar(s[k]) else ' '
    decreases |s|
  {
    if s != [] && s[0] != '"' {
      if s[0] != '\\' {
        StringBodyShape(s[1..]);
      } else if |s| > 1 {
        StringBodyShape(s[2..]);
      } else {
        assert s[1..] == [] && !Closes(s[1..]);
        assert Closes(s) == Closes(s[1..]);
      }
    }
  }

  /** One step: a code character as it is, or blanks over the token's own positions. */
  lemma LexShape(s: string)
    requires s != []
    ensures !NoiseStarts(s) ==> Lex(s) == Step(1, [s[0]])
    ensures NoiseStarts(s) ==> forall c :: c in Lex(s).out ==> IsBlank(c)
    ensures forall k :: 0 <= k < |Lex(s).out| && Lex(s).out[k] == '\n' ==> k < Lex(s).used && s[k] == '\n'
    ensures |Lex(s).out| == Lex(s).used || (s[0] == '"' && !Closes(s[1..]))
    ensures s[0] == '"' && !Closes(s[1..]) ==> Lex(s).used == |s| && |s| < |Lex(s).out| <= |s| + 2
  {
    StringBodyShape(s[1..]);
  }

  /** Output position k holds input character k or a space, so a newline only where one was;
      at most two characters are added, and no double quote survives. */
  lemma {:induction false} Positions(s: string)
    ensures |s| <= |Strip(s)| <= |s| + 2
    ensures InPlace(s, Strip(s))
    decreases |s|
  {
    if s != [] {
      var r := Lex(s);
      LexShape(s);
      Positions(s[r.used..]);
      hide Lex, NoiseStarts, Closes;
      assert forall k :: 0 <= k < |r.out| ==> r.out[k] in r.out;
      PositionsInParts(s, r.used, r.out, Strip(s[r.used..]));
    }
  }

  ghost predicate InPlace(s: string, out: string) {
    forall k :: 0 <= k < |out| ==> out[k] == ' ' || (k < |s| && out[k] == s[k] && s[k] != '"')
  }

  lemma PositionsInParts(s: string, used: nat, out: string, more: string)
    requires used <= |s| && (|out| == used || (used == |s| && more == []))
    requires InPlace(s[..used], out) && InPlace(s[used..], more)
    ensures InPlace(s, out + more)
  {
    forall k | 0 <= k < |out + more|
      ensures (out + more)[k] == ' ' || (k < |s| && (out + more)[k] == s[k] && s[k] != '"')
    {
      if k >= |out| {
        assert more[k - |out|] == (out + more)[k];
      }
    }
  }

  /** The length is kept exactly when every ordinary string is closed. */
  lemma {:induction false} LengthKept(s: string)
    ensures |Strip(s)| == |s| <==> StringsClosed(s)
    decreases |s|
  {
    if s != [] {
      LexShape(s);
      LengthKept(s[Lex(s).used..]);
      Positions(s[Lex(s).used..]);
    }
  }

  ghost predicate LinesKept(s: string) {
    |s| <= |Strip(s)| && forall k :: 0 <= k < |s| && s[k] == '\n' ==> Strip(s)[k] == '\n'
  }

  /** Line breaks stay where they were exactly when no character literal spans one. */
  lemma {:induction false} LinesKeptExactly(s: string)
    ensures LinesKept(s) <==> LiteralsOnOneLine(s)
    decreases |s|
  {
    if s != [] {
      var r, rest := Lex(s), s[Lex(s).used..];
      LexShape(s);
      LinesKeptExactly(rest);
      Positions(rest);
      LexLines(s);
      if |r.out| == r.used {
        LinesInParts(s, r.used, r.out, Strip(rest));
      }
    }
  }

  lemma LinesInParts(s: string, used: nat, out: string, more: string)
    requires used <= |s| && |out| == used && |s| - used <= |more|
    ensures (forall k :: 0 <= k < |s| && s[k] == '\n' ==> (out + more)[k] == '\n') <==>
      && (forall k :: 0 <= k < used && s[k] == '\n' ==> out[k] == '\n')
      && (forall k :: 0 <= k < |s| - used && s[used..][k] == '\n' ==> more[k] == '\n')
  {
    var rest, all := s[used..], out + more;
    assert forall k :: 0 <= k < |rest| ==> rest[k] == s[used + k] && all[used + k] == more[k];
    assert forall k :: used <= k < |s| ==> s[k] == rest[k - used] && all[k] == more[k - used];
  }

  predicate LexKeepsLines(s: string)
    requires s != []
  {
    forall k :: 0 <= k < Lex(s).used && s[k] == '\n' ==> k < |Lex(s).out| && Lex(s).out[k] == '\n'
  }

  lemma LexLines(s: string)
    requires s != []
    ensures LexKeepsLines(s) <==> !(s[0] == '\'' && LiteralClose(s).Some? && '\n' in s[..Lex(s).used])
  {
    StringBodyShape(s[1..]);
    if s[0] == '\'' && LiteralClose(s).Some? {
      assert forall k :: 0 <= k < Lex(s).used ==> Lex(s).out[k] == ' ' && s[..Lex(s).used][k] == s[k];
    }
  }

  // ---- Stripping twice is stripping once -----------------------------------------------

  /** No noise token begins anywhere in `t`. */
  ghost predicate Clean(t: string) {
    forall k :: 0 <= k < |t| ==> !NoiseStarts(t[k..])
  }

  /** The texts left alone by stripping are exactly those in which no noise begins. */
  lemma {:induction false} FixedExactlyWhenClean(t: string)
    ensures Strip(t) == t <==> Clean(t)
    decreases |t|
  {
    if t != [] {
      LexShape(t);
      assert t[0..] == t;
      if NoiseStarts(t) {
        assert Lex(t).out[0] in Lex(t).out;
        assert Strip(t)[0] == Lex(t).out[0];
      } else {
        FixedExactlyWhenClean(t[1..]);
        assert Strip(t) == [t[0]] + Strip(t[1..]);
        assert t == [t[0]] + t[1..];
        CleanTail(t);
      }
    }
  }

  lemma CleanTail(t: string)
    requires t != []
    ensures Clean(t) <==> !NoiseStarts(t) && Clean(t[1..])
  {
    assert t[0..] == t;
    assert forall k :: 0 <= k < |t| - 1 ==> t[1..][k..] == t[k + 1..];
    if Clean(t[1..]) && !NoiseStarts(t) {
      forall k | 0 <= k < |t|
        ensures !NoiseStarts(t[k..])
      {
        if k > 0 {
          assert t[k..] == t[1..][k - 1..];
        }
      }
    }
    if Clean(t) {
      assert !NoiseStarts(t[0..]);
      forall k | 0 <= k < |t[1..]|
        ensures !NoiseStarts(t[1..][k..])
      {
        assert t[1..][k..] == t[k + 1..];
      }
    }
  }

  lemma {:induction false} CleanAfterBlanks(blanks: string, t: string)
    requires (forall c :: c in blanks ==> IsBlank(c)) && Clean(t)
    ensures Clean(blanks + t)
  {
    if blanks == [] {
      assert blanks + t == t;
    } else {
      CleanAfterBlanks(blanks[1..], t);
      assert (blanks + t)[1..] == blanks[1..] + t;
      assert blanks[0] in blanks;
      CleanTail(blanks + t);
    }
  }

  /** A character that survived still begins nothing in front of what survived after it. */
  lemma SurvivorsStayCode(s: string)
    requires s != [] && !NoiseStarts(s)
    ensures !NoiseStarts([s[0]] + Strip(s[1..]))
  {
    var t := Strip(s[1..]);
    var u := [s[0]] + t;
    Positions(s[1..]);
    if At(s, 1) == '\\' {
      LexShape(s[1..]);
      assert u[1] == '\\';
    }
    hide Strip, Lex;
    assert u[1..] == t;
    assert forall k :: 1 <= k < |u| && u[k] != ' ' ==> k < |s| && u[k] == s[k] && u[k] != '"' by {
      forall k | 1 <= k < |u| && u[k] != ' '
        ensures k < |s| && u[k] == s[k] && u[k] != '"'
      {
        assert u[k] == t[k - 1];
      }
    }
    if s[0] == '\'' { LiteralStaysOpen(s, u); }
    hide LiteralClose;
    RawNeedsQuote(t);
  }

  lemma RawNeedsQuote(t: string)
    requires '"' !in t
    ensures !OpensRaw(t)
  {
  }

  lemma LiteralStaysOpen(s: string, u: string)
    requires s != [] && u != [] && s[0] == u[0] == '\''
    requires forall k :: 1 <= k < |u| && u[k] != ' ' ==> k < |s| && u[k] == s[k]
    requires At(s, 1) == '\\' ==> At(u, 1) == '\\'
    requires LiteralClose(s).None?
    ensures LiteralClose(u).None?
  {
  }

  /** No character of stripped text can begin a comment, a string or a literal. */
  lemma {:induction false} StrippedIsClean(s: string)
    ensures Clean(Strip(s))
    decreases |s|
  {
    if s != [] {
      var r, t := Lex(s), Strip(s[Lex(s).used..]);
      LexShape(s);
      StrippedIsClean(s[r.used..]);
      if NoiseStarts(s) {
        CleanAfterBlanks(r.out, t);
      } else {
        SurvivorsStayCode(s);
        assert ([s[0]] + t)[1..] == t;
        CleanTail([s[0]] + t);
      }
    }
  }

  lemma StripTwice(s: string)
    ensures Strip(Strip(s)) == Strip(s)
  {
    StrippedIsClean(s);
    FixedExactlyWhenClean(Strip(s));
  }

  // ---- Where the documented claims fail ------------------------------------------------

  /** An unclosed string adds one character, and two after a dangling backslash. */
  lemma UnclosedStringsGrow(s: string)
    requires s == "\"" || s == "\"\\"
    ensures |Strip(s)| == if |s| == 1 then 2 else 4
  {
    assert s[1..] == if |s| == 1 then [] else "\\";
    assert Lex(s) == Step(|s|, if |s| == 1 then "  " else "    ");
    hide Lex;
    assert s[|s|..] == [];
    assert Strip(s) == Lex(s).out + [];
  }

  /** A quoted line break is blanked like any other literal, so the lines below it move up. */
  lemma BrokenLiteralMovesLines(s: string)
    requires s == "'\n'"
    ensures !LinesKept(s)
  {
    assert Lex(s) == Step(3, Spaces(3));
    hide Lex;
    assert s[3..] == [];
    assert Strip(s) == Spaces(3) + [];
    assert s[1] == '\n' && Strip(s)[1] == ' ';
  }
}
