/** `unescape_xml` of xtask/src/bench.rs: the five predefined entities (section 4.6 of XML 1.0)
    undone by five global replacements. */
module XmlEntities {

  /** `str::replace`: every occurrence from left to right, none overlapping. */
  function Replace(s: string, needle: string, sub: string): string
    requires needle != []
  {
    if |needle| > |s| then s
    else if s[..|needle|] == needle then sub + Replace(s[|needle|..], needle, sub)
    else [s[0]] + Replace(s[1..], needle, sub)
  }

  predicate Special(c: char) {
    c == '"' || c == '\'' || c == '<' || c == '>' || c == '&'
  }

  function Entity(c: char): (e: string)
    requires Special(c)
    ensures |e| >= 4 && e[0] == '&' && '&' !in e[1..]
  {
    if c == '"' then "&quot;" else if c == '\'' then "&apos;" else if c == '<' then "&lt;"
    else if c == '>' then "&gt;" else "&amp;"
  }

  function UnescapeXml(text: string): string {
    var quotes := Replace(Replace(text, "&quot;", "\""), "&apos;", "'");
    Replace(Replace(Replace(quotes, "&lt;", "<"), "&gt;", ">"), "&amp;", "&")
  }

  // ---- Escaped text --------------------------------------------------------------------

  /** One character of a document, written as itself or as its entity. */
  datatype Coded = Coded(c: char, escaped: bool) {
    /** An ampersand is always escaped; the other four may be. */
    predicate Valid() {
      if escaped then Special(c) else c != '&'
    }
  }

  predicate Valid(cs: seq<Coded>) {
    forall k :: 0 <= k < |cs| ==> cs[k].Valid()
  }

  /** What the document says. */
  function Plain(cs: seq<Coded>): string {
    seq(|cs|, k requires 0 <= k < |cs| => cs[k].c)
  }

  /** How it is written once the entities of `done` have been undone. */
  function Written(cs: seq<Coded>, done: set<char>): string
    requires Valid(cs)
  {
    if cs == [] then []
    else (if cs[0].escaped && cs[0].c !in done then Entity(cs[0].c) else [cs[0].c]) + Written(cs[1..], done)
  }

  // ---- One replacement -----------------------------------------------------------------

  lemma ReplaceSteps(s: string, needle: string, sub: string)
    requires needle != [] && s != [] && !(needle <= s)
    ensures Replace(s, needle, sub) == [s[0]] + Replace(s[1..], needle, sub)
  {
  }

  lemma {:induction false} ReplaceSkips(s: string, rest: string, needle: string, sub: string)
    requires needle != [] && needle[0] !in s
    ensures Replace(s + rest, needle, sub) == s + Replace(rest, needle, sub)
  {
    hide Replace;
    var after := Replace(rest, needle, sub);
    if s == [] {
      assert s + rest == rest && s + after == after;
    } else {
      var t := s + rest;
      assert t[0] == s[0] && t[1..] == s[1..] + rest;
      ReplaceSteps(t, needle, sub);
      ReplaceSkips(s[1..], rest, needle, sub);
      assert [s[0]] + (s[1..] + after) == s + after;
    }
  }

  lemma ReplacePasses(e: string, rest: string, needle: string, sub: string)
    requires |e| >= 3 && |needle| >= 3 && needle[0] !in e[1..]
    requires e[1] != needle[1] || e[2] != needle[2]
    ensures Replace(e + rest, needle, sub) == e + Replace(rest, needle, sub)
  {
    hide Replace;
    var s, after := e + rest, Replace(rest, needle, sub);
    assert s[0] == e[0] && s[1] == e[1] && s[2] == e[2];
    ReplaceSteps(s, needle, sub);
    assert s[1..] == e[1..] + rest;
    ReplaceSkips(e[1..], rest, needle, sub);
    assert [e[0]] + (e[1..] + after) == e + after;
  }

  /** Another entity is passed over: it is not the needle, and holds no further ampersand. */
  lemma ReplacePassesEntity(d: char, rest: string, c: char)
    requires Special(c) && Special(d) && c != d
    ensures Replace(Entity(d) + rest, Entity(c), [c]) == Entity(d) + Replace(rest, Entity(c), [c])
  {
    assert Entity(c)[1] != Entity(d)[1] || Entity(c)[2] != Entity(d)[2];
    hide Replace, Entity;
    ReplacePasses(Entity(d), rest, Entity(c), [c]);
  }

  lemma ReplaceHits(rest: string, c: char)
    requires Special(c)
    ensures Replace(Entity(c) + rest, Entity(c), [c]) == [c] + Replace(rest, Entity(c), [c])
  {
    var s := Entity(c) + rest;
    assert s[..|Entity(c)|] == Entity(c) && s[|Entity(c)|..] == rest;
  }

  /** As long as the ampersands are still escaped, a replacement undoes its own entity wherever
      it stands, and nothing else. */
  lemma {:induction false} ReplaceUndoesOne(cs: seq<Coded>, done: set<char>, c: char)
    requires Valid(cs) && Special(c) && c !in done && '&' !in done
    ensures Replace(Written(cs, done), Entity(c), [c]) == Written(cs, done + {c})
  {
    if cs != [] {
      var rest := Written(cs[1..], done);
      ReplaceUndoesOne(cs[1..], done, c);
      if cs[0].escaped && cs[0].c !in done {
        if cs[0].c == c {
          ReplaceHits(rest, c);
        } else {
          ReplacePassesEntity(cs[0].c, rest, c);
        }
      } else {
        ReplaceSkips([cs[0].c], rest, Entity(c), [c]);
      }
    }
  }

  lemma {:induction false} AllUndone(cs: seq<Coded>, done: set<char>)
    requires Valid(cs) && forall c :: Special(c) ==> c in done
    ensures Written(cs, done) == Plain(cs)
  {
    if cs != [] {
      AllUndone(cs[1..], done);
      assert Plain(cs) == [cs[0].c] + Plain(cs[1..]);
    }
  }

  /** However a document was escaped, unescaping gives the document back. */
  lemma UnescapeInvertsEscape(cs: seq<Coded>)
    requires Valid(cs)
    ensures UnescapeXml(Written(cs, {})) == Plain(cs)
  {
    hide Replace, Written, Plain;
    var quot, apos, lt, gt := '"', '\'', '<', '>';
    ReplaceUndoesOne(cs, {}, quot);
    ReplaceUndoesOne(cs, {} + {quot}, apos);
    ReplaceUndoesOne(cs, {} + {quot} + {apos}, lt);
    ReplaceUndoesOne(cs, {} + {quot} + {apos} + {lt}, gt);
    ReplaceUndoesOne(cs, {} + {quot} + {apos} + {lt} + {gt}, '&');
    AllUndone(cs, {} + {quot} + {apos} + {lt} + {gt} + {'&'});
  }

  /** Two documents escaped to one text are the same document. */
  lemma EscapingLosesNothing(cs: seq<Coded>, ds: seq<Coded>)
    requires Valid(cs) && Valid(ds) && Written(cs, {}) == Written(ds, {})
    ensures Plain(cs) == Plain(ds)
  {
    UnescapeInvertsEscape(cs);
    UnescapeInvertsEscape(ds);
  }

  /** Undoing `&amp;` first would decode twice. */
  lemma AmpersandMustBeLast()
    ensures Replace(Replace("&amp;lt;", "&amp;", "&"), "&lt;", "<") == "<"
    ensures Plain([Coded('&', true), Coded('l', false), Coded('t', false), Coded(';', false)]) == "&lt;"
  {
    assert "&amp;lt;"[..5] == "&amp;" && "&amp;lt;"[5..] == "lt;";
    assert Replace("lt;", "&amp;", "&") == "lt;";
    assert "&" + "lt;" == "&lt;" && "&lt;"[..4] == "&lt;" && "&lt;"[4..] == [];
  }

  lemma OneEntity(c: char)
    requires Special(c)
    ensures UnescapeXml(Entity(c)) == [c]
  {
    var cs := [Coded(c, true)];
    assert Written(cs[1..], {}) == [];
    assert Written(cs, {}) == Entity(c);
    hide UnescapeXml, Written;
    UnescapeInvertsEscape(cs);
    assert Plain(cs) == [c];
  }

  /** The five entities by name. */
  lemma EntitiesSpelled()
    ensures UnescapeXml("&quot;") == "\"" && UnescapeXml("&apos;") == "'" && UnescapeXml("&lt;") == "<"
    ensures UnescapeXml("&gt;") == ">" && UnescapeXml("&amp;") == "&"
  {
    hide UnescapeXml;
    OneEntity('"');
    OneEntity('\'');
    OneEntity('<');
    OneEntity('>');
    OneEntity('&');
  }
}
