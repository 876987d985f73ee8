/** The duplicate-key scanner of fuzz/src/lib.rs: one pass over the characters of a JSON
    document with a stack of open containers and a flag saying that the next string is a key.

    `Scan` is what the loop computes. `Document` is a JSON text as RFC 8259 derives it, and
    `ScanDecidesDuplication` ties the two together for every such text. */
module DuplicateKeys {
  import Blanking
  import opened Options

  const REPLACEMENT: char := '\U{FFFD}'

  /** One open `{` (with the keys met in it so far) or one open `[`. */
  datatype Frame = Members(keys: seq<string>) | Elements

  /** `Underflow` is the failed subtraction from a low half that is no low surrogate. */
  datatype Verdict = Underflow | Answer(duplicate: bool)

  datatype Reading = Broken | Read(key: string, rest: string)

  datatype Code = Fault | Point(value: char, rest: string)

  // ---- The characters of an escape -----------------------------------------------------

  function DigitValue(c: char): (d: Option<nat>)
    ensures d.Some? ==> d.value < 16
  {
    if '0' <= c <= '9' then Some((c - '0') as nat)
    else if 'a' <= c <= 'f' then Some((c - 'a') as nat + 10)
    else if 'A' <= c <= 'F' then Some((c - 'A') as nat + 10)
    else None
  }

  function FoldHex(digits: string, acc: nat): Option<nat> {
    if digits == [] then Some(acc)
    else match DigitValue(digits[0])
      case None => None
      case Some(d) => FoldHex(digits[1..], 16 * acc + d)
  }

  /** Parsing in base 16: no digits is an error and one leading plus sign is accepted. */
  function ParseHex(text: string): Option<nat> {
    if text == [] || text == "+" then None
    else if text[0] == '+' then FoldHex(text[1..], 0)
    else FoldHex(text, 0)
  }

  /** The character of a code point, or the replacement character for a surrogate. */
  function ToChar(n: nat): char {
    if n < 0xD800 || 0xE000 <= n <= 0x10FFFF then n as char else REPLACEMENT
  }

  function Simple(c: char): char {
    match c
    case 'b' => '\U{0008}'
    case 'f' => '\U{000C}'
    case 'n' => '\n'
    case 'r' => '\r'
    case 't' => '\t'
    case _ => c
  }

  function Min(a: nat, b: nat): nat {
    if a < b then a else b
  }

  /** The low half of a pair: the next two characters are dropped unseen, four are read. */
  function LowHalf(s: string): (string, string) {
    if s != [] && s[0] == '\\' then
      var t := s[Min(2, |s|)..];
      (t[..Min(4, |t|)], t[Min(4, |t|)..])
    else ("", s)
  }

  /** What follows `\u`. */
  function ReadUnicode(s: string): (r: Code)
    ensures r.Point? ==> |r.rest| <= |s|
  {
    var hex, rest := s[..Min(4, |s|)], s[Min(4, |s|)..];
    var unit := ParseHex(hex).GetOr(0xFFFD);
    if 0xD800 <= unit < 0xDC00 then
      var (low, rest') := LowHalf(rest);
      match ParseHex(low)
      case None => Point(ToChar(0xFFFD), rest')
      case Some(l) =>
        if l < 0xDC00 then Fault
        else Point(ToChar(0x10000 + (unit - 0xD800) * 0x400 + (l - 0xDC00)), rest')
    else Point(ToChar(unit), rest)
  }

  /** The string whose opening quote has just been passed. */
  function ReadString(s: string, key: string): (r: Reading)
    ensures r.Read? ==> |r.rest| <= |s|
    decreases |s|
  {
    if s == [] then Read(key, [])
    else if s[0] == '"' then Read(key, s[1..])
    else if s[0] != '\\' then ReadString(s[1..], key + [s[0]])
    else if |s| == 1 then Read(key, [])
    else if s[1] == 'u' then
      match ReadUnicode(s[2..])
      case Fault => Broken
      case Point(c, rest) => ReadString(rest, key + [c])
    else ReadString(s[2..], key + [Simple(s[1])])
  }

  // ---- The scan ------------------------------------------------------------------------

  function Pop(stack: seq<Frame>): seq<Frame> {
    if stack == [] then [] else stack[..|stack| - 1]
  }

  predicate KeyIsDue(stack: seq<Frame>, expecting: bool) {
    expecting && stack != [] && stack[|stack| - 1].Members?
  }

  function Scan(s: string, stack: seq<Frame>, expecting: bool): Verdict
    decreases |s|
  {
    if s == [] then Answer(false)
    else match s[0]
      case '{' => Scan(s[1..], stack + [Members([])], true)
      case '[' => Scan(s[1..], stack + [Elements], false)
      case '}' => Scan(s[1..], Pop(stack), false)
      case ']' => Scan(s[1..], Pop(stack), false)
      case ',' => Scan(s[1..], stack, true)
      case '"' => (
        match ReadString(s[1..], [])
        case Broken => Underflow
        case Read(key, rest) =>
          if !KeyIsDue(stack, expecting) then Scan(rest, stack, expecting)
          else
            var keys := stack[|stack| - 1].keys;
            if key in keys then Answer(true)
            else Scan(rest, Pop(stack) + [Members(keys + [key])], false))
      case _ => Scan(s[1..], stack, expecting)
  }

  // ---- The loops of the source ---------------------------------------------------------

  /** The four characters of a code unit, or as many as there are. */
  method ReadFour(text: string, i: nat) returns (hex: string, next: nat)
    requires i <= |text|
    ensures next == i + Min(4, |text| - i)
    ensures hex == text[i..next]
  {
    hex, next := [], i;
    for k := 0 to 4
      invariant next == i + Min(k, |text| - i)
      invariant hex == text[i..next]
    {
      if next < |text| {
        hex, next := hex + [text[next]], next + 1;
      }
    }
  }

  method DecodeUnicode(text: string, i: nat) returns (c: Option<char>, next: nat)
    requires i <= |text|
    ensures i <= next <= |text|
    ensures c.None? <==> ReadUnicode(text[i..]).Fault?
    ensures c.Some? ==> ReadUnicode(text[i..]) == Point(c.value, text[next..])
  {
    hide FoldHex;
    var hex;
    hex, next := ReadFour(text, i);
    assert hex == text[i..][..Min(4, |text[i..]|)];
    assert text[next..] == text[i..][Min(4, |text[i..]|)..];
    var unit := ParseHex(hex).GetOr(0xFFFD);
    if !(0xD800 <= unit < 0xDC00) {
      return Some(ToChar(unit)), next;
    }
    var low := "";
    ghost var tail := text[next..];
    if next < |text| && text[next] == '\\' {
      next := next + Min(2, |text| - next);
      assert text[next..] == tail[Min(2, |tail|)..];
      ghost var t := text[next..];
      low, next := ReadFour(text, next);
      assert low == t[..Min(4, |t|)];
      assert text[next..] == t[Min(4, |t|)..];
    }
    assert (low, text[next..]) == LowHalf(tail);
    match ParseHex(low)
    case None => c := Some(ToChar(0xFFFD));
    case Some(l) =>
      if l < 0xDC00 {
        c := None;
      } else {
        c := Some(ToChar(0x10000 + (unit - 0xD800) * 0x400 + (l - 0xDC00)));
      }
  }

  method DecodeString(text: string, i: nat) returns (key: Option<string>, next: nat)
    requires i <= |text|
    ensures i <= next <= |text|
    ensures key.None? <==> ReadString(text[i..], []).Broken?
    ensures key.Some? ==> ReadString(text[i..], []) == Read(key.value, text[next..])
  {
    hide ReadUnicode, Simple;
    var k := "";
    next := i;
    while next < |text|
      invariant i <= next <= |text|
      invariant ReadString(text[i..], []) == ReadString(text[next..], k)
    {
      var c := text[next];
      next := next + 1;
      if c == '"' {
        return Some(k), next;
      } else if c != '\\' {
        k := k + [c];
      } else if next == |text| {
        return Some(k), next;
      } else {
        var e := text[next];
        next := next + 1;
        assert text[next..] == text[next - 2..][2..];
        if e == 'u' {
          var point;
          point, next := DecodeUnicode(text, next);
          if point.None? {
            return None, next;
          }
          k := k + [point.value];
        } else {
          k := k + [Simple(e)];
        }
      }
    }
    return Some(k), next;
  }

  method HasDuplicateKeys(text: string) returns (v: Verdict)
    ensures v == Scan(text, [], false)
    ensures forall d: Document :: d.Valid() && d.Text() == text ==> v == Answer(d.value.Duplicates())
  {
    forall d: Document | d.Valid() && d.Text() == text
      ensures Scan(text, [], false) == Answer(d.value.Duplicates())
    {
      ScanDecidesDuplication(d);
    }
    var stack: seq<Frame> := [];
    var expecting := false;
    var i := 0;
    assert text[0..] == text;
    while i < |text|
      invariant 0 <= i <= |text|
      invariant Scan(text, [], false) == Scan(text[i..], stack, expecting)
    {
      var c := text[i];
      i := i + 1;
      assert text[i..] == text[i - 1..][1..];
      if c == '{' {
        stack, expecting := stack + [Members([])], true;
      } else if c == '[' {
        stack, expecting := stack + [Elements], false;
      } else if c == '}' || c == ']' {
        stack, expecting := Pop(stack), false;
      } else if c == ',' {
        expecting := true;
      } else if c == '"' {
        var key;
        key, i := DecodeString(text, i);
        if key.None? {
          return Underflow;
        }
        if KeyIsDue(stack, expecting) {
          var keys := stack[|stack| - 1].keys;
          if key.value in keys {
            return Answer(true);
          }
          stack, expecting := Pop(stack) + [Members(keys + [key.value])], false;
        }
      }
    }
    return Answer(false);
  }

  // ---- JSON texts, RFC 8259 ------------------------------------------------------------

  /** One character of a string (section 7), in one of its spellings. A `Lone` surrogate is half
      of a pair without the other half. */
  datatype Piece =
    | Plain(c: char)
    | Escape(e: char)
    | Unit(hex: string)
    | Pair(high: string, low: string)
    | Lone(hex: string)
  {
    predicate Valid() {
      match this
      case Plain(c) => ' ' <= c && c != '"' && c != '\\'
      case Escape(e) => e in {'"', '\\', '/', 'b', 'f', 'n', 'r', 't'}
      case Unit(hex) => IsHex4(hex) && !(0xD800 <= HexValue(hex) <= 0xDFFF)
      case Pair(high, low) =>
        && IsHex4(high) && 0xD800 <= HexValue(high) <= 0xDBFF
        && IsHex4(low) && 0xDC00 <= HexValue(low) <= 0xDFFF
      case Lone(hex) => IsHex4(hex) && 0xD800 <= HexValue(hex) <= 0xDFFF
    }

    predicate LoneHigh() {
      Lone? && IsHex4(hex) && 0xD800 <= HexValue(hex) <= 0xDBFF
    }

    function Text(): string {
      match this
      case Plain(c) => [c]
      case Escape(e) => "\\" + [e]
      case Unit(hex) => "\\u" + hex
      case Pair(high, low) => "\\u" + high + "\\u" + low
      case Lone(hex) => "\\u" + hex
    }

    /** The code point the spelling stands for; a lone surrogate is folded. */
    function CodePoint(): (p: nat)
      requires Valid()
      ensures p < 0xD800 || 0xE000 <= p <= 0x10FFFF
      ensures Pair? ==> 0x10000 <= p
    {
      match this
      case Plain(c) => c as nat
      case Escape(e) => EscapedPoint(e)
      case Unit(hex) => HexValue(hex)
      case Pair(high, low) => 0x10000 + 0x400 * (HexValue(high) - 0xD800) + (HexValue(low) - 0xDC00)
      case Lone(_) => 0xFFFD
    }
  }

  function EscapedPoint(e: char): (p: nat)
    ensures p < 0xD800 || 0xE000 <= p <= 0x10FFFF
  {
    if e == 'b' then 8 else if e == 't' then 9 else if e == 'n' then 10
    else if e == 'f' then 12 else if e == 'r' then 13 else e as nat
  }

  predicate IsHex4(hex: string) {
    |hex| == 4 && forall k :: 0 <= k < 4 ==> DigitValue(hex[k]).Some?
  }

  function HexValue(hex: string): (n: nat)
    requires IsHex4(hex)
    ensures n <= 0xFFFF
  {
    0x1000 * DigitValue(hex[0]).value + 0x100 * DigitValue(hex[1]).value
    + 0x10 * DigitValue(hex[2]).value + DigitValue(hex[3]).value
  }

  type Name = seq<Piece>

  /** A string as section 7 has it, lone surrogates included. */
  predicate Spelled(n: Name) {
    forall k :: 0 <= k < |n| ==> n[k].Valid()
  }

  /** No lone high surrogate stands directly before an escape. */
  predicate Foldable(n: Name) {
    forall k :: 0 <= k < |n| - 1 && n[k].LoneHigh() ==> n[k + 1].Plain?
  }

  predicate ValidName(n: Name) {
    Spelled(n) && Foldable(n)
  }

  function Spell(n: Name): string {
    if n == [] then [] else n[0].Text() + Spell(n[1..])
  }

  function Decode(n: Name): string
    requires Spelled(n)
  {
    if n == [] then [] else [n[0].CodePoint() as char] + Decode(n[1..])
  }

  function Quoted(n: Name): string {
    "\"" + Spell(n) + "\""
  }

  predicate IsGap(ws: string) {
    forall k :: 0 <= k < |ws| ==> ws[k] in {' ', '\t', '\n', '\r'}
  }

  predicate IsDigits(s: string) {
    forall k :: 0 <= k < |s| ==> '0' <= s[k] <= '9'
  }

  datatype Exponent = Exponent(marker: char, sign: string, digits: string)

  /** The scalars that are not strings (sections 3 and 6). */
  datatype Literal =
    | Word(word: string)
    | Number(minus: bool, whole: string, fraction: Option<string>, exponent: Option<Exponent>)
  {
    predicate Valid() {
      match this
      case Word(w) => w in {"true", "false", "null"}
      case Number(_, whole, fraction, exponent) =>
        && whole != [] && IsDigits(whole) && (whole[0] == '0' ==> |whole| == 1)
        && (fraction.Some? ==> fraction.value != [] && IsDigits(fraction.value))
        && (exponent.Some? ==>
          && exponent.value.marker in {'e', 'E'} && exponent.value.sign in {"", "+", "-"}
          && exponent.value.digits != [] && IsDigits(exponent.value.digits))
    }

    function Text(): string {
      match this
      case Word(w) => w
      case Number(minus, whole, fraction, exponent) =>
        (if minus then "-" else "") + whole
        + (if fraction.Some? then "." + fraction.value else "")
        + (if exponent.Some? then [exponent.value.marker] + exponent.value.sign + exponent.value.digits else "")
    }
  }

  /** A value as it is written: every gap and every spelling is kept. */
  datatype Value =
    | Scalar(lit: Literal)
    | Str(text: Name)
    | Array(gap: string, items: Items)
    | Object(gap: string, members: Members)
  {
    predicate Valid() {
      match this
      case Scalar(lit) => lit.Valid()
      case Str(text) => ValidName(text)
      case Array(gap, items) => IsGap(gap) && items.Valid()
      case Object(gap, members) => IsGap(gap) && members.Valid()
    }

    function Text(): string {
      match this
      case Scalar(lit) => lit.Text()
      case Str(text) => Quoted(text)
      case Array(gap, items) => "[" + gap + items.Text(true) + "]"
      case Object(gap, members) => "{" + gap + members.Text(true) + "}"
    }

    /** Some object at some depth has two members whose decoded names are equal. */
    predicate Duplicates()
      requires Valid()
    {
      match this
      case Scalar(_) => false
      case Str(_) => false
      case Array(_, items) => items.Duplicates()
      case Object(_, members) => Repeats(members.Names()) || members.Duplicates()
    }
  }

  datatype Items = NoItem | Item(before: string, value: Value, after: string, more: Items) {
    predicate Valid() {
      Item? ==> IsGap(before) && value.Valid() && IsGap(after) && more.Valid()
    }

    function Text(first: bool): string {
      if NoItem? then ""
      else (if first then "" else ",") + before + value.Text() + after + more.Text(false)
    }

    predicate Duplicates()
      requires Valid()
    {
      Item? && (value.Duplicates() || more.Duplicates())
    }
  }

  datatype Members = NoMember | Member(
    before: string, name: Name, gap: string, gap': string, value: Value, after: string, more: Members)
  {
    predicate Valid() {
      Member? ==>
        && IsGap(before) && ValidName(name) && IsGap(gap) && IsGap(gap')
        && value.Valid() && IsGap(after) && more.Valid()
    }

    function Text(first: bool): string {
      if NoMember? then ""
      else
        (if first then "" else ",") + before + Quoted(name) + gap + ":" + gap' + value.Text() + after
        + more.Text(false)
    }

    function Names(): seq<string>
      requires Valid()
    {
      if NoMember? then [] else [Decode(name)] + more.Names()
    }

    predicate Duplicates()
      requires Valid()
    {
      Member? && (value.Duplicates() || more.Duplicates())
    }
  }

  predicate Repeats(names: seq<string>) {
    exists i, j :: 0 <= i < j < |names| && names[i] == names[j]
  }

  datatype Document = Document(before: string, value: Value, after: string) {
    predicate Valid() {
      IsGap(before) && value.Valid() && IsGap(after)
    }

    function Text(): string {
      before + value.Text() + after
    }
  }

  // ---- Strings decode to the names they spell ------------------------------------------

  const LOWER_HEX := "0123456789abcdef"
  const UPPER_HEX := "0123456789ABCDEF"

  /** `c` stands at place `k` among the digits of base 16, in one case or the other. */
  predicate IsDigitOf(c: char, k: nat) {
    k < 16 && (c == LOWER_HEX[k] || c == UPPER_HEX[k])
  }

  lemma LowerDigit(k: nat)
    requires k < 16
    ensures DigitValue(LOWER_HEX[k]) == Some(k)
  {
  }

  lemma UpperDigit(k: nat)
    requires k < 16
    ensures DigitValue(UPPER_HEX[k]) == Some(k)
  {
  }

  lemma OnlyDigits(c: char)
    requires DigitValue(c).Some?
    ensures IsDigitOf(c, DigitValue(c).value)
  {
  }

  /** A digit is worth its place among the digits, and no other character is one. */
  lemma HexDigits(c: char)
    ensures forall k :: 0 <= k < 16 ==> (DigitValue(c) == Some(k) <==> IsDigitOf(c, k))
    ensures DigitValue(c).None? <==> c !in LOWER_HEX && c !in UPPER_HEX
  {
    forall k | 0 <= k < 16
      ensures DigitValue(LOWER_HEX[k]) == DigitValue(UPPER_HEX[k]) == Some(k)
    {
      LowerDigit(k);
      UpperDigit(k);
    }
    if DigitValue(c).Some? {
      OnlyDigits(c);
    }
    hide DigitValue;
  }

  lemma DigitAt(c: char, k: nat)
    requires IsDigitOf(c, k)
    ensures k < 16 && DigitValue(c) == Some(k)
  {
    HexDigits(c);
  }

  /** Four digits of either case parse to the number they write in base 16. */
  lemma HexDigitsAddUp(hex: string, d0: nat, d1: nat, d2: nat, d3: nat)
    requires |hex| == 4
    requires IsDigitOf(hex[0], d0) && IsDigitOf(hex[1], d1) && IsDigitOf(hex[2], d2) && IsDigitOf(hex[3], d3)
    ensures ParseHex(hex) == Some(((d0 * 16 + d1) * 16 + d2) * 16 + d3)
  {
    hide DigitValue, IsDigitOf, ParseHex;
    DigitAt(hex[0], d0);
    DigitAt(hex[1], d1);
    DigitAt(hex[2], d2);
    DigitAt(hex[3], d3);
    HexIsHexValue(hex);
  }

  lemma {:induction false} FoldHexReads(digits: string, acc: nat)
    ensures FoldHex(digits, acc).Some? <==>
      forall k :: 0 <= k < |digits| ==> digits[k] in LOWER_HEX || digits[k] in UPPER_HEX
  {
    hide DigitValue;
    if digits != [] {
      HexDigits(digits[0]);
      if DigitValue(digits[0]).Some? {
        FoldHexReads(digits[1..], 16 * acc + DigitValue(digits[0]).value);
        assert forall k :: 1 <= k < |digits| ==> digits[k] == digits[1..][k - 1];
      }
    }
  }

  /** Parsing accepts one digit or more, after a plus sign or none. */
  lemma ParsesExactlyDigits(sign: string, digits: string)
    requires sign == "+" || (sign == "" && !("+" <= digits))
    ensures ParseHex(sign + digits).Some? <==>
      && digits != []
      && forall k :: 0 <= k < |digits| ==> digits[k] in LOWER_HEX || digits[k] in UPPER_HEX
  {
    FoldHexReads(digits, 0);
    hide FoldHex;
    if sign == "" {
      assert sign + digits == digits;
    } else {
      assert (sign + digits)[1..] == digits;
    }
  }

  lemma HexIsHexValue(hex: string)
    requires IsHex4(hex)
    ensures ParseHex(hex) == Some(HexValue(hex))
  {
    var d0, d1, d2, d3 :=
      DigitValue(hex[0]).value, DigitValue(hex[1]).value, DigitValue(hex[2]).value, DigitValue(hex[3]).value;
    assert hex[1..][1..] == hex[2..] && hex[2..][1..] == hex[3..] && hex[3..][1..] == [];
    assert FoldHex(hex, 0) == FoldHex(hex[1..], d0);
    assert FoldHex(hex[1..], d0) == FoldHex(hex[2..], 16 * d0 + d1);
    assert FoldHex(hex[2..], 16 * d0 + d1) == FoldHex(hex[3..], 256 * d0 + 16 * d1 + d2);
    assert FoldHex(hex[3..], 256 * d0 + 16 * d1 + d2) == FoldHex([], HexValue(hex));
    assert hex[0] != '+';
  }

  lemma ReadUnit(hex: string, post: string)
    requires IsHex4(hex) && !(0xD800 <= HexValue(hex) <= 0xDFFF)
    ensures ReadUnicode(hex + post) == Point(HexValue(hex) as char, post)
  {
    hide FoldHex, HexValue;
    HexIsHexValue(hex);
    assert (hex + post)[..4] == hex && (hex + post)[4..] == post;
  }

  lemma ReadPair(high: string, low: string, post: string)
    requires Pair(high, low).Valid()
    ensures ReadUnicode(high + ("\\u" + low + post)) == Point(Pair(high, low).CodePoint() as char, post)
  {
    hide FoldHex, HexValue;
    HexIsHexValue(high);
    HexIsHexValue(low);
    var t := "\\u" + low + post;
    assert (high + t)[..4] == high && (high + t)[4..] == t;
    assert t[2..] == low + post;
    assert (low + post)[..4] == low && (low + post)[4..] == post;
  }

  lemma ReadSimple(e: char, post: string, key: string)
    requires Escape(e).Valid()
    ensures ReadString("\\" + [e] + post, key) == ReadString(post, key + [EscapedPoint(e) as char])
  {
    assert ("\\" + [e] + post)[2..] == post;
  }

  predicate BeginsEscape(s: string) {
    s != [] && s[0] == '\\'
  }

  /** What becomes of a high surrogate. The subtraction underflows exactly when a backslash
      follows and the four characters after the next two read as a number below the low
      surrogates; it is folded, and nothing after it touched, exactly when no backslash follows. */
  lemma HighSurrogateOutcome(hex: string, s: string)
    requires IsHex4(hex) && 0xD800 <= HexValue(hex) <= 0xDBFF
    ensures ReadUnicode(hex + s).Fault? <==> BeginsEscape(s) && ReadsBelow(LowHalf(s).0, 0xDC00)
    ensures ReadUnicode(hex + s) == Point(REPLACEMENT, s) <==> !BeginsEscape(s)
    ensures BeginsEscape(s) && ParseHex(LowHalf(s).0).Some? && !ReadsBelow(LowHalf(s).0, 0xDC00) ==>
      ReadUnicode(hex + s).Point? && ReadUnicode(hex + s).rest == LowHalf(s).1
  {
    hide FoldHex, HexValue;
    HexIsHexValue(hex);
    assert (hex + s)[..4] == hex && (hex + s)[4..] == s;
  }

  /** `digits` read as a hexadecimal number below `bound`. */
  predicate ReadsBelow(digits: string, bound: nat) {
    ParseHex(digits).Some? && ParseHex(digits).value < bound
  }

  lemma ReadLone(hex: string, post: string)
    requires Lone(hex).Valid() && (Lone(hex).LoneHigh() ==> !BeginsEscape(post))
    ensures ReadUnicode(hex + post) == Point(REPLACEMENT, post)
  {
    hide FoldHex, HexValue;
    if Lone(hex).LoneHigh() {
      HighSurrogateOutcome(hex, post);
    } else {
      HexIsHexValue(hex);
      assert (hex + post)[..4] == hex && (hex + post)[4..] == post;
    }
  }

  lemma ReadPiece(p: Piece, post: string, key: string)
    requires p.Valid() && (p.LoneHigh() ==> !BeginsEscape(post))
    ensures ReadString(p.Text() + post, key) == ReadString(post, key + [p.CodePoint() as char])
  {
    hide ReadUnicode;
    match p
    case Plain(c) =>
      assert ([c] + post)[1..] == post;
    case Escape(e) =>
      hide ReadString;
      ReadSimple(e, post, key);
    case Unit(hex) =>
      hide ReadString;
      Blanking.Concat("\\u", hex, post);
      ReadEscapedUnicode(hex + post, key);
      ReadUnit(hex, post);
    case Pair(high, low) =>
      hide ReadString;
      Regroup("\\u", high, "\\u", low, post);
      Blanking.Concat("\\u", low, post);
      ReadEscapedUnicode(high + ("\\u" + low + post), key);
      ReadPair(high, low, post);
    case Lone(hex) =>
      hide ReadString, HexValue;
      Blanking.Concat("\\u", hex, post);
      ReadEscapedUnicode(hex + post, key);
      ReadLone(hex, post);
  }

  lemma ReadEscapedUnicode(s: string, key: string)
    ensures var r := ReadUnicode(s);
      ReadString("\\u" + s, key) == if r.Fault? then Broken else ReadString(r.rest, key + [r.value])
  {
    assert ("\\u" + s)[2..] == s;
  }

  lemma NameTail(n: Name)
    requires n != [] && ValidName(n)
    ensures ValidName(n[1..])
    ensures n[0].LoneHigh() && n[1..] != [] ==> n[1..][0].Plain?
  {
    hide Piece.Valid, Piece.LoneHigh;
    var m := n[1..];
    assert forall k :: 0 <= k < |m| ==> m[k] == n[k + 1];
  }

  lemma NextIsPlain(n: Name, post: string)
    requires Spelled(n)
    ensures BeginsEscape(Spell(n) + "\"" + post) <==> n != [] && !n[0].Plain?
  {
    if n != [] {
      assert (Spell(n) + "\"" + post)[0] == n[0].Text()[0];
    }
  }

  lemma {:induction false} ReadName(n: Name, post: string, key: string)
    requires ValidName(n)
    ensures ReadString(Spell(n) + "\"" + post, key) == Read(key + Decode(n), post)
  {
    if n == [] {
      assert Spell(n) + "\"" + post == "\"" + post;
      assert ("\"" + post)[1..] == post;
      assert key + Decode(n) == key;
    } else {
      var c := n[0].CodePoint() as char;
      assert Spell(n) + "\"" + post == n[0].Text() + (Spell(n[1..]) + "\"" + post);
      NameTail(n);
      NextIsPlain(n[1..], post);
      ReadPiece(n[0], Spell(n[1..]) + "\"" + post, key);
      ReadName(n[1..], post, key + [c]);
      assert key + [c] + Decode(n[1..]) == key + Decode(n);
    }
  }

  // ---- When a string underflows --------------------------------------------------------

  /** The first code unit of a `\u` escape. */
  function FirstUnit(p: Piece): (hex: Option<string>)
    ensures p.Valid() && hex.Some? ==> IsHex4(hex.value)
  {
    match p
    case Unit(hex) => Some(hex)
    case Pair(high, _) => Some(high)
    case Lone(hex) => Some(hex)
    case _ => None
  }

  /** A lone high surrogate stands directly before a `\u` escape below the low surrogates. */
  predicate UnderflowsAt(n: Name, k: nat)
    requires Spelled(n)
  {
    && k + 1 < |n| && n[k].LoneHigh()
    && FirstUnit(n[k + 1]).Some? && HexValue(FirstUnit(n[k + 1]).value) < 0xDC00
  }

  /** No lone high surrogate stands directly before an escape of two characters. */
  predicate NoShortEscapeAfterHigh(n: Name) {
    forall k :: 0 <= k < |n| - 1 && n[k].LoneHigh() ==> !n[k + 1].Escape?
  }

  lemma LowHalfOfEscape(p: Piece, rest: string)
    requires p.Valid() && FirstUnit(p).Some?
    ensures BeginsEscape(p.Text() + rest) && ParseHex(LowHalf(p.Text() + rest).0) == Some(HexValue(FirstUnit(p).value))
    ensures !p.Pair? ==> LowHalf(p.Text() + rest).1 == rest
  {
    hide FoldHex, ParseHex, HexValue;
    var hex := FirstUnit(p).value;
    HexIsHexValue(hex);
    var more := if p.Pair? then "\\u" + p.low else "";
    var s := p.Text() + rest;
    assert s == "\\u" + (hex + (more + rest));
    assert s[2..] == hex + (more + rest);
    assert s[2..][..4] == hex && s[2..][4..] == more + rest;
  }

  /** A lone high surrogate and the piece after it: an underflow, or both are consumed. */
  lemma ReadHighBefore(high: Piece, p: Piece, rest: string, key: string)
    requires high.Valid() && high.LoneHigh() && p.Valid() && FirstUnit(p).Some?
    ensures var r := ReadString(high.Text() + (p.Text() + rest), key);
      if HexValue(FirstUnit(p).value) < 0xDC00 then r.Broken?
      else exists c :: r == ReadString(rest, key + [c])
  {
    assert p.Pair? ==> HexValue(FirstUnit(p).value) < 0xDC00;
    hide ReadString, FoldHex, ParseHex, HexValue, LowHalf;
    var s := p.Text() + rest;
    LowHalfOfEscape(p, rest);
    HighSurrogateOutcome(high.hex, s);
    Blanking.Concat("\\u", high.hex, s);
    ReadEscapedUnicode(high.hex + s, key);
  }

  lemma UnderflowShift(n: Name, d: nat)
    requires Spelled(n) && d <= |n|
    ensures Spelled(n[d..])
    ensures NoShortEscapeAfterHigh(n) ==> NoShortEscapeAfterHigh(n[d..])
    ensures forall k: nat :: UnderflowsAt(n[d..], k) <==> UnderflowsAt(n, k + d)
  {
    hide Piece.Valid, Piece.LoneHigh, HexValue;
    var m := n[d..];
    assert forall k :: 0 <= k < |m| ==> m[k] == n[k + d];
  }

  /** A string underflows exactly when some lone high surrogate in it stands directly before a
      `\u` escape below the low surrogates. (Before an escape of two characters, the reader
      loses its place: see `ReadsBrokenExactly` for the texts in general.) */
  lemma {:induction false} NameUnderflowsExactly(n: Name, post: string, key: string)
    requires Spelled(n) && NoShortEscapeAfterHigh(n)
    ensures ReadString(Spell(n) + "\"" + post, key).Broken? <==> exists k: nat :: UnderflowsAt(n, k)
    decreases |n|
  {
    var tail := "\"" + post;
    if n == [] {
      ReadName(n, post, key);
    } else {
      UnderflowShift(n, 1);
      SpellOne(n, tail);
      if n[0].LoneHigh() && |n| > 1 && !n[1].Plain? {
        NameUnderflowsAtHead(n, post, key);
      } else {
        hide ReadString, Spell;
        NextIsPlain(n[1..], post);
        ReadPiece(n[0], Spell(n[1..]) + tail, key);
        NameUnderflowsExactly(n[1..], post, key + [n[0].CodePoint() as char]);
        Blanking.Concat(Spell(n[1..]), "\"", post);
        assert !UnderflowsAt(n, 0);
        ShiftedExists(n, 1);
      }
      Blanking.Concat(Spell(n), "\"", post);
    }
  }

  lemma {:induction false} NameUnderflowsAtHead(n: Name, post: string, key: string)
    requires Spelled(n) && NoShortEscapeAfterHigh(n) && |n| > 1 && n[0].LoneHigh() && !n[1].Plain?
    ensures ReadString(Spell(n) + ("\"" + post), key).Broken? <==> exists k: nat :: UnderflowsAt(n, k)
    decreases |n|, 0
  {
    var tail := "\"" + post;
    assert FirstUnit(n[1]).Some?;
    SpellOne(n, tail);
    SpellOne(n[1..], tail);
    assert n[1..][1..] == n[2..];
    hide ReadString, Spell, HexValue;
    var rest := Spell(n[2..]) + tail;
    ReadHighBefore(n[0], n[1], rest, key);
    if HexValue(FirstUnit(n[1]).value) < 0xDC00 {
      assert UnderflowsAt(n, 0);
    } else {
      var c :| ReadString(Spell(n) + tail, key) == ReadString(rest, key + [c]);
      UnderflowShift(n, 2);
      NameUnderflowsExactly(n[2..], post, key + [c]);
      Blanking.Concat(Spell(n[2..]), "\"", post);
      assert !UnderflowsAt(n, 0) && !UnderflowsAt(n, 1);
      ShiftedExists(n, 2);
    }
  }

  lemma ShiftedExists(n: Name, d: nat)
    requires Spelled(n) && d <= |n| && Spelled(n[d..])
    requires forall k: nat :: UnderflowsAt(n[d..], k) <==> UnderflowsAt(n, k + d)
    requires forall k: nat :: k < d ==> !UnderflowsAt(n, k)
    ensures (exists k: nat :: UnderflowsAt(n, k)) <==> exists k: nat :: UnderflowsAt(n[d..], k)
  {
    forall k: nat | UnderflowsAt(n, k)
      ensures exists m: nat :: UnderflowsAt(n[d..], m)
    {
      assert k >= d;
      assert UnderflowsAt(n[d..], k - d);
    }
  }

  lemma SpellOne(n: Name, tail: string)
    requires n != []
    ensures Spell(n) + tail == n[0].Text() + (Spell(n[1..]) + tail)
  {
  }

  /** What is left after the reader has taken one character of a string, in whatever spelling. */
  function Skip(s: string): (r: string)
    requires s != []
    ensures |r| < |s|
  {
    if s[0] != '\\' || |s| == 1 then s[1..]
    else if s[1] == 'u' && ReadUnicode(s[2..]).Point? then ReadUnicode(s[2..]).rest
    else s[2..]
  }

  /** What is left after `n` characters, while the string lasts. */
  function Left(s: string, n: nat): string {
    if n == 0 || s == [] || s[0] == '"' then s else Left(Skip(s), n - 1)
  }

  /** A high surrogate escape, a backslash, one more character, and four characters that read
      as a number below the low surrogates. */
  predicate UnderflowsHere(s: string) {
    && |s| >= 2 && s[0] == '\\' && s[1] == 'u'
    && ParseHex(s[2..][..Min(4, |s| - 2)]).Some?
    && 0xD800 <= ParseHex(s[2..][..Min(4, |s| - 2)]).value < 0xDC00
    && BeginsEscape(s[2..][Min(4, |s| - 2)..]) && ReadsBelow(LowHalf(s[2..][Min(4, |s| - 2)..]).0, 0xDC00)
  }

  lemma HereIsFault(s: string)
    ensures UnderflowsHere(s) <==> |s| >= 2 && s[0] == '\\' && s[1] == 'u' && ReadUnicode(s[2..]).Fault?
  {
    hide FoldHex;
    assert ParseHex("").None?;
  }

  ghost predicate ReachesUnderflow(s: string) {
    exists n: nat :: UnderflowsHere(Left(s, n))
  }

  /** Of any text: reading a string underflows exactly when the reader reaches such a place. */
  lemma {:induction false} ReadsBrokenExactly(s: string, key: string)
    ensures ReadString(s, key).Broken? <==> ReachesUnderflow(s)
    decreases |s|
  {
    HereIsFault(s);
    if s == [] || s[0] == '"' {
      hide UnderflowsHere;
      assert forall n: nat :: Left(s, n) == s;
    } else if UnderflowsHere(s) {
      hide UnderflowsHere, ReadUnicode;
      assert Left(s, 0) == s;
      assert ReadString(s, key).Broken?;
    } else {
      hide ReadUnicode;
      var c := ReadOne(s, key);
      hide ReadString, UnderflowsHere;
      ReadsBrokenExactly(Skip(s), key + c);
      ReachesAfterOne(s);
    }
  }

  lemma ReachesAfterOne(s: string)
    requires s != [] && s[0] != '"' && !UnderflowsHere(s)
    ensures ReachesUnderflow(s) <==> ReachesUnderflow(Skip(s))
  {
    hide UnderflowsHere, Skip;
    if ReachesUnderflow(s) {
      var n: nat :| UnderflowsHere(Left(s, n));
      assert n > 0;
      assert Left(s, n) == Left(Skip(s), n - 1);
    }
    if ReachesUnderflow(Skip(s)) {
      var m: nat :| UnderflowsHere(Left(Skip(s), m));
      assert Left(s, m + 1) == Left(Skip(s), m);
    }
  }

  lemma ReadOne(s: string, key: string) returns (c: string)
    requires s != [] && s[0] != '"'
    requires !(|s| >= 2 && s[0] == '\\' && s[1] == 'u' && ReadUnicode(s[2..]).Fault?)
    ensures ReadString(s, key) == ReadString(Skip(s), key + c)
  {
    if s[0] != '\\' {
      c := [s[0]];
    } else if |s| == 1 {
      c := "";
      assert key + c == key && Skip(s) == [];
    } else if s[1] == 'u' {
      c := [ReadUnicode(s[2..]).value];
    } else {
      c := [Simple(s[1])];
    }
  }

  lemma ScanQuoted(n: Name, post: string, stack: seq<Frame>, expecting: bool)
    requires ValidName(n)
    ensures Scan(Quoted(n) + post, stack, expecting) ==
      if !KeyIsDue(stack, expecting) then Scan(post, stack, expecting)
      else if Decode(n) in stack[|stack| - 1].keys then Answer(true)
      else Scan(post, Pop(stack) + [Members(stack[|stack| - 1].keys + [Decode(n)])], false)
  {
    hide ReadString, Decode, Spell;
    assert (Quoted(n) + post)[1..] == Spell(n) + "\"" + post;
    ReadName(n, post, []);
    assert [] + Decode(n) == Decode(n);
  }

  // ---- The scan passes over what is not structure --------------------------------------

  predicate IsStructure(c: char) {
    c == '{' || c == '}' || c == '[' || c == ']' || c == ',' || c == '"'
  }

  predicate Inert(text: string) {
    forall k :: 0 <= k < |text| ==> !IsStructure(text[k])
  }

  lemma {:induction false} ScanInert(text: string, post: string, stack: seq<Frame>, expecting: bool)
    requires Inert(text)
    ensures Scan(text + post, stack, expecting) == Scan(post, stack, expecting)
  {
    if text == [] {
      assert text + post == post;
    } else {
      assert !IsStructure(text[0]);
      assert (text + post)[1..] == text[1..] + post;
      ScanInert(text[1..], post, stack, expecting);
    }
  }

  lemma InertParts(a: string, b: string)
    requires Inert(a) && Inert(b)
    ensures Inert(a + b)
  {
  }

  lemma LiteralsAreInert(lit: Literal)
    requires lit.Valid()
    ensures Inert(lit.Text())
  {
    if lit.Number? {
      var sign := if lit.minus then "-" else "";
      var frac := if lit.fraction.Some? then "." + lit.fraction.value else "";
      InertParts(sign, lit.whole);
      InertParts(sign + lit.whole, frac);
      if lit.exponent.Some? {
        var e := lit.exponent.value;
        InertParts([e.marker] + e.sign, e.digits);
        InertParts(sign + lit.whole + frac, [e.marker] + e.sign + e.digits);
      }
    }
  }

  // ---- What one symbol does to the scan ------------------------------------------------

  lemma ScanOpen(open: char, post: string, stack: seq<Frame>, expecting: bool)
    requires open == '[' || open == '{'
    ensures Scan([open] + post, stack, expecting) ==
      Scan(post, stack + [if open == '{' then Members([]) else Elements], open == '{')
  {
    assert ([open] + post)[1..] == post;
  }

  lemma ScanClose(close: char, post: string, stack: seq<Frame>, top: Frame, expecting: bool)
    requires close == ']' || close == '}'
    ensures Scan([close] + post, stack + [top], expecting) == Scan(post, stack, false)
  {
    assert ([close] + post)[1..] == post;
    assert Pop(stack + [top]) == stack;
  }

  function Comma(first: bool): string {
    if first then "" else ","
  }

  lemma ScanComma(first: bool, post: string, stack: seq<Frame>, expecting: bool)
    ensures Scan(Comma(first) + post, stack, expecting) == Scan(post, stack, expecting || !first)
  {
    if first {
      assert "" + post == post;
    } else {
      assert ("," + post)[1..] == post;
    }
  }

  /** A due name not met before joins the keys of the innermost object. */
  lemma ScanName(n: Name, post: string, stack: seq<Frame>, keys: seq<string>)
    requires ValidName(n)
    ensures Scan(Quoted(n) + post, stack + [Members(keys)], true) ==
      if Decode(n) in keys then Answer(true) else Scan(post, stack + [Members(keys + [Decode(n)])], false)
  {
    hide Scan, Decode, Quoted;
    var open := stack + [Members(keys)];
    ScanQuoted(n, post, open, true);
    assert Pop(open) == stack;
  }

  // ---- The text after each symbol of a derivation --------------------------------------

  lemma Regroup(a: string, b: string, c: string, d: string, e: string)
    ensures a + b + c + d + e == a + (b + (c + (d + e)))
  {
  }

  lemma ItemText(items: Items, first: bool, post: string)
    requires items.Item?
    ensures items.Text(first) + post ==
      Comma(first) + (items.before + (items.value.Text() + (items.after + (items.more.Text(false) + post))))
  {
    hide Value.Text;
    var head, more := Comma(first) + items.before, items.more.Text(false);
    assert items.Text(first) == head + items.value.Text() + items.after + more;
    Regroup(head, items.value.Text(), items.after, more, post);
    Regroup(Comma(first), items.before, items.value.Text() + (items.after + (more + post)), "", "");
  }

  lemma MemberText(members: Members, first: bool, post: string)
    requires members.Member?
    ensures members.Text(first) + post ==
      Comma(first) + (members.before + (Quoted(members.name) + (members.gap + ":" + members.gap'
      + (members.value.Text() + (members.after + (members.more.Text(false) + post))))))
  {
    hide Value.Text, Quoted;
    var key, colon := Comma(first) + members.before + Quoted(members.name), members.gap + ":" + members.gap';
    var more, value := members.more.Text(false), members.value.Text();
    assert members.Text(first) == key + colon + value + members.after + more by {
      assert key + members.gap + ":" + members.gap' == key + colon;
    }
    Regroup(key + colon, value, members.after, more, post);
    Regroup(key, colon, value + (members.after + (more + post)), "", "");
    Regroup(Comma(first), members.before, Quoted(members.name), colon + (value + (members.after + (more + post))), "");
  }

  // ---- One walk over the derivation ----------------------------------------------------

  /** The flag after a value: strings and scalars leave it, a closing bracket clears it. */
  function Expecting(v: Value, expecting: bool): bool {
    expecting && (v.Scalar? || v.Str?)
  }

  function After(duplicates: bool, otherwise: Verdict): Verdict {
    if duplicates then Answer(true) else otherwise
  }

  lemma {:induction false} ScanValue(v: Value, post: string, stack: seq<Frame>, expecting: bool)
    requires v.Valid() && !KeyIsDue(stack, expecting)
    ensures Scan(v.Text() + post, stack, expecting) ==
      After(v.Duplicates(), Scan(post, stack, Expecting(v, expecting)))
    decreases v
  {
    hide Scan;
    match v
    case Scalar(lit) =>
      LiteralsAreInert(lit);
      ScanInert(lit.Text(), post, stack, expecting);
    case Str(text) =>
      ScanQuoted(text, post, stack, expecting);
    case Array(gap, items) =>
      ScanArray(gap, items, post, stack, expecting);
    case Object(gap, members) =>
      ScanObject(gap, members, post, stack, expecting);
  }

  lemma {:induction false} ScanArray(gap: string, items: Items, post: string, stack: seq<Frame>, expecting: bool)
    requires IsGap(gap) && items.Valid()
    ensures Scan("[" + gap + items.Text(true) + "]" + post, stack, expecting) ==
      After(items.Duplicates(), Scan(post, stack, false))
    decreases items, 1
  {
    hide Scan, Items.Text;
    var rest := items.Text(true) + ("]" + post);
    Regroup("[", gap, items.Text(true), "]", post);
    ScanOpen('[', gap + rest, stack, expecting);
    ScanInert(gap, rest, stack + [Elements], false);
    ScanItems(items, true, post, stack, false);
  }

  lemma {:induction false} ScanItems(items: Items, first: bool, post: string, stack: seq<Frame>, expecting: bool)
    requires items.Valid()
    ensures Scan(items.Text(first) + ("]" + post), stack + [Elements], expecting) ==
      After(items.Duplicates(), Scan(post, stack, false))
    decreases items, 0
  {
    hide Scan, Comma;
    var open := stack + [Elements];
    if items.NoItem? {
      assert items.Text(first) + ("]" + post) == "]" + post;
      ScanClose(']', post, stack, Elements, expecting);
    } else {
      hide Items.Text, Value.Text;
      var e := expecting || !first;
      var r3 := items.more.Text(false) + ("]" + post);
      var r2 := items.after + r3;
      var r1 := items.value.Text() + r2;
      ItemText(items, first, "]" + post);
      ScanComma(first, items.before + r1, open, expecting);
      ScanInert(items.before, r1, open, e);
      ScanValue(items.value, r2, open, e);
      ScanInert(items.after, r3, open, Expecting(items.value, e));
      ScanItems(items.more, false, post, stack, Expecting(items.value, e));
    }
  }

  lemma {:induction false} ScanObject(gap: string, members: Members, post: string, stack: seq<Frame>, expecting: bool)
    requires IsGap(gap) && members.Valid()
    ensures Scan("{" + gap + members.Text(true) + "}" + post, stack, expecting) ==
      After(Repeats(members.Names()) || members.Duplicates(), Scan(post, stack, false))
    decreases members, 2
  {
    hide Scan, Members.Text;
    var rest := members.Text(true) + ("}" + post);
    Regroup("{", gap, members.Text(true), "}", post);
    ScanOpen('{', gap + rest, stack, expecting);
    ScanInert(gap, rest, stack + [Members([])], true);
    ScanMembers(members, true, [], post, stack, true);
    assert [] + members.Names() == members.Names();
  }

  lemma {:induction false} ScanMembers(
    members: Members, first: bool, keys: seq<string>, post: string, stack: seq<Frame>, expecting: bool)
    requires members.Valid() && !Repeats(keys) && (first ==> expecting)
    ensures Scan(members.Text(first) + ("}" + post), stack + [Members(keys)], expecting) ==
      After(Repeats(keys + members.Names()) || members.Duplicates(), Scan(post, stack, false))
    decreases members, 1
  {
    hide Scan, Comma, Decode, Repeats;
    var open := stack + [Members(keys)];
    if members.NoMember? {
      assert members.Text(first) + ("}" + post) == "}" + post;
      ScanClose('}', post, stack, Members(keys), expecting);
      assert keys + members.Names() == keys;
    } else {
      hide Members.Text, Value.Text, Quoted;
      var name := Decode(members.name);
      var r3 := members.gap + ":" + members.gap' + (members.value.Text()
                + (members.after + (members.more.Text(false) + ("}" + post))));
      var r2 := Quoted(members.name) + r3;
      MemberText(members, first, "}" + post);
      ScanComma(first, members.before + r2, open, expecting);
      ScanInert(members.before, r2, open, true);
      ScanName(members.name, r3, stack, keys);
      if name in keys {
        RepeatedName(keys, name, members.more.Names());
      } else {
        NewName(keys, name);
        ScanMember(members, keys + [name], post, stack);
        assert keys + [name] + members.more.Names() == keys + members.Names();
      }
    }
  }

  lemma RepeatedName(keys: seq<string>, name: string, more: seq<string>)
    requires name in keys
    ensures Repeats(keys + ([name] + more))
  {
    var names := keys + ([name] + more);
    var k :| 0 <= k < |keys| && keys[k] == name;
    assert names[k] == names[|keys|];
  }

  lemma NewName(keys: seq<string>, name: string)
    requires name !in keys && !Repeats(keys)
    ensures !Repeats(keys + [name])
  {
  }

  /** The rest of a member whose name has been recorded, and the members after it. */
  lemma {:induction false} ScanMember(members: Members, keys: seq<string>, post: string, stack: seq<Frame>)
    requires members.Valid() && members.Member? && !Repeats(keys)
    ensures Scan(members.gap + ":" + members.gap' + (members.value.Text()
                 + (members.after + (members.more.Text(false) + ("}" + post)))), stack + [Members(keys)], false) ==
      After(Repeats(keys + members.more.Names()) || members.Duplicates(), Scan(post, stack, false))
    decreases members, 0
  {
    hide Scan, Members.Text, Value.Text, Decode;
    var open := stack + [Members(keys)];
    var r6 := members.more.Text(false) + ("}" + post);
    var r5 := members.after + r6;
    ScanInert(members.gap + ":" + members.gap', members.value.Text() + r5, open, false);
    ScanValue(members.value, r5, open, false);
    ScanInert(members.after, r6, open, false);
    ScanMembers(members.more, false, keys, post, stack, false);
  }

  /** On a JSON text the scan never faults and answers whether some object repeats a name. */
  lemma ScanDecidesDuplication(d: Document)
    requires d.Valid()
    ensures Scan(d.Text(), [], false) == Answer(d.value.Duplicates())
  {
    var text, gap := d.value.Text(), Expecting(d.value, false);
    assert Scan("", [], gap) == Answer(false);
    hide Scan;
    Regroup(d.before, text, d.after, "", "");
    assert d.after + ("" + "") == d.after + "";
    assert d.Text() == d.before + text + d.after + "" + "";
    ScanInert(d.before, text + (d.after + ""), [], false);
    ScanValue(d.value, d.after + "", [], false);
    ScanInert(d.after, "", [], gap);
  }

  lemma LoneSurrogate(t: string, post: string)
    requires t == "\\u0041" + post
    ensures ReadUnicode("d800" + t) == Fault
  {
    hide FoldHex;
    HexIsHexValue("d800");
    HexIsHexValue("0041");
    assert ("d800" + t)[..4] == "d800" && ("d800" + t)[4..] == t;
    assert t[2..] == "0041" + post;
    assert ("0041" + post)[..4] == "0041";
  }

  /** Pairing matters: RFC 8259 derives a lone `\ud800` too, and after one the subtraction can underflow. */
  lemma LoneSurrogateFaults(stack: seq<Frame>, expecting: bool, post: string)
    ensures Scan("\"\\ud800\\u0041" + post, stack, expecting) == Underflow
  {
    hide ReadUnicode, ReadString;
    var t := "\\u0041" + post;
    assert ("\"\\ud800\\u0041" + post)[1..] == "\\u" + ("d800" + t);
    ReadEscapedUnicode("d800" + t, []);
    LoneSurrogate(t, post);
  }
}
