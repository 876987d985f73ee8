/** Numbers and endpoints as Rust displays them. */
module Decimals {

  function Decimal(n: nat): string {
    (if n < 10 then "" else Decimal(n / 10)) + [Digit(n % 10)]
  }

  function Digit(d: nat): (c: char)
    requires d < 10
    ensures IsDigit(c) && (c - '0') as nat == d
  {
    '0' + d as char
  }

  predicate IsDigit(c: char) {
    '0' <= c <= '9'
  }

  lemma {:induction false} DecimalDigits(n: nat)
    ensures |Decimal(n)| >= 1 && forall k :: 0 <= k < |Decimal(n)| ==> IsDigit(Decimal(n)[k])
    ensures n < 10 <==> |Decimal(n)| == 1
  {
    if n >= 10 {
      DecimalDigits(n / 10);
    }
  }

  lemma {:induction false} DecimalIsInjective(m: nat, n: nat)
    requires Decimal(m) == Decimal(n)
    ensures m == n
  {
    DecimalDigits(m);
    DecimalDigits(n);
    LastDigit(m);
    LastDigit(n);
    if m >= 10 {
      DecimalIsInjective(m / 10, n / 10);
    }
  }

  lemma LastDigit(n: nat)
    ensures var s := Decimal(n); |s| >= 1 && s[|s| - 1] == Digit(n % 10)
    ensures n >= 10 ==> Decimal(n)[..|Decimal(n)| - 1] == Decimal(n / 10)
    ensures n < 10 ==> n % 10 == n
  {
  }

  /** The number a row of digits writes in base 10. */
  function ValueOf(digits: string): int {
    if digits == [] then 0
    else 10 * ValueOf(digits[..|digits| - 1]) + (digits[|digits| - 1] as int - '0' as int)
  }

  /** `text` writes `n`: digits only, none missing, and no zero in front of others. */
  predicate Writes(text: string, n: nat) {
    && text != [] && (forall k :: 0 <= k < |text| ==> '0' <= text[k] <= '9')
    && (text[0] == '0' ==> |text| == 1)
    && ValueOf(text) == n
  }

  lemma {:induction false} DecimalWrites(n: nat)
    ensures Writes(Decimal(n), n)
    ensures n > 0 ==> Decimal(n)[0] != '0'
  {
    DecimalDigits(n);
    LastDigit(n);
    if n >= 10 {
      DecimalWrites(n / 10);
    } else {
      assert ValueOf([]) == 0;
    }
  }

  lemma {:induction false} ValueIsPositive(text: string)
    requires text != [] && (forall k :: 0 <= k < |text| ==> '0' <= text[k] <= '9') && text[0] != '0'
    ensures ValueOf(text) > 0
  {
    if |text| > 1 {
      ValueIsPositive(text[..|text| - 1]);
    } else {
      assert ValueOf(text[..0]) == 0;
    }
  }

  /** The decimal form is the only text that writes the number. */
  lemma {:induction false} OnlyDecimalWrites(text: string, n: nat)
    ensures Writes(text, n) <==> text == Decimal(n)
  {
    DecimalWrites(n);
    DecimalDigits(n);
    LastDigit(n);
    hide Decimal;
    if Writes(text, n) {
      var front, last := text[..|text| - 1], text[|text| - 1];
      assert text == front + [last];
      if |text| > 1 {
        ValueIsPositive(front);
        assert n / 10 == ValueOf(front) && n >= 10;
        OnlyDecimalWrites(front, n / 10);
      } else {
        assert ValueOf(front) == 0;
      }
      assert Decimal(n) == Decimal(n)[..|Decimal(n)| - 1] + [Digit(n % 10)];
    }
  }

  datatype Endpoint = Endpoint(ip: string, port: nat)

  /** An address, a colon and a port. */
  function Show(e: Endpoint): string {
    e.ip + ":" + Decimal(e.port)
  }

  /** The last colon separates the address, which may hold colons of its own, from the port. */
  lemma ShowIsInjective(d: Endpoint, e: Endpoint)
    requires Show(d) == Show(e)
    ensures d == e
  {
    DecimalDigits(d.port);
    DecimalDigits(e.port);
    var s, t := Show(d), Show(e);
    var i, j := |d.ip|, |e.ip|;
    assert s[i] == ':' && t[j] == ':';
    assert forall k :: i < k < |s| ==> IsDigit(s[k]) by {
      assert forall k :: i < k < |s| ==> s[k] == Decimal(d.port)[k - i - 1];
    }
    assert forall k :: j < k < |t| ==> IsDigit(t[k]) by {
      assert forall k :: j < k < |t| ==> t[k] == Decimal(e.port)[k - j - 1];
    }
    assert i == j;
    assert s[..i] == d.ip && t[..j] == e.ip;
    assert s[i + 1..] == Decimal(d.port) && t[j + 1..] == Decimal(e.port);
    DecimalIsInjective(d.port, e.port);
  }
}
