/** The first occurrence of one text in another. */
module TextSearch {
  import opened Options

  predicate Occurs(s: string, needle: string, at: nat) {
    at + |needle| <= |s| && s[at..at + |needle|] == needle
  }

  function Find(s: string, needle: string): (at: Option<nat>)
    ensures at.Some? ==> Occurs(s, needle, at.value)
  {
    if |needle| > |s| then None
    else if s[..|needle|] == needle then Some(0)
    else if s == [] then None
    else match Find(s[1..], needle)
      case None => None
      case Some(k) => assert s[k + 1..k + 1 + |needle|] == s[1..][k..k + |needle|]; Some(k + 1)
  }

  lemma {:induction false} FindIsFirst(s: string, needle: string, k: nat)
    requires Occurs(s, needle, k)
    ensures Find(s, needle).Some? && Find(s, needle).value <= k
  {
    if k > 0 {
      assert s[1..][k - 1..k - 1 + |needle|] == s[k..k + |needle|];
      FindIsFirst(s[1..], needle, k - 1);
    }
  }

  lemma FindAt(s: string, needle: string, k: nat)
    requires Occurs(s, needle, k) && forall p :: 0 <= p < k ==> !Occurs(s, needle, p)
    ensures Find(s, needle) == Some(k)
  {
    FindIsFirst(s, needle, k);
  }
}
