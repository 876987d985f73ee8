/** Line numbers: one plus the newlines before a position. */
module Lines {

  function Newlines(s: string): nat {
    if s == [] then 0 else Newlines(s[..|s| - 1]) + if s[|s| - 1] == '\n' then 1 else 0
  }

  /** The line that holds position `offset`. */
  function LineOf(src: string, offset: nat): nat
    requires offset <= |src|
  {
    Newlines(src[..offset]) + 1
  }

  /** Which is one more than the number of places before it that hold a newline. */
  lemma {:induction false} LineCounts(src: string, offset: nat)
    requires offset <= |src|
    ensures LineOf(src, offset) == 1 + |set k | 0 <= k < offset && src[k] == '\n'|
  {
    var breaks := set k | 0 <= k < offset && src[k] == '\n';
    if offset > 0 {
      LineCounts(src, offset - 1);
      var before := set k | 0 <= k < offset - 1 && src[k] == '\n';
      assert src[..offset][..offset - 1] == src[..offset - 1];
      assert breaks == if src[offset - 1] == '\n' then before + {offset - 1} else before;
    }
  }
}
