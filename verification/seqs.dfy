/** Finding the first occurrence of an element in a sequence. */
module Seqs {
  import opened Wrappers

  /** The position of the first occurrence of `x` in `s`. */
  function IndexOf<T(==)>(s: seq<T>, x: T): (r: Option<nat>)
    ensures r.None? <==> x !in s
    ensures r.Some? ==> r.value < |s| && s[r.value] == x && x !in s[..r.value]
  {
    if |s| == 0 then None
    else if s[0] == x then Some(0)
    else
      match IndexOf(s[1..], x)
      case None => None
      case Some(i) =>
        assert s[..i + 1] == [s[0]] + s[1..][..i];
        Some(i + 1)
  }

  /** The first position holding `x` is the only one that satisfies IndexOf's contract. */
  lemma IndexOfUnique<T>(s: seq<T>, x: T, i: nat)
    requires i < |s| && s[i] == x && x !in s[..i]
    ensures IndexOf(s, x) == Some(i)
  {
    assert s[i] in s;
    var j := IndexOf(s, x).value;
    forall p | 0 <= p < i
      ensures s[p] != x
    {
      assert s[p] == s[..i][p];
    }
    forall p | 0 <= p < j
      ensures s[p] != x
    {
      assert s[p] == s[..j][p];
    }
  }

  /** Appending an element leaves the first positions of the other elements alone. */
  lemma IndexOfAppend<T>(s: seq<T>, x: T, y: T)
    requires y != x
    ensures IndexOf(s + [x], y) == IndexOf(s, y)
  {
    match IndexOf(s, y)
    case None =>
    case Some(i) =>
      assert (s + [x])[..i] == s[..i];
      IndexOfUnique(s + [x], y, i);
  }
}
