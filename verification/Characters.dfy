/** Bytes, and where a character last occurs in a text. */
module Characters {
  type byte = x: int | 0 <= x < 256

  /** -1 when `c` does not occur. */
  function LastIndexOf(s: string, c: char): (p: int)
    ensures -1 <= p < |s| && (p >= 0 ==> s[p] == c)
    ensures forall i :: p < i < |s| ==> s[i] != c
  {
    if s == "" then -1 else if s[|s| - 1] == c then |s| - 1 else LastIndexOf(s[..|s| - 1], c)
  }

  lemma SplitAtLast(before: string, c: char, after: string)
    requires c !in after
    ensures LastIndexOf(before + [c] + after, c) == |before|
  {
    hide LastIndexOf;
    var s := before + [c] + after;
    assert s[|before|] == c;
  }
}
