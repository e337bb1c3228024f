/** SQLite's `LIKE '%pattern%'` for a pattern without wildcards: a substring
    test in which ASCII letters match regardless of case (SQLite's default). */
module Like {

  /** ASCII upper-case letters to lower case; every other character unchanged. */
  function FoldAscii(c: char): char
  {
    if 'A' <= c <= 'Z' then (c as int + 32) as char else c
  }

  /** `a` and `b` are equal once ASCII case is folded. */
  predicate SameFolded(a: string, b: string)
  {
    |a| == |b| && forall i :: 0 <= i < |a| ==> FoldAscii(a[i]) == FoldAscii(b[i])
  }

  /** `pattern` occurs in `s` at position `i`, ignoring ASCII case. */
  predicate OccursAt(s: string, pattern: string, i: int)
  {
    0 <= i && i + |pattern| <= |s| && SameFolded(s[i..i + |pattern|], pattern)
  }

  /** `s LIKE '%' || pattern || '%'`. */
  function LikeContains(s: string, pattern: string): (b: bool)
    ensures b <==> exists i :: OccursAt(s, pattern, i)
    decreases |s|
  {
    if |s| < |pattern| then false
    else if SameFolded(s[..|pattern|], pattern) then
      assert OccursAt(s, pattern, 0);
      true
    else
      var rest := LikeContains(s[1..], pattern);
      assert forall i :: OccursAt(s[1..], pattern, i) <==> OccursAt(s, pattern, i + 1) by {
        forall i ensures OccursAt(s[1..], pattern, i) <==> OccursAt(s, pattern, i + 1) {
          if 0 <= i && i + |pattern| <= |s| - 1 {
            assert s[1..][i..i + |pattern|] == s[i + 1..i + 1 + |pattern|];
          }
        }
      }
      assert forall i :: OccursAt(s, pattern, i) ==> i == 0 || OccursAt(s[1..], pattern, i - 1);
      rest
  }
}
