/** Facts about sequences that several components share. */
module Sequences {

  lemma Regroup<T>(a: seq<T>, b: seq<T>, c: seq<T>)
    ensures (a + b) + c == a + (b + c)
  {
  }

  lemma SnocEqual<T>(s: seq<T>, t: seq<T>, x: T, y: T)
    requires |s| == |t| || s + [x] == t + [y]
    ensures s + [x] == t + [y] <==> s == t && x == y
  {
    if s + [x] == t + [y] {
      assert |s + [x]| == |t + [y]|;
      assert s == (s + [x])[..|s|] && t == (t + [y])[..|t|];
      assert x == (s + [x])[|s|] && y == (t + [y])[|t|];
    }
  }
}
