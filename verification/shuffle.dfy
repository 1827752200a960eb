/** Python's `random.shuffle`: a Fisher–Yates pass from the back, with the
    random numbers given. Step `i` (from the last index down to 1) swaps
    position `i` with position `draw(i) % (i + 1)`. */
module Shuffle {

  method Shuffle<T>(s: seq<T>, draw: nat -> nat) returns (r: seq<T>)
    ensures |r| == |s|
    ensures multiset(r) == multiset(s)
  {
    r := s;
    var i := |r|;
    while i > 1
      invariant 0 <= i <= |r| == |s|
      invariant multiset(r) == multiset(s)
    {
      i := i - 1;
      var j := draw(i) % (i + 1);
      var a, b := r[i], r[j];
      r := r[i := b][j := a];
    }
  }
}
