/** `shuffle` of MyWebsite/script.js and the `random.shuffle` behind the
    inner `shuffle` of `_generate_quiz` (MyWebsite/server/app.py). Both copy
    their input and run the same Fisher-Yates loop, from the last index down
    to 1, swapping position i with a position j in [0, i]. The random source
    is a parameter: the k-th draw is `rand(k)`, and `rand(k) % (i + 1)` stands
    for `Math.floor(Math.random() * (i + 1))` and `randbelow(i + 1)`. */
module Shuffling {

  /** Returns a permutation of `items` and the number of the next unused draw. */
  method Shuffle<T>(items: seq<T>, rand: nat -> nat, draw: nat) returns (shuffled: seq<T>, next: nat)
    ensures |shuffled| == |items|
    ensures multiset(shuffled) == multiset(items)
    ensures next == draw + (if |items| == 0 then 0 else |items| - 1)
  {
    var a := new T[|items|](k requires 0 <= k < |items| => items[k]);
    assert a[..] == items;
    next := draw;
    var i := |items| - 1;
    while i > 0
      invariant -1 <= i < |items| && (|items| > 0 ==> i >= 0)
      invariant multiset(a[..]) == multiset(items)
      invariant next == draw + (|items| - 1 - i)
    {
      var j := rand(next) % (i + 1);
      next := next + 1;
      a[i], a[j] := a[j], a[i];
      i := i - 1;
    }
    shuffled := a[..];
  }
}
