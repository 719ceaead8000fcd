/** Counting the unfinished members of a group, as a `sync.WaitGroup` does. */
module Counting {

  /** The number of `true` entries. */
  function Count(s: seq<bool>): nat {
    if |s| == 0 then 0 else Count(s[..|s| - 1]) + (if s[|s| - 1] then 1 else 0)
  }

  lemma {:induction false} CountUpdate(s: seq<bool>, i: nat, b: bool)
    requires i < |s|
    ensures Count(s[i := b]) == Count(s) + (if b then 1 else 0) - (if s[i] then 1 else 0)
  {
    var t := s[i := b];
    if i == |s| - 1 {
      assert t[..|t| - 1] == s[..|s| - 1];
    } else {
      CountUpdate(s[..|s| - 1], i, b);
      assert t[..|t| - 1] == s[..|s| - 1][i := b];
    }
  }

  lemma {:induction false} CountZero(s: seq<bool>)
    ensures Count(s) == 0 <==> forall i :: 0 <= i < |s| ==> !s[i]
    ensures Count(s) == |s| <==> forall i :: 0 <= i < |s| ==> s[i]
    ensures Count(s) <= |s|
  {
    if |s| > 0 {
      CountZero(s[..|s| - 1]);
    }
  }

  /** The sum of the remaining steps of a group of processes. */
  function Sum(s: seq<nat>): nat {
    if |s| == 0 then 0 else Sum(s[..|s| - 1]) + s[|s| - 1]
  }

  lemma {:induction false} SumUpdate(s: seq<nat>, i: nat, x: nat)
    requires i < |s|
    ensures Sum(s[i := x]) == Sum(s) + x - s[i]
  {
    var t := s[i := x];
    if i == |s| - 1 {
      assert t[..|t| - 1] == s[..|s| - 1];
    } else {
      SumUpdate(s[..|s| - 1], i, x);
      assert t[..|t| - 1] == s[..|s| - 1][i := x];
    }
  }

  /** A flag-wise smaller list counts less, and counts the same only if it is the same. */
  lemma {:induction false} CountMonotone(s: seq<bool>, t: seq<bool>)
    requires |s| == |t| && forall i :: 0 <= i < |s| && s[i] ==> t[i]
    ensures Count(s) <= Count(t)
    ensures Count(s) == Count(t) ==> s == t
  {
    if |s| > 0 {
      var last := |s| - 1;
      CountMonotone(s[..last], t[..last]);
      assert s == s[..last] + [s[last]] && t == t[..last] + [t[last]];
    }
  }
}
