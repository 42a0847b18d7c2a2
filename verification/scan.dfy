/** Linear scans over the game's fixed-size pools and tables. Every "find the first slot that..."
    loop of the game (free bean slot, destroyed block, high-score insertion point, caught bean)
    is an instance of FirstWhere. */
module Scan {

  /** Index of the first element of `s` satisfying `p`, or -1 when there is none (the C
      convention of the source's search loops). */
  function FirstWhere<T>(s: seq<T>, p: T -> bool): (k: int)
    ensures -1 <= k < |s|
    ensures 0 <= k ==> p(s[k])
    ensures forall j :: 0 <= j < |s| && (k < 0 || j < k) ==> !p(s[j])
  {
    FirstFrom(s, p, 0)
  }

  /** FirstWhere restricted to the suffix starting at `i`. */
  function FirstFrom<T>(s: seq<T>, p: T -> bool, i: nat): (k: int)
    requires i <= |s|
    decreases |s| - i
    ensures k == -1 || i <= k < |s|
    ensures 0 <= k ==> p(s[k])
    ensures forall j :: i <= j < |s| && (k < 0 || j < k) ==> !p(s[j])
  {
    if i == |s| then -1
    else if p(s[i]) then i
    else FirstFrom(s, p, i + 1)
  }

  /** The result of FirstWhere is determined by its contract: any index that is the first
      satisfying one, or -1 when none does, is the one FirstWhere returns. */
  lemma FirstWhereUnique<T>(s: seq<T>, p: T -> bool, k: int)
    requires -1 <= k < |s|
    requires 0 <= k ==> p(s[k])
    requires forall j :: 0 <= j < |s| && (k < 0 || j < k) ==> !p(s[j])
    ensures FirstWhere(s, p) == k
  {
  }
}
