/** Counting how often an index occurs in a list of index lists. */
module IndexLists {

  /// In how many of the lists p occurs.
  function Count(lists: seq<seq<nat>>, p: nat): nat {
    if lists == [] then 0 else (if p in lists[0] then 1 else 0) + Count(lists[1..], p)
  }

  function TotalSize(lists: seq<seq<nat>>): nat {
    if lists == [] then 0 else |lists[0]| + TotalSize(lists[1..])
  }

  lemma {:induction false} CountConcat(l1: seq<seq<nat>>, l2: seq<seq<nat>>, p: nat)
    ensures Count(l1 + l2, p) == Count(l1, p) + Count(l2, p)
    ensures TotalSize(l1 + l2) == TotalSize(l1) + TotalSize(l2)
  {
    if l1 == [] {
      assert l1 + l2 == l2;
    } else {
      assert (l1 + l2)[1..] == l1[1..] + l2;
      CountConcat(l1[1..], l2, p);
    }
  }

  lemma {:induction false} CountNone(lists: seq<seq<nat>>, p: nat)
    requires forall i | 0 <= i < |lists| :: p !in lists[i]
    ensures Count(lists, p) == 0
  {
    if lists != [] { CountNone(lists[1..], p); }
  }

  lemma CountOne(lists: seq<seq<nat>>, p: nat, k: nat)
    requires k < |lists| && forall i | 0 <= i < |lists| :: p in lists[i] <==> i == k
    ensures Count(lists, p) == 1
  {
    assert lists == lists[..k] + ([lists[k]] + lists[k+1..]);
    CountConcat(lists[..k], [lists[k]] + lists[k+1..], p);
    CountConcat([lists[k]], lists[k+1..], p);
    CountNone(lists[..k], p);
    CountNone(lists[k+1..], p);
  }

  lemma {:induction false} CountSome(lists: seq<seq<nat>>, p: nat, k: nat)
    requires k < |lists| && p in lists[k]
    ensures Count(lists, p) >= 1
  {
    if k > 0 { CountSome(lists[1..], p, k - 1); }
  }

  lemma {:induction false} CountTwo(lists: seq<seq<nat>>, p: nat, k: nat, m: nat)
    requires k < m < |lists| && p in lists[k] && p in lists[m]
    ensures Count(lists, p) >= 2
  {
    if k > 0 { CountTwo(lists[1..], p, k - 1, m - 1); } else { CountSome(lists[1..], p, m - 1); }
  }

  /** Lists whose sizes are h times consecutive differences hold h times the whole difference. */
  lemma {:induction false} SizesTelescope(lists: seq<seq<nat>>, cuts: seq<int>, h: int)
    requires |cuts| == |lists| + 1
    requires forall i | 0 <= i < |lists| :: |lists[i]| == h * (cuts[i+1] - cuts[i])
    ensures TotalSize(lists) == h * (cuts[|lists|] - cuts[0])
    decreases |lists|
  {
    if lists != [] {
      SizesTelescope(lists[1..], cuts[1..], h);
      Distribute(h, cuts[0], cuts[1], cuts[|lists|]);
    }
  }

  lemma Distribute(h: int, a: int, b: int, c: int)
    ensures h * (b - a) + h * (c - b) == h * (c - a)
  {}
}
