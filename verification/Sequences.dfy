/** Sequence facts that several parts use. */
module Sequences {

  /// All parts in order.
  function Joined<T>(parts: seq<seq<T>>): seq<T> {
    if parts == [] then [] else Joined(parts[..|parts|-1]) + parts[|parts|-1]
  }

  lemma Assoc<T>(a: seq<T>, b: seq<T>, c: seq<T>)
    ensures a + b + c == a + (b + c)
  {}

  lemma {:induction false} JoinedCons<T>(first: seq<T>, rest: seq<seq<T>>)
    ensures Joined([first] + rest) == first + Joined(rest)
  {
    var all := [first] + rest;
    if rest == [] {
      assert all[..0] == [] && Joined(all[..0]) == [];
    } else {
      var n := |rest| - 1;
      JoinedCons(first, rest[..n]);
      assert all[..|all|-1] == [first] + rest[..n];
      Assoc(first, Joined(rest[..n]), rest[n]);
    }
  }
}
