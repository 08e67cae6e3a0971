/**
 General facts about sequences and finite sets used by the neighbour count:
 repetition-free sequences, counting the members of a sequence that lie in
 a set, and the size of subsets.
 */
module Collections {

  /** No entry of `s` occurs twice. */
  predicate Distinct<T(==)>(s: seq<T>) {
    forall k, l | 0 <= k < l < |s| :: s[k] != s[l]
  }

  /** Dropping the head of a sequence without repetitions leaves one, and the head is not in it. */
  lemma DistinctTail<T>(s: seq<T>)
    requires Distinct(s) && s != []
    ensures Distinct(s[1..]) && s[0] !in s[1..]
  {
    var rest := s[1..];
    forall k, l | 0 <= k < l < |rest| ensures rest[k] != rest[l] {
      assert rest[k] == s[k + 1] && rest[l] == s[l + 1];
    }
    forall k | 0 <= k < |rest| ensures rest[k] != s[0] {
      assert rest[k] == s[k + 1];
    }
  }

  /** Number of entries of `cs` that belong to `keep`, counted with multiplicity. */
  function CountIn<T>(cs: seq<T>, keep: set<T>): nat {
    if cs == [] then 0 else (if cs[0] in keep then 1 else 0) + CountIn(cs[1..], keep)
  }

  /** Over a sequence without repetitions, the count is the size of the set of members kept. */
  lemma {:induction false} CountInIsSize<T>(cs: seq<T>, keep: set<T>)
    requires Distinct(cs)
    ensures CountIn(cs, keep) == |set c | c in cs && c in keep|
    decreases |cs|
  {
    if cs != [] {
      var rest := cs[1..];
      DistinctTail(cs);
      CountInIsSize(rest, keep);
      var tail := set c | c in rest && c in keep;
      assert cs == [cs[0]] + rest;
      if cs[0] in keep {
        assert (set c | c in cs && c in keep) == {cs[0]} + tail;
      } else {
        assert (set c | c in cs && c in keep) == tail;
      }
    }
  }

  /** A sequence without repetitions has as many distinct elements as entries. */
  lemma {:induction false} DistinctSetSize<T>(s: seq<T>)
    requires Distinct(s)
    ensures |set x | x in s| == |s|
    decreases |s|
  {
    if s != [] {
      var rest := s[1..];
      DistinctTail(s);
      DistinctSetSize(rest);
      assert s == [s[0]] + rest;
      assert (set x | x in s) == {s[0]} + (set x | x in rest);
    }
  }

  /** A subset is no larger than the set containing it. */
  lemma {:induction false} SubsetCard<T>(a: set<T>, b: set<T>)
    requires a <= b
    ensures |a| <= |b|
    decreases |b|
  {
    if a != {} {
      var x :| x in a;
      SubsetCard(a - {x}, b - {x});
    }
  }
}
