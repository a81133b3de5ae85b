/** Facts about sequences without repeated elements. */
module Collections {
  /** No element occurs twice. */
  ghost predicate Distinct<T>(s: seq<T>) {
    forall i, j :: 0 <= i < j < |s| ==> s[i] != s[j]
  }

  /** A sequence without repeats has as many distinct elements as positions. */
  lemma {:induction false} DistinctCard<T>(s: seq<T>)
    requires Distinct(s)
    ensures |set x | x in s| == |s|
  {
    if s != [] {
      assert (set x | x in s) == {s[0]} + (set x | x in s[1..]);
      assert s[0] !in s[1..];
      DistinctCard(s[1..]);
    }
  }

  /** Appending a new element keeps a sequence free of repeats. */
  lemma DistinctSnoc<T>(t: seq<T>, x: T)
    requires Distinct(t) && x !in t
    ensures Distinct(t + [x])
  {
    var u := t + [x];
    forall a, b | 0 <= a < b < |u| ensures u[a] != u[b] {
      assert u[a] == t[a];
    }
  }

  /** Dropping the head keeps a sequence free of repeats, and the head does not recur. */
  lemma DistinctTail<T>(s: seq<T>)
    requires Distinct(s) && s != []
    ensures Distinct(s[1..]) && s[0] !in s[1..]
  {
    forall j | 0 <= j < |s[1..]| ensures s[1..][j] != s[0] {
      assert s[1..][j] == s[j + 1];
    }
  }

  /** Cutting out one position keeps a sequence free of repeats, and the element cut does not recur. */
  lemma DistinctCut<T>(s: seq<T>, i: nat)
    requires Distinct(s) && i < |s|
    ensures Distinct(s[..i] + s[i + 1..])
    ensures s[i] !in s[..i] + s[i + 1..]
  {
    var t := s[..i] + s[i + 1..];
    forall a, b | 0 <= a < b < |t| ensures t[a] != t[b] {
      var a', b' := if a < i then a else a + 1, if b < i then b else b + 1;
      assert t[a] == s[a'] && t[b] == s[b'];
    }
    forall a | 0 <= a < |t| ensures t[a] != s[i] {
      var a' := if a < i then a else a + 1;
      assert t[a] == s[a'];
    }
  }
}
