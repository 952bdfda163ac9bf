/** Byte-wise string order and the in-place insertion sort that makes printed maps and reported
    sets deterministic. */
module Sorting {
  import opened Graphs

  /** s < t in the order of the characters from the left. */
  predicate Less(s: string, t: string) {
    if t == "" then false
    else if s == "" then true
    else s[0] < t[0] || (s[0] == t[0] && Less(s[1..], t[1..]))
  }

  predicate Leq(s: string, t: string) {
    !Less(t, s)
  }

  /** At the first difference the first text has the smaller character, or ends. */
  ghost predicate FirstDiffer(s: string, t: string, k: nat) {
    k <= |s| && k < |t| && s[..k] == t[..k] && (k == |s| || s[k] < t[k])
  }

  lemma {:induction false} LessExact(s: string, t: string)
    ensures Less(s, t) <==> exists k: nat :: FirstDiffer(s, t, k)
  {
    if s == "" && t != "" {
      assert FirstDiffer(s, t, 0);
    } else if s != "" && t != "" {
      LessExact(s[1..], t[1..]);
      if s[0] < t[0] {
        assert FirstDiffer(s, t, 0);
      }
      if s[0] == t[0] && Less(s[1..], t[1..]) {
        var k: nat :| FirstDiffer(s[1..], t[1..], k);
        assert s[..k + 1] == [s[0]] + s[1..][..k] && t[..k + 1] == [t[0]] + t[1..][..k];
        assert FirstDiffer(s, t, k + 1);
      }
      if k: nat :| FirstDiffer(s, t, k) && k > 0 {
        assert s[..k][0] == t[..k][0];
        assert s[1..][..k - 1] == s[..k][1..] && t[1..][..k - 1] == t[..k][1..];
        assert FirstDiffer(s[1..], t[1..], k - 1);
      }
    }
  }

  lemma {:induction false} LessTrans(s: string, t: string, u: string)
    requires Leq(s, t) && Leq(t, u)
    ensures Leq(s, u)
  {
    if s != "" && t != "" && u != "" && s[0] == t[0] && t[0] == u[0] {
      LessTrans(s[1..], t[1..], u[1..]);
    }
  }

  lemma {:induction false} LeqAntisymmetric(s: string, t: string)
    requires Leq(s, t) && Leq(t, s)
    ensures s == t
  {
    if s != "" && t != "" {
      LeqAntisymmetric(s[1..], t[1..]);
      assert s == [s[0]] + s[1..] && t == [t[0]] + t[1..];
    }
  }

  lemma {:induction false} LessImpliesLeq(s: string, t: string)
    requires Less(s, t)
    ensures Leq(s, t)
  {
    if s != "" && s[0] == t[0] {
      LessImpliesLeq(s[1..], t[1..]);
    }
  }

  ghost predicate Sorted(s: seq<string>) {
    forall i, j :: 0 <= i < j < |s| ==> Leq(s[i], s[j])
  }

  /** Sorted except that the element at k has yet to move left. */
  ghost predicate SortedBut(s: seq<string>, k: nat) {
    forall i, j :: 0 <= i < j < |s| && j != k ==> Leq(s[i], s[j])
  }

  lemma SwapLeft(s: seq<string>, k: nat)
    requires 0 < k < |s| && SortedBut(s, k) && Less(s[k], s[k - 1])
    ensures SortedBut(s[k := s[k - 1]][k - 1 := s[k]], k - 1)
  {
    LessImpliesLeq(s[k], s[k - 1]);
  }

  lemma InPlace(s: seq<string>, k: nat)
    requires k < |s| && SortedBut(s, k) && (k > 0 ==> Leq(s[k - 1], s[k]))
    ensures Sorted(s)
  {
    forall i | 0 <= i < k ensures Leq(s[i], s[k]) {
      if i < k - 1 {
        LessTrans(s[i], s[k - 1], s[k]);
      }
    }
  }

  method Swap(a: array<string>, j: nat)
    requires 0 < j < a.Length
    modifies a
    ensures a[..] == old(a[..])[j := old(a[j - 1])][j - 1 := old(a[j])]
    ensures multiset(a[..]) == multiset(old(a[..]))
  {
    a[j], a[j - 1] := a[j - 1], a[j];
  }

  /** Moves the element at i to its place among the sorted ones before it. */
  method Insert(a: array<string>, i: nat)
    requires i < a.Length && Sorted(a[..i])
    modifies a
    ensures Sorted(a[..i + 1])
    ensures a[i + 1..] == old(a[i + 1..])
    ensures multiset(a[..]) == multiset(old(a[..]))
  {
    var j := i;
    while j > 0 && Less(a[j], a[j - 1])
      invariant 0 <= j <= i
      invariant SortedBut(a[..i + 1], j)
      invariant a[i + 1..] == old(a[i + 1..])
      invariant multiset(a[..]) == multiset(old(a[..]))
    {
      ghost var before := a[..i + 1];
      SwapLeft(before, j);
      Swap(a, j);
      assert a[..i + 1] == before[j := before[j - 1]][j - 1 := before[j]];
      j := j - 1;
    }
    InPlace(a[..i + 1], j);
  }

  method SortStrings(a: array<string>)
    modifies a
    ensures Sorted(a[..])
    ensures multiset(a[..]) == multiset(old(a[..]))
  {
    if a.Length > 0 {
      for i := 1 to a.Length
        invariant Sorted(a[..i])
        invariant multiset(a[..]) == multiset(old(a[..]))
      {
        Insert(a, i);
      }
      assert a[..a.Length] == a[..];
    }
  }

  /** A list of the members of a set, each once, in sorted order. */
  ghost predicate Listing(s: seq<string>, members: set<string>) {
    Sorted(s) && NoDup(s) && Elements(s) == members
  }

  /** The members of a set, taken in an arbitrary order, sorted. */
  method SortedMembers(members: set<string>) returns (r: seq<string>)
    ensures Listing(r, members)
  {
    var collected: seq<string> := [];
    var todo := members;
    while todo != {}
      invariant todo <= members && NoDup(collected) && Elements(collected) == members - todo
    {
      var x :| x in todo;
      assert x !in Elements(collected);
      assert Elements(collected + [x]) == Elements(collected) + {x};
      collected := collected + [x];
      todo := todo - {x};
    }
    var a := new string[|collected|](i requires 0 <= i < |collected| => collected[i]);
    assert a[..] == collected;
    SortStrings(a);
    r := a[..];
    SameElements(r, collected);
  }

  lemma SameElements(a: seq<string>, b: seq<string>)
    requires multiset(a) == multiset(b) && NoDup(b)
    ensures NoDup(a) && Elements(a) == Elements(b)
  {
    forall x ensures x in a <==> x in b {
      assert x in multiset(a) <==> x in multiset(b);
    }
    NoDupCounts(b);
    RepeatCounts(a);
  }

  lemma RepeatCounts(s: seq<string>)
    ensures !NoDup(s) ==> exists x :: multiset(s)[x] >= 2
  {
    if !NoDup(s) {
      var i, j :| 0 <= i < j < |s| && s[i] == s[j];
      assert s == s[..i] + [s[i]] + s[i + 1..];
      assert s[j] == s[i + 1..][j - i - 1];
      assert multiset(s)[s[i]] >= 2;
    }
  }

  lemma {:induction false} NoDupCounts(s: seq<string>)
    requires NoDup(s)
    ensures forall x :: multiset(s)[x] <= 1
  {
    if s != [] {
      var front, last := s[..|s| - 1], s[|s| - 1];
      assert s == front + [last];
      NoDupCounts(front);
    }
  }

  /** The sorted list of a set is determined by the set. */
  lemma {:induction false} ListingUnique(a: seq<string>, b: seq<string>, members: set<string>)
    requires Listing(a, members) && Listing(b, members)
    ensures a == b
    decreases |a|
  {
    EmptyElements(a);
    EmptyElements(b);
    if a != [] {
      assert a[0] in Elements(a) && b[0] in Elements(b);
      FirstIsLeast(a, b[0]);
      FirstIsLeast(b, a[0]);
      LeqAntisymmetric(a[0], b[0]);
      ListingTail(a, members);
      ListingTail(b, members);
      ListingUnique(a[1..], b[1..], members - {a[0]});
    }
  }

  lemma EmptyElements(s: seq<string>)
    ensures s == [] <==> Elements(s) == {}
  {
    if s != [] {
      assert s[0] in Elements(s);
    }
  }

  lemma FirstIsLeast(a: seq<string>, x: string)
    requires Sorted(a) && x in a
    ensures Leq(a[0], x)
  {
    LeqRefl(x);
  }

  lemma {:induction false} LeqRefl(x: string)
    ensures Leq(x, x)
  {
    if x != "" { LeqRefl(x[1..]); }
  }

  lemma ListingTail(a: seq<string>, members: set<string>)
    requires Listing(a, members) && a != []
    ensures Listing(a[1..], members - {a[0]})
  {
    NoDupTail(a);
    assert a == [a[0]] + a[1..];
    forall i, j | 0 <= i < j < |a| - 1 ensures Leq(a[1..][i], a[1..][j]) {
      assert Leq(a[i + 1], a[j + 1]);
    }
  }

  lemma ListedKeys(keys: seq<string>, m: map<string, string>)
    requires Listing(keys, m.Keys)
    ensures forall k <- keys :: k in m
  {
    forall k | k in keys ensures k in m {
      assert k in Elements(keys);
    }
  }

  /** Two different texts, the smaller one first. */
  lemma ListingOfTwo(keys: seq<string>, a: string, b: string)
    requires Listing(keys, {a, b}) && a != b && Less(a, b)
    ensures keys == [a, b]
  {
    LessImpliesLeq(a, b);
    assert Elements([a, b]) == {a, b};
    ListingUnique(keys, [a, b], {a, b});
  }
}
