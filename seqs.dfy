/** Generic facts about sequences used by the graph model: distinctness,
    first-occurrence index, reversal and the cardinality bounds that follow
    from distinctness. */
module Seqs {

  /** No element occurs twice. */
  predicate Distinct<T(==)>(s: seq<T>) {
    forall i, j :: 0 <= i < j < |s| ==> s[i] != s[j]
  }

  /** The set of elements of a sequence. */
  function Elems<T(==)>(s: seq<T>): set<T> {
    set x | x in s
  }

  /** Position of the first occurrence of `x` (JavaScript's `indexOf`). */
  function IndexOf<T(==)>(s: seq<T>, x: T): (k: nat)
    requires x in s
    ensures k < |s| && s[k] == x && x !in s[..k]
  {
    if s[0] == x then 0
    else
      var k' := IndexOf(s[1..], x);
      assert s[..k' + 1] == [s[0]] + s[1..][..k'];
      k' + 1
  }

  /** In a sequence without repetitions the first occurrence is the only one. */
  lemma IndexOfDistinct<T>(s: seq<T>, i: int)
    requires Distinct(s) && 0 <= i < |s|
    ensures IndexOf(s, s[i]) == i
  {
  }

  /** The sequence read back to front (JavaScript's `reverse`). */
  function Reverse<T(==)>(s: seq<T>): (r: seq<T>)
    ensures |r| == |s|
  {
    seq(|s|, i requires 0 <= i < |s| => s[|s| - 1 - i])
  }

  /** The elements of `s` that `keep` accepts, in their order
      (`Array.prototype.filter`). */
  function Filter<T(!new)>(s: seq<T>, keep: T -> bool): (r: seq<T>)
    ensures |r| <= |s|
    ensures forall x :: x in r <==> x in s && keep(x)
  {
    if s == [] then []
    else
      assert s == s[..|s| - 1] + [s[|s| - 1]];
      Filter(s[..|s| - 1], keep) + (if keep(s[|s| - 1]) then [s[|s| - 1]] else [])
  }

  /** Reversal keeps the elements and their distinctness. */
  lemma ReverseKeeps<T>(s: seq<T>)
    ensures Elems(Reverse(s)) == Elems(s)
    ensures Distinct(s) ==> Distinct(Reverse(s))
  {
    var r := Reverse(s);
    var n := |s|;
    forall x | x in s ensures x in r {
      var i :| 0 <= i < n && s[i] == x;
      assert r[n - 1 - i] == x;
    }
    if Distinct(s) {
      forall i, j | 0 <= i < j < n ensures r[i] != r[j] {
        assert r[i] == s[n - 1 - i] && r[j] == s[n - 1 - j];
      }
    }
  }

  lemma {:induction false} DistinctCard<T>(s: seq<T>)
    requires Distinct(s)
    ensures |Elems(s)| == |s|
  {
    if s != [] {
      DistinctCard(s[1..]);
      assert Elems(s) == {s[0]} + Elems(s[1..]);
      assert s[0] !in Elems(s[1..]);
    }
  }

  lemma {:induction false} SubsetCard<T>(a: set<T>, b: set<T>)
    requires a <= b
    ensures |a| <= |b|
    decreases b
  {
    if a != {} {
      var x :| x in a;
      SubsetCard(a - {x}, b - {x});
    }
  }

  /** Taking one more element of `s` appends it. */
  lemma TakeOneMore<T>(s: seq<T>, j: nat)
    requires j < |s|
    ensures s[..j + 1] == s[..j] + [s[j]]
  {
  }

  /** Dropping `j` elements leaves `s[j]` in front of the rest. */
  lemma DropFront<T>(s: seq<T>, j: nat)
    requires j < |s|
    ensures s[j..][0] == s[j] && s[j..][1..] == s[j + 1..]
  {
  }

  /** A sequence is its prefix followed by the rest. */
  lemma SplitAt<T>(s: seq<T>, n: nat)
    requires n <= |s|
    ensures s == s[..n] + s[n..]
  {
  }

  /** Appending to the second part of a concatenation appends to the whole. */
  lemma FrontSplit<T>(a: seq<T>, s: seq<T>)
    requires s != []
    ensures a + [s[0]] + s[1..] == a + s
  {
  }

  lemma AppendAssoc<T>(a: seq<T>, b: seq<T>, x: T)
    ensures a + b + [x] == a + (b + [x])
  {
  }

  /** Appending two elements at once or one after the other. */
  lemma AppendPair<T>(a: seq<T>, x: T, y: T)
    ensures a + [x, y] == a + [x] + [y]
  {
  }

  /** Appending leaves a prefix alone and extends the matching suffix. */
  lemma SliceAppend<T>(s: seq<T>, n: nat, x: T)
    requires n <= |s|
    ensures (s + [x])[..n] == s[..n] && (s + [x])[n..] == s[n..] + [x]
  {
  }

  /** Concatenation is associative. */
  lemma ConcatAssoc<T>(a: seq<T>, b: seq<T>, c: seq<T>)
    ensures a + b + c == a + (b + c)
  {
  }

  /** The elements of `s + [x]`. */
  lemma ElemsAppend<T>(s: seq<T>, x: T)
    ensures Elems(s + [x]) == Elems(s) + {x}
  {
  }

  /** Taking or dropping everything or nothing. */
  lemma TakeDropEnds<T>(s: seq<T>)
    ensures s[..0] == [] && s[0..] == s && s[..|s|] == s && s[|s|..] == []
  {
  }

  /** A subset as large as its superset is the whole superset. */
  lemma {:induction false} SubsetSameCard<T>(a: set<T>, b: set<T>)
    requires a <= b && |a| == |b|
    ensures a == b
    decreases a
  {
    if a != {} {
      var x :| x in a;
      SubsetSameCard(a - {x}, b - {x});
    }
  }

  /** A subset smaller than its superset leaves an element out. */
  lemma {:induction false} MissingElement<T>(a: set<T>, b: set<T>) returns (x: T)
    requires a <= b && |a| < |b|
    ensures x in b && x !in a
    decreases a
  {
    if a == {} {
      x :| x in b;
    } else {
      var y :| y in a;
      x := MissingElement(a - {y}, b - {y});
    }
  }

  /** A sequence without repetitions drawn from `A` has at most |A| elements. */
  lemma DistinctAppend<T>(s: seq<T>, x: T)
    requires Distinct(s) && x !in s
    ensures Distinct(s + [x])
  {
  }

  lemma DistinctPrefix<T>(s: seq<T>, x: T)
    requires Distinct(s + [x])
    ensures Distinct(s) && x !in s
  {
    assert forall i :: 0 <= i < |s| ==> (s + [x])[i] == s[i];
    assert (s + [x])[|s|] == x;
  }

  lemma DistinctWithin<T>(s: seq<T>, A: set<T>)
    requires Distinct(s) && Elems(s) <= A
    ensures |s| <= |A|
  {
    DistinctCard(s);
    SubsetCard(Elems(s), A);
  }

  /** A sequence without repetitions counts each of its elements once. */
  lemma {:induction false} DistinctMultiplicity<T>(s: seq<T>, x: T)
    requires Distinct(s)
    ensures multiset(s)[x] == if x in s then 1 else 0
  {
    if s != [] {
      assert s == [s[0]] + s[1..];
      DistinctMultiplicity(s[1..], x);
    }
  }

  /** Two sequences without repetitions over the same elements are permutations of each other. */
  lemma SameElementsPermutation<T>(a: seq<T>, b: seq<T>)
    requires Distinct(a) && Distinct(b) && Elems(a) == Elems(b)
    ensures multiset(a) == multiset(b)
  {
    forall x
      ensures multiset(a)[x] == multiset(b)[x]
    {
      DistinctMultiplicity(a, x);
      DistinctMultiplicity(b, x);
      assert x in a <==> x in Elems(a);
    }
  }

  /** The first occurrence of each element, in order: what pushing only the
      elements not yet recorded in a set leaves. */
  function Dedup<T(==)>(s: seq<T>): (r: seq<T>)
    ensures Distinct(r) && Elems(r) == Elems(s) && |r| <= |s|
  {
    if s == [] then []
    else
      var init := s[..|s| - 1];
      var last := s[|s| - 1];
      var r := Dedup(init);
      assert s == init + [last];
      assert Elems(s) == Elems(init) + {last};
      if last in r then r else r + [last]
  }

  /** Dedup over one more element of `s`. */
  lemma DedupStep<T>(s: seq<T>, i: nat)
    requires i < |s|
    ensures Dedup(s[..i + 1]) == if s[i] in Dedup(s[..i]) then Dedup(s[..i]) else Dedup(s[..i]) + [s[i]]
  {
    assert s[..i + 1][..i] == s[..i];
  }
}
