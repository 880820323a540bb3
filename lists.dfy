/** The array operations the normalisers are built from: flattening and `Array.from(new Set(xs))`. */
module Lists {

  /** No element of xs occurs twice. */
  ghost predicate NoDup<T>(xs: seq<T>) {
    forall i, j :: 0 <= i < j < |xs| ==> xs[i] != xs[j]
  }

  /** A prefix of a suffix of s is a slice of s. */
  lemma SliceOfSuffix<T>(s: seq<T>, a: nat, k: nat)
    requires a + k <= |s|
    ensures s[a..][..k] == s[a..a + k]
  {
  }

  /** The empty list is a left unit of concatenation. */
  lemma EmptyConcat<T>(x: seq<T>)
    ensures [] + x == x
  {
  }

  /** Concatenation is associative. */
  lemma ConcatAssoc<T>(a: seq<T>, b: seq<T>, c: seq<T>)
    ensures a + (b + c) == (a + b) + c
  {
  }

  /** The first elements of a + b are those of a, and dropping them leaves the rest of a, then b. */
  lemma ConcatHead<T>(a: seq<T>, b: seq<T>)
    requires a != []
    ensures (a + b)[0] == a[0] && (a + b)[1..] == a[1..] + b
    ensures |a| >= 2 ==> (a + b)[1] == a[1] && (a + b)[2..] == a[2..] + b
  {
  }

  /** A suffix of s is a slice of s followed by the suffix after it. */
  lemma SuffixSplit<T>(s: seq<T>, i: nat, j: nat)
    requires i <= j <= |s|
    ensures s[i..] == s[i..j] + s[j..]
  {
  }

  /** The lists of xss concatenated in order (`flat()`, or `reduce` with `concat` from `[]`). */
  function Flatten<T>(xss: seq<seq<T>>): (r: seq<T>)
    ensures |xss| == 1 ==> r == xss[0]
  {
    if xss == [] then [] else xss[0] + Flatten(xss[1..])
  }

  /** An element is in the flattened list exactly when it is in one of the lists. */
  lemma {:induction false} FlattenMembers<T>(xss: seq<seq<T>>, x: T)
    ensures x in Flatten(xss) <==> exists k :: 0 <= k < |xss| && x in xss[k]
  {
    if xss != [] {
      FlattenMembers(xss[1..], x);
      assert forall k :: 1 <= k < |xss| ==> xss[k] == xss[1..][k - 1];
      if x in Flatten(xss[1..]) {
        var k :| 0 <= k < |xss[1..]| && x in xss[1..][k];
        assert x in xss[k + 1];
      }
    }
  }

  /** Flattening keeps the order of the outer list: flattening a concatenation concatenates. */
  lemma {:induction false} FlattenAppend<T>(a: seq<seq<T>>, b: seq<seq<T>>)
    ensures Flatten(a + b) == Flatten(a) + Flatten(b)
  {
    if a == [] {
      assert a + b == b;
    } else {
      assert (a + b)[1..] == a[1..] + b;
      FlattenAppend(a[1..], b);
      assert Flatten(a + b) == a[0] + (Flatten(a[1..]) + Flatten(b));
    }
  }

  /** Flattening the one-element lists of the elements of xs gives xs back. */
  lemma {:induction false} FlattenSingletons<T>(xs: seq<T>)
    ensures Flatten(seq(|xs|, i requires 0 <= i < |xs| => [xs[i]])) == xs
  {
    if xs != [] {
      FlattenSingletons(xs[1..]);
      var ys := seq(|xs|, i requires 0 <= i < |xs| => [xs[i]]);
      assert ys[1..] == seq(|xs[1..]|, i requires 0 <= i < |xs[1..]| => [xs[1..][i]]);
      assert xs == [xs[0]] + xs[1..];
    }
  }

  /**
   * `Array.from(new Set(xs))`: a Set keeps the first insertion of each value, so
   * the result is xs with every element after its first occurrence dropped.
   */
  function Dedupe<T(==)>(xs: seq<T>): (r: seq<T>)
    ensures NoDup(r)
    ensures forall i :: 0 <= i < |xs| ==> xs[i] in r
    ensures forall i :: 0 <= i < |r| ==> r[i] in xs
    ensures |r| <= |xs|
  {
    if xs == [] then []
    else
      var r := Dedupe(xs[..|xs| - 1]);
      var x := xs[|xs| - 1];
      assert xs == xs[..|xs| - 1] + [x];
      if x in r then r else r + [x]
  }

  /** An element is in the deduplicated list exactly when it is in the original list. */
  lemma DedupeMembers<T>(xs: seq<T>, x: T)
    ensures x in Dedupe(xs) <==> x in xs
  {
    var r := Dedupe(xs);
    if x in r {
      var i :| 0 <= i < |r| && r[i] == x;
    }
    if x in xs {
      var i :| 0 <= i < |xs| && xs[i] == x;
    }
  }

  /** Whenever r[i] comes before r[j], r[i] occurs in xs before any occurrence of r[j]. */
  ghost predicate FirstSeenOrder<T>(xs: seq<T>, r: seq<T>) {
    forall i, j, k :: 0 <= i < j < |r| && 0 <= k < |xs| && xs[k] == r[j] ==> r[i] in xs[..k]
  }

  /**
   * The result is in order of first occurrence: whenever r[i] comes before r[j],
   * r[i] has already occurred in xs before any occurrence of r[j].
   */
  lemma {:induction false} DedupeFirstSeenOrder<T>(xs: seq<T>)
    ensures FirstSeenOrder(xs, Dedupe(xs))
  {
    if xs != [] {
      var n := |xs|;
      var ys := xs[..n - 1];
      var x := xs[n - 1];
      DedupeFirstSeenOrder(ys);
      var r', r := Dedupe(ys), Dedupe(xs);
      assert FirstSeenOrder(ys, r');
      forall i, j, k | 0 <= i < j < |r| && 0 <= k < n && xs[k] == r[j]
        ensures r[i] in xs[..k]
      {
        assert i < |r'| && r[i] == r'[i];
        if k < n - 1 {
          assert xs[k] == ys[k];
          if j < |r'| {
            assert r[j] == r'[j] && ys[k] == r'[j];
            assert r'[i] in ys[..k];
            assert ys[..k] == xs[..k];
          } else {
            // r[j] is x, which is new in r, so x never occurred in ys
            assert false;
          }
        } else {
          assert r'[i] in ys;
          assert xs[..k] == ys;
        }
      }
    }
  }

  /** A list without duplicates is left as it is. */
  lemma {:induction false} DedupeOfDistinct<T>(xs: seq<T>)
    requires NoDup(xs)
    ensures Dedupe(xs) == xs
  {
    if xs != [] {
      var ys := xs[..|xs| - 1];
      assert NoDup(ys);
      DedupeOfDistinct(ys);
      assert xs[|xs| - 1] !in ys;
      assert ys + [xs[|xs| - 1]] == xs;
    }
  }

  /** Two different elements make a list without duplicates. */
  lemma NoDupPair<T>(x: T, y: T)
    requires x != y
    ensures NoDup([x, y])
  {
  }

  /** Deduplicating twice is deduplicating once. */
  lemma DedupeIdempotent<T>(xs: seq<T>)
    ensures Dedupe(Dedupe(xs)) == Dedupe(xs)
  {
    DedupeOfDistinct(Dedupe(xs));
  }
}
