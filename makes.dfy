/**
 * The make normaliser of the search page: every raw make string is split on each comma
 * (there is no escape), every piece is trimmed, the pieces are concatenated in order,
 * and duplicates are dropped.
 */
module Makes {
  import opened Text
  import opened Lists

  /** Index of the first comma of s, or |s| when there is none (`indexOf(',')`). */
  function IndexOfComma(s: string): (i: nat)
    ensures i <= |s| && (i < |s| ==> s[i] == ',') && ',' !in s[..i]
  {
    if s == [] || s[0] == ',' then 0
    else
      var i := IndexOfComma(s[1..]);
      assert s[..1 + i] == [s[0]] + s[1..][..i];
      1 + i
  }

  /** make.split(','): the texts before, between and after the commas of s. */
  function SplitOnComma(s: string): (r: seq<string>)
    ensures |r| >= 1
    decreases |s|
  {
    var i := IndexOfComma(s);
    if i == |s| then [s] else [s[..i]] + SplitOnComma(s[i + 1..])
  }

  /** The pieces joined back together with a comma between consecutive ones (`join(',')`). */
  function Join(pieces: seq<string>): string
    requires |pieces| >= 1
  {
    if |pieces| == 1 then pieces[0] else pieces[0] + [','] + Join(pieces[1..])
  }

  /** Number of commas in s. */
  function Commas(s: string): nat {
    multiset(s)[',']
  }

  /** No piece of the split holds a comma. */
  lemma {:induction false} SplitPiecesHaveNoComma(s: string)
    ensures forall j :: 0 <= j < |SplitOnComma(s)| ==> ',' !in SplitOnComma(s)[j]
    decreases |s|
  {
    var i := IndexOfComma(s);
    if i < |s| {
      var rest := SplitOnComma(s[i + 1..]);
      SplitPiecesHaveNoComma(s[i + 1..]);
      var r := SplitOnComma(s);
      assert r == [s[..i]] + rest;
      forall j | 1 <= j < |r| ensures ',' !in r[j] {
        assert r[j] == rest[j - 1];
      }
    }
  }

  /** s as the text before its first comma, the comma, and the text after it. */
  lemma FirstComma(s: string, i: nat)
    requires i == IndexOfComma(s) < |s|
    ensures s == s[..i] + [','] + s[i + 1..]
    ensures multiset(s)[','] == multiset(s[i + 1..])[','] + 1
  {
    assert s == s[..i] + [','] + s[i + 1..];
    assert multiset(s) == multiset(s[..i]) + multiset{','} + multiset(s[i + 1..]);
    assert multiset(s[..i])[','] == 0;
  }

  /** A raw make string gives one more piece than it has commas. */
  lemma {:induction false} SplitCount(s: string)
    ensures |SplitOnComma(s)| == Commas(s) + 1
    decreases |s|
  {
    var i := IndexOfComma(s);
    if i < |s| {
      FirstComma(s, i);
      SplitCount(s[i + 1..]);
    } else {
      assert s[..i] == s;
    }
  }

  /** Joining the pieces with commas gives back the raw string: the split drops exactly the commas. */
  lemma {:induction false} JoinSplit(s: string)
    ensures Join(SplitOnComma(s)) == s
    decreases |s|
  {
    var i := IndexOfComma(s);
    if i < |s| {
      var rest := SplitOnComma(s[i + 1..]);
      JoinSplit(s[i + 1..]);
      var r := [s[..i]] + rest;
      assert r[0] == s[..i] && r[1..] == rest;
      assert Join(r) == s[..i] + [','] + Join(rest);
      FirstComma(s, i);
    }
  }

  /** The first comma of a + "," + b is the one after a, when a has none. */
  lemma IndexOfCommaAfter(a: string, b: string)
    requires ',' !in a
    ensures IndexOfComma(a + [','] + b) == |a|
    ensures (a + [','] + b)[..|a|] == a && (a + [','] + b)[|a| + 1..] == b
  {
    var s := a + [','] + b;
    assert s[|a|] == ',';
    assert forall j :: 0 <= j < |a| ==> s[j] == a[j];
  }

  /** Splitting comma-free pieces joined with commas gives the pieces back. */
  lemma {:induction false} SplitJoin(pieces: seq<string>)
    requires |pieces| >= 1
    requires forall j :: 0 <= j < |pieces| ==> ',' !in pieces[j]
    ensures SplitOnComma(Join(pieces)) == pieces
    decreases |pieces|
  {
    var p := pieces[0];
    if |pieces| == 1 {
      assert IndexOfComma(p) == |p|;
      assert p[..|p|] == p;
    } else {
      var tail := pieces[1..];
      assert forall j :: 0 <= j < |tail| ==> tail[j] == pieces[j + 1];
      SplitJoin(tail);
      var b := Join(tail);
      IndexOfCommaAfter(p, b);
      assert Join(pieces) == p + [','] + b;
      assert SplitOnComma(Join(pieces)) == [p] + SplitOnComma(b);
      assert pieces == [p] + tail;
    }
  }

  /** The trimmed pieces of one raw make string, in order. */
  function MakeEntries(m: string): (r: seq<string>)
    ensures var pieces := SplitOnComma(m);
      |r| == |pieces| && forall i :: 0 <= i < |r| ==> r[i] == Trim(pieces[i])
  {
    var pieces := SplitOnComma(m);
    seq(|pieces|, i requires 0 <= i < |pieces| => Trim(pieces[i]))
  }

  /** Every entry of a raw make string is trimmed and holds no comma. */
  lemma MakeEntriesShape(m: string)
    ensures forall i :: 0 <= i < |MakeEntries(m)| ==> ',' !in MakeEntries(m)[i] && IsTrimmed(MakeEntries(m)[i])
  {
    var e := MakeEntries(m);
    var pieces := SplitOnComma(m);
    SplitPiecesHaveNoComma(m);
    forall i | 0 <= i < |e| ensures ',' !in e[i] {
      if ',' in e[i] {
        TrimSubset(pieces[i], ',');
      }
    }
  }

  /** Every entry of a raw make string is a trimmed piece of it. */
  lemma MakeEntriesOnlyPieces(m: string, x: string)
    requires x in MakeEntries(m)
    ensures exists j :: 0 <= j < |SplitOnComma(m)| && x == Trim(SplitOnComma(m)[j])
  {
    var e := MakeEntries(m);
    var j :| 0 <= j < |e| && e[j] == x;
  }

  /** Every trimmed piece of a raw make string is one of its entries. */
  lemma MakeEntriesAllPieces(m: string, j: nat)
    requires j < |SplitOnComma(m)|
    ensures Trim(SplitOnComma(m)[j]) in MakeEntries(m)
  {
    assert MakeEntries(m)[j] == Trim(SplitOnComma(m)[j]);
  }

  /** The entry lists of all raw make strings, one per raw string (the `map`). */
  function MakeLists(raws: seq<string>): (es: seq<seq<string>>)
    ensures |es| == |raws| && forall k :: 0 <= k < |es| ==> es[k] == MakeEntries(raws[k])
  {
    seq(|raws|, k requires 0 <= k < |raws| => MakeEntries(raws[k]))
  }

  /** The entries of all raw strings, concatenated in input order (the `flat()`). */
  function AllMakes(raws: seq<string>): (r: seq<string>)
    ensures raws == [] ==> r == []
    ensures |raws| == 1 ==> r == MakeEntries(raws[0])
  {
    Flatten(MakeLists(raws))
  }

  /** Every string in the concatenated entries is a trimmed piece of some raw string. */
  lemma AllMakesOnlyPieces(raws: seq<string>, x: string)
    requires x in AllMakes(raws)
    ensures exists k, j :: 0 <= k < |raws| && 0 <= j < |SplitOnComma(raws[k])| && x == Trim(SplitOnComma(raws[k])[j])
  {
    var es := MakeLists(raws);
    FlattenMembers(es, x);
    var k :| 0 <= k < |es| && x in es[k];
    MakeEntriesOnlyPieces(raws[k], x);
    var j :| 0 <= j < |SplitOnComma(raws[k])| && x == Trim(SplitOnComma(raws[k])[j]);
  }

  /** Every trimmed piece of every raw string is in the concatenated entries. */
  lemma AllMakesAllPieces(raws: seq<string>, k: nat, j: nat)
    requires k < |raws| && j < |SplitOnComma(raws[k])|
    ensures Trim(SplitOnComma(raws[k])[j]) in AllMakes(raws)
  {
    var x := Trim(SplitOnComma(raws[k])[j]);
    var es := MakeLists(raws);
    MakeEntriesAllPieces(raws[k], j);
    assert x in es[k];
    FlattenMembers(es, x);
  }

  /** Every element of the concatenated entries is trimmed and holds no comma. */
  lemma AllMakesShape(raws: seq<string>, x: string)
    requires x in AllMakes(raws)
    ensures ',' !in x && IsTrimmed(x)
  {
    var es := MakeLists(raws);
    FlattenMembers(es, x);
    var k :| 0 <= k < |es| && x in es[k];
    MakeEntriesShape(raws[k]);
    var j :| 0 <= j < |es[k]| && es[k][j] == x;
  }

  /** The list of makes: every trimmed piece of every raw make string, first occurrence kept. */
  function NormaliseMakes(raws: seq<string>): (r: seq<string>)
    ensures NoDup(r)
  {
    Dedupe(AllMakes(raws))
  }

  /** A string is in the list of makes exactly when it is a trimmed piece of some raw make string. */
  lemma NormaliseMakesMembers(raws: seq<string>, x: string)
    ensures x in NormaliseMakes(raws) <==>
      exists k, j :: 0 <= k < |raws| && 0 <= j < |SplitOnComma(raws[k])| && x == Trim(SplitOnComma(raws[k])[j])
  {
    DedupeMembers(AllMakes(raws), x);
    if x in AllMakes(raws) {
      AllMakesOnlyPieces(raws, x);
    }
    if exists k, j :: 0 <= k < |raws| && 0 <= j < |SplitOnComma(raws[k])| && x == Trim(SplitOnComma(raws[k])[j]) {
      var k, j :| 0 <= k < |raws| && 0 <= j < |SplitOnComma(raws[k])| && x == Trim(SplitOnComma(raws[k])[j]);
      AllMakesAllPieces(raws, k, j);
    }
  }

  /** No make occurs twice, every make is trimmed and holds no comma, and they come in order of first occurrence. */
  lemma NormaliseMakesShape(raws: seq<string>)
    ensures var r := NormaliseMakes(raws);
      NoDup(r) && (forall i :: 0 <= i < |r| ==> ',' !in r[i] && IsTrimmed(r[i]))
      && FirstSeenOrder(AllMakes(raws), r)
  {
    var all := AllMakes(raws);
    var r := NormaliseMakes(raws);
    DedupeFirstSeenOrder(all);
    forall i | 0 <= i < |r| ensures ',' !in r[i] && IsTrimmed(r[i]) {
      DedupeMembers(all, r[i]);
      AllMakesShape(raws, r[i]);
    }
  }

  /** A raw make string without a comma gives one entry: itself, trimmed. */
  lemma MakeEntriesWithoutComma(m: string)
    requires ',' !in m
    ensures MakeEntries(m) == [Trim(m)]
  {
    assert IndexOfComma(m) == |m|;
    assert m[..|m|] == m;
  }

  /** Normalising a list that is already normalised (trimmed, comma-free, distinct) changes nothing. */
  lemma NormaliseMakesOfNormalised(raws: seq<string>)
    requires NoDup(raws)
    requires forall k :: 0 <= k < |raws| ==> ',' !in raws[k] && IsTrimmed(raws[k])
    ensures NormaliseMakes(raws) == raws
  {
    var es := MakeLists(raws);
    var ones := seq(|raws|, k requires 0 <= k < |raws| => [raws[k]]);
    forall k | 0 <= k < |raws| ensures es[k] == ones[k] {
      MakeEntriesWithoutComma(raws[k]);
      TrimOfTrimmed(raws[k]);
    }
    assert es == ones;
    FlattenSingletons(raws);
    DedupeOfDistinct(raws);
  }
}
