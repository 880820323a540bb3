/**
 * The category normaliser of the search page: every raw category string is split with
 * the regular expression /(?:^|[^\\]),/, every piece has each backslash-comma replaced
 * by a comma and is trimmed, the pieces of all strings are concatenated in order, and
 * duplicates are dropped.
 */
module Categories {
  import opened Text
  import opened Lists

  // ---------------------------------------------------------------------------
  // The split, as JavaScript's String.prototype.split runs a regular expression
  // ---------------------------------------------------------------------------

  /**
   * Length of the match of /(?:^|[^\\]),/ anchored at scan position q, or 0 when it
   * does not match there. The first alternative, `^,`, can only match at position 0
   * and is tried first; the second needs a character other than a backslash followed
   * by a comma, and consumes both.
   */
  function MatchAt(s: string, q: nat): (m: nat)
    requires q < |s|
    ensures m <= 2 && q + m <= |s|
    ensures m == 1 ==> q == 0 && s[0] == ','
    ensures m == 2 ==> s[q] != '\\' && s[q + 1] == ','
    ensures q == 0 && s[0] == ',' ==> m == 1
    ensures m == 0 ==> !(q + 1 < |s| && s[q] != '\\' && s[q + 1] == ',')
  {
    if q == 0 && s[0] == ',' then 1
    else if q + 1 < |s| && s[q] != '\\' && s[q + 1] == ',' then 2
    else 0
  }

  /**
   * The split loop: p is where the current piece starts, q the scan position. A failed
   * match moves the scan on by one character; a match ends the piece where the match
   * begins and starts the next piece, and the scan, right after the match. (A match is
   * never empty, so the loop's empty-match case cannot arise and is not written.)
   */
  function SplitFrom(s: string, p: nat, q: nat): (r: seq<string>)
    requires p <= q <= |s|
    ensures |r| >= 1
    decreases |s| - q
  {
    if q == |s| then [s[p..]]
    else
      var m := MatchAt(s, q);
      if m == 0 then SplitFrom(s, p, q + 1)
      else [s[p..q]] + SplitFrom(s, q + m, q + m)
  }

  /**
   * cat.split(/(?:^|[^\\]),/). For the empty string JavaScript returns [""] because the
   * expression cannot match an empty string; the loop gives the same.
   */
  function Split(s: string): (r: seq<string>)
    ensures |r| >= 1
  {
    SplitFrom(s, 0, 0)
  }

  // ---------------------------------------------------------------------------
  // Which commas separate: a position-wise account of the same split
  // ---------------------------------------------------------------------------

  /**
   * The comma at index i separates pieces when it is the first character of s, or when
   * the character before it is not a backslash and was not itself consumed as a separator.
   */
  predicate IsSep(s: string, i: nat)
    requires i < |s|
  {
    s[i] == ',' && (i == 0 || (s[i - 1] != '\\' && !IsSep(s, i - 1)))
  }

  /** The separating commas at index i or later, in increasing order. */
  ghost function SepsFrom(s: string, i: nat): (cs: seq<nat>)
    requires i <= |s|
    ensures forall k :: 0 <= k < |cs| ==> i <= cs[k] < |s|
    decreases |s| - i
  {
    if i == |s| then [] else (if IsSep(s, i) then [i] else []) + SepsFrom(s, i + 1)
  }

  /** The indices of all separating commas of s, in increasing order. */
  ghost function Separators(s: string): (cs: seq<nat>)
    ensures forall k :: 0 <= k < |cs| ==> cs[k] < |s|
  {
    SepsFrom(s, 0)
  }

  /** Where the match of the separator comma at index c begins: the comma itself at index 0, else the character before it. */
  function MatchStart(c: nat): nat {
    if c == 0 then 0 else c - 1
  }

  /** Each match start of cs is at or after p and after the comma before it: the cuts come in order. */
  ghost predicate Chained(p: nat, cs: seq<nat>)
    decreases |cs|
  {
    cs == [] || (p <= MatchStart(cs[0]) && Chained(cs[0] + 1, cs[1..]))
  }

  /** cs are commas of s that can cut s from index p on, in increasing order. */
  ghost predicate Cuts(s: string, p: nat, cs: seq<nat>) {
    (forall k :: 0 <= k < |cs| ==> cs[k] < |s|) && Chained(p, cs)
  }

  /** The pieces of s[p..] between the separator matches at cs. */
  ghost function Segments(s: string, p: nat, cs: seq<nat>): seq<string>
    requires p <= |s| && Cuts(s, p, cs)
    decreases |cs|
  {
    if cs == [] then [s[p..]]
    else
      assert Cuts(s, cs[0] + 1, cs[1..]) by {
        forall k | 0 <= k < |cs| - 1 ensures cs[1..][k] < |s| {
          assert cs[1..][k] == cs[k + 1];
        }
      }
      [s[p..MatchStart(cs[0])]] + Segments(s, cs[0] + 1, cs[1..])
  }

  /** The text each separator match removes: "," at index 0, else the comma and the character before it. */
  ghost function SepTexts(s: string, cs: seq<nat>): (ts: seq<string>)
    requires forall k :: 0 <= k < |cs| ==> cs[k] < |s|
    ensures |ts| == |cs|
  {
    if cs == [] then [] else [s[MatchStart(cs[0])..cs[0] + 1]] + SepTexts(s, cs[1..])
  }

  /** pieces[0] + texts[0] + pieces[1] + ... + pieces[n]: the inverse of a split that keeps what it removed. */
  function Interleave(pieces: seq<string>, texts: seq<string>): string
    requires |pieces| == |texts| + 1
    decreases |texts|
  {
    if texts == [] then pieces[0] else pieces[0] + texts[0] + Interleave(pieces[1..], texts[1..])
  }

  /** Every element of cs is a separator of s at index i or later. */
  ghost predicate SepsAfter(s: string, i: nat, cs: seq<nat>) {
    forall k :: 0 <= k < |cs| ==> i <= cs[k] < |s| && IsSep(s, cs[k])
  }

  /** The elements of cs increase by two at least. */
  ghost predicate Spaced(cs: seq<nat>) {
    forall j, k :: 0 <= j < k < |cs| ==> cs[j] + 2 <= cs[k]
  }

  /** Every separator from index i on is a separator after i, and consecutive ones are two apart at least. */
  lemma {:induction false} SepsFromFacts(s: string, i: nat)
    requires i <= |s|
    ensures SepsAfter(s, i, SepsFrom(s, i)) && Spaced(SepsFrom(s, i))
    decreases |s| - i
  {
    if i < |s| {
      SepsFromFacts(s, i + 1);
      var rest := SepsFrom(s, i + 1);
      if IsSep(s, i) {
        assert i + 1 < |s| ==> !IsSep(s, i + 1);
        ConsSeps(s, i, rest);
      }
    }
  }

  /** Putting a separator at i in front of the separators after i keeps both facts. */
  lemma ConsSeps(s: string, i: nat, rest: seq<nat>)
    requires i < |s| && IsSep(s, i)
    requires i + 1 < |s| ==> !IsSep(s, i + 1)
    requires SepsAfter(s, i + 1, rest) && Spaced(rest)
    ensures SepsAfter(s, i, [i] + rest) && Spaced([i] + rest)
  {
    var cs := [i] + rest;
    assert forall k :: 0 <= k < |rest| ==> i + 2 <= rest[k];
    forall j, k | 0 <= j < k < |cs| ensures cs[j] + 2 <= cs[k] {
      assert cs[k] == rest[k - 1];
      if j > 0 {
        assert cs[j] == rest[j - 1];
      }
    }
    forall k | 0 <= k < |cs| ensures i <= cs[k] < |s| && IsSep(s, cs[k]) {
      if k > 0 {
        assert cs[k] == rest[k - 1];
      }
    }
  }

  /** A comma separates exactly when it is at index 0, or follows a character that is neither a backslash nor a separator comma. */
  lemma SeparatorsExactly(s: string, c: nat)
    ensures c in Separators(s) <==>
      c < |s| && s[c] == ',' && (c == 0 || (s[c - 1] != '\\' && c - 1 !in Separators(s)))
  {
    SepsFromMembers(s, 0, c);
    if c > 0 {
      SepsFromMembers(s, 0, c - 1);
    }
  }

  lemma {:induction false} SepsFromMembers(s: string, i: nat, c: nat)
    requires i <= |s|
    ensures c in SepsFrom(s, i) <==> i <= c < |s| && IsSep(s, c)
    decreases |s| - i
  {
    SepsFromFacts(s, i);
    if i < |s| {
      SepsFromMembers(s, i + 1, c);
    }
  }

  /** A comma right after a backslash never separates. */
  lemma EscapedCommaNeverSplits(s: string, c: nat)
    requires 0 < c < |s| && s[c - 1] == '\\'
    ensures c !in Separators(s)
  {
    SeparatorsExactly(s, c);
  }

  /** A scan position that is no separator adds nothing to the separators from it on. */
  lemma SepsFromSkip(s: string, q: nat)
    requires q < |s| && !IsSep(s, q)
    ensures SepsFrom(s, q) == SepsFrom(s, q + 1)
  {
    EmptyConcat(SepsFrom(s, q + 1));
  }

  /** A separator at the scan position is the first of the separators from it on. */
  lemma SepsFromTake(s: string, q: nat)
    requires q < |s| && IsSep(s, q)
    ensures SepsFrom(s, q) == [q] + SepsFrom(s, q + 1)
  {
  }

  /** The separators from a scan position q on can cut s from any earlier piece start p. */
  lemma SepsFromCuts(s: string, p: nat, q: nat)
    requires p <= q <= |s|
    requires p == q || q > 0
    requires 0 < q < |s| ==> !IsSep(s, q)
    ensures Cuts(s, p, SepsFrom(s, q))
  {
    SepsFromChained(s, p, q);
  }

  /** The match starts of the separators from q on come in order from p on. */
  lemma {:induction false} SepsFromChained(s: string, p: nat, q: nat)
    requires p <= q <= |s|
    requires p == q || q > 0
    requires 0 < q < |s| ==> !IsSep(s, q)
    ensures Chained(p, SepsFrom(s, q))
    decreases |s| - q
  {
    if q == |s| {
      assert SepsFrom(s, q) == [];
    } else if IsSep(s, q) {
      assert q + 1 < |s| ==> !IsSep(s, q + 1);
      SepsFromChained(s, q + 1, q + 1);
      ChainedAtSep(s, p, q);
    } else if q + 1 < |s| && IsSep(s, q + 1) {
      assert q + 2 < |s| ==> !IsSep(s, q + 2);
      SepsFromChained(s, q + 2, q + 2);
      ChainedBeforeSep(s, p, q);
    } else {
      SepsFromChained(s, p, q + 1);
      ChainedAtSkip(s, p, q);
    }
  }

  /** A separator at q opens the chain from any p up to its match start. */
  lemma ChainedAtSep(s: string, p: nat, q: nat)
    requires q < |s| && IsSep(s, q) && p <= MatchStart(q)
    requires Chained(q + 1, SepsFrom(s, q + 1))
    ensures Chained(p, SepsFrom(s, q))
  {
    SepsFromTake(s, q);
    ChainedCons(p, q, SepsFrom(s, q + 1), SepsFrom(s, q));
  }

  /** A separator at q + 1, and none at q, opens the chain from any p up to q. */
  lemma ChainedBeforeSep(s: string, p: nat, q: nat)
    requires q + 1 < |s| && !IsSep(s, q) && IsSep(s, q + 1) && p <= q
    requires Chained(q + 2, SepsFrom(s, q + 2))
    ensures Chained(p, SepsFrom(s, q))
  {
    SepsFromSkip(s, q);
    SepsFromTake(s, q + 1);
    ChainedCons(p, q + 1, SepsFrom(s, q + 2), SepsFrom(s, q));
  }

  /** A position that is no separator leaves the chain from p as it is. */
  lemma ChainedAtSkip(s: string, p: nat, q: nat)
    requires q < |s| && !IsSep(s, q)
    requires Chained(p, SepsFrom(s, q + 1))
    ensures Chained(p, SepsFrom(s, q))
  {
    SepsFromSkip(s, q);
  }

  lemma ChainedCons(p: nat, c: nat, rest: seq<nat>, cs: seq<nat>)
    requires p <= MatchStart(c) && Chained(c + 1, rest) && cs == [c] + rest
    ensures Chained(p, cs)
  {
    assert cs[0] == c && cs[1..] == rest;
  }

  /** The cuts after the first one can cut s from just after the first separator comma. */
  lemma CutsTail(s: string, p: nat, cs: seq<nat>)
    requires Cuts(s, p, cs) && cs != []
    ensures p <= MatchStart(cs[0]) <= cs[0] < |s| && Cuts(s, cs[0] + 1, cs[1..])
  {
    forall k | 0 <= k < |cs| - 1 ensures cs[1..][k] < |s| {
      assert cs[1..][k] == cs[k + 1];
    }
  }

  /** Segments of a list of cuts with a first element c: the piece up to c's match, then the rest. */
  lemma SegmentsCons(s: string, p: nat, q: nat, c: nat, rest: seq<nat>)
    requires p <= |s| && Cuts(s, p, [c] + rest) && q == MatchStart(c)
    ensures p <= q <= c < |s| && Cuts(s, c + 1, rest)
    ensures Segments(s, p, [c] + rest) == [s[p..q]] + Segments(s, c + 1, rest)
  {
    var cs := [c] + rest;
    assert cs[0] == c && cs[1..] == rest;
    CutsTail(s, p, cs);
  }

  /** The split loop run from scan position q cuts at exactly the separators from q on. */
  lemma {:induction false} SplitFromIsSegments(s: string, p: nat, q: nat)
    requires p <= q <= |s|
    requires p == q || q > 0
    requires 0 < q < |s| ==> !IsSep(s, q)
    ensures Cuts(s, p, SepsFrom(s, q))
    ensures SplitFrom(s, p, q) == Segments(s, p, SepsFrom(s, q))
    decreases |s| - q
  {
    if q == |s| {
      EndCase(s, p);
    } else if MatchAt(s, q) == 0 {
      NoMatchStep(s, p, q);
      SplitFromIsSegments(s, p, q + 1);
      NoMatchCase(s, p, q);
    } else {
      var c := q + MatchAt(s, q) - 1;
      MatchStep(s, p, q, c);
      SplitFromIsSegments(s, c + 1, c + 1);
      MatchCase(s, p, q, c, SepsFrom(s, c + 1));
    }
  }

  /** At the end of s the last piece is the rest of s, and no separator is left. */
  lemma EndCase(s: string, p: nat)
    requires p <= |s|
    ensures Cuts(s, p, SepsFrom(s, |s|))
    ensures SplitFrom(s, p, |s|) == Segments(s, p, SepsFrom(s, |s|))
  {
    assert SepsFrom(s, |s|) == [];
  }

  /** No match at q: the scan from q + 1 cuts the same pieces. */
  lemma NoMatchCase(s: string, p: nat, q: nat)
    requires p <= q < |s|
    requires SplitFrom(s, p, q) == SplitFrom(s, p, q + 1) && SepsFrom(s, q) == SepsFrom(s, q + 1)
    requires Cuts(s, p, SepsFrom(s, q + 1))
    requires SplitFrom(s, p, q + 1) == Segments(s, p, SepsFrom(s, q + 1))
    ensures Cuts(s, p, SepsFrom(s, q))
    ensures SplitFrom(s, p, q) == Segments(s, p, SepsFrom(s, q))
  {
  }

  /** A match at q: the piece up to the match, then the pieces the scan after it cuts. */
  lemma MatchCase(s: string, p: nat, q: nat, c: nat, rest: seq<nat>)
    requires p <= q < |s|
    requires 0 < q ==> !IsSep(s, q)
    requires MatchAt(s, q) > 0 && c == q + MatchAt(s, q) - 1 && rest == SepsFrom(s, c + 1)
    requires Cuts(s, c + 1, rest) && SplitFrom(s, c + 1, c + 1) == Segments(s, c + 1, rest)
    ensures Cuts(s, p, SepsFrom(s, q))
    ensures SplitFrom(s, p, q) == Segments(s, p, SepsFrom(s, q))
  {
    MatchStep(s, p, q, c);
    SepsFromCuts(s, p, q);
    SegmentsCons(s, p, q, c, rest);
  }

  /** No match at q: the scan moves on, and q is no separator. */
  lemma NoMatchStep(s: string, p: nat, q: nat)
    requires p <= q < |s|
    requires 0 < q ==> !IsSep(s, q)
    requires MatchAt(s, q) == 0
    ensures SplitFrom(s, p, q) == SplitFrom(s, p, q + 1)
    ensures SepsFrom(s, q) == SepsFrom(s, q + 1)
    ensures q + 1 < |s| ==> !IsSep(s, q + 1)
  {
    assert !IsSep(s, q);
    SepsFromSkip(s, q);
  }

  /** A match at q ends at a separator comma c, the first from q on; the scan resumes after it. */
  lemma MatchStep(s: string, p: nat, q: nat, c: nat)
    requires p <= q < |s|
    requires 0 < q ==> !IsSep(s, q)
    requires MatchAt(s, q) > 0 && c == q + MatchAt(s, q) - 1
    ensures c < |s| && MatchStart(c) == q
    ensures SplitFrom(s, p, q) == [s[p..q]] + SplitFrom(s, c + 1, c + 1)
    ensures SepsFrom(s, q) == [c] + SepsFrom(s, c + 1)
    ensures c + 1 < |s| ==> !IsSep(s, c + 1)
  {
    if MatchAt(s, q) == 1 {
      assert IsSep(s, 0);
      SepsFromTake(s, 0);
    } else {
      assert !IsSep(s, q) && IsSep(s, q + 1);
      SepsFromSkip(s, q);
      SepsFromTake(s, q + 1);
    }
  }

  /** The split cuts s at exactly its separators: the pieces lie between the separator matches. */
  lemma SplitIsSegments(s: string)
    ensures Cuts(s, 0, Separators(s))
    ensures Split(s) == Segments(s, 0, Separators(s))
  {
    SplitFromIsSegments(s, 0, 0);
  }

  lemma {:induction false} SegmentsCount(s: string, p: nat, cs: seq<nat>)
    requires p <= |s| && Cuts(s, p, cs)
    ensures |Segments(s, p, cs)| == |cs| + 1
    decreases |cs|
  {
    if cs != [] {
      SegmentsCount(s, cs[0] + 1, cs[1..]);
    }
  }

  /** A raw string gives one more piece than it has separating commas. */
  lemma SplitCount(s: string)
    ensures |Split(s)| == |Separators(s)| + 1
  {
    SplitIsSegments(s);
    SegmentsCount(s, 0, Separators(s));
  }

  lemma {:induction false} SegmentsRejoin(s: string, p: nat, cs: seq<nat>)
    requires p <= |s| && Cuts(s, p, cs)
    ensures |Segments(s, p, cs)| == |SepTexts(s, cs)| + 1
    ensures Interleave(Segments(s, p, cs), SepTexts(s, cs)) == s[p..]
    decreases |cs|
  {
    if cs != [] {
      CutsTail(s, p, cs);
      SegmentsRejoin(s, cs[0] + 1, cs[1..]);
      RejoinCase(s, p, cs);
    }
  }

  /** The rejoin of the cuts after the first one extends to the first piece and match. */
  lemma RejoinCase(s: string, p: nat, cs: seq<nat>)
    requires p <= |s| && Cuts(s, p, cs) && cs != []
    requires p <= MatchStart(cs[0]) <= cs[0] < |s| && Cuts(s, cs[0] + 1, cs[1..])
    requires |Segments(s, cs[0] + 1, cs[1..])| == |SepTexts(s, cs[1..])| + 1
    requires Interleave(Segments(s, cs[0] + 1, cs[1..]), SepTexts(s, cs[1..])) == s[cs[0] + 1..]
    ensures |Segments(s, p, cs)| == |SepTexts(s, cs)| + 1
    ensures Interleave(Segments(s, p, cs), SepTexts(s, cs)) == s[p..]
  {
    var c, rest := cs[0], cs[1..];
    SegmentsUnfold(s, p, cs);
    SepTextsUnfold(s, cs);
    RejoinStep(s, p, c, Segments(s, c + 1, rest), SepTexts(s, rest), Segments(s, p, cs), SepTexts(s, cs));
  }

  lemma SegmentsUnfold(s: string, p: nat, cs: seq<nat>)
    requires p <= |s| && Cuts(s, p, cs) && cs != []
    ensures p <= MatchStart(cs[0]) <= cs[0] < |s| && Cuts(s, cs[0] + 1, cs[1..])
    ensures Segments(s, p, cs) == [s[p..MatchStart(cs[0])]] + Segments(s, cs[0] + 1, cs[1..])
  {
    CutsTail(s, p, cs);
  }

  lemma SepTextsUnfold(s: string, cs: seq<nat>)
    requires (forall k :: 0 <= k < |cs| ==> cs[k] < |s|) && cs != []
    ensures SepTexts(s, cs) == [s[MatchStart(cs[0])..cs[0] + 1]] + SepTexts(s, cs[1..])
  {
  }

  /** One step of the rejoin: the piece before a match, the match, then the rest rejoined. */
  lemma RejoinStep(s: string, p: nat, c: nat, segs: seq<string>, texts: seq<string>,
                    pieces: seq<string>, removed: seq<string>)
    requires p <= MatchStart(c) <= c < |s| && |segs| == |texts| + 1
    requires Interleave(segs, texts) == s[c + 1..]
    requires pieces == [s[p..MatchStart(c)]] + segs && removed == [s[MatchStart(c)..c + 1]] + texts
    ensures |pieces| == |removed| + 1 && Interleave(pieces, removed) == s[p..]
  {
    var m := MatchStart(c);
    var piece, text := s[p..m], s[m..c + 1];
    var ps, ts := pieces, removed;
    assert ps[0] == piece && ps[1..] == segs && ts[0] == text && ts[1..] == texts;
    assert Interleave(ps, ts) == piece + text + s[c + 1..];
    SuffixSplit(s, p, m);
    SuffixSplit(s, m, c + 1);
    assert s[m..c + 1] == text;
    ConcatAssoc(piece, text, s[c + 1..]);
  }

  /**
   * The split removes exactly the separator matches and nothing else: putting each
   * removed text back between the pieces gives back s. So a separator match of
   * length two takes the character before its comma out of both pieces.
   */
  lemma SplitRejoin(s: string)
    ensures |Split(s)| == |SepTexts(s, Separators(s))| + 1
    ensures Interleave(Split(s), SepTexts(s, Separators(s))) == s
  {
    SplitIsSegments(s);
    SegmentsRejoin(s, 0, Separators(s));
  }

  /** Each removed text is "," (at index 0) or a character other than a backslash followed by a comma. */
  lemma SepTextShape(s: string, k: nat)
    requires k < |Separators(s)|
    ensures var c := Separators(s)[k];
      var t := SepTexts(s, Separators(s))[k];
      (c == 0 && t == ",") || (c > 0 && t == [s[c - 1], ','] && s[c - 1] != '\\')
  {
    SepsFromFacts(s, 0);
    SepTextsAt(s, Separators(s), k);
    var c := Separators(s)[k];
    assert c in Separators(s);
    SeparatorsExactly(s, c);
  }

  lemma {:induction false} SepTextsAt(s: string, cs: seq<nat>, k: nat)
    requires forall j :: 0 <= j < |cs| ==> cs[j] < |s|
    requires k < |cs|
    ensures |SepTexts(s, cs)| == |cs|
    ensures SepTexts(s, cs)[k] == s[MatchStart(cs[k])..cs[k] + 1]
  {
    if k > 0 {
      SepTextsAt(s, cs[1..], k - 1);
    } else if |cs| > 1 {
      SepTextsAt(s, cs[1..], 0);
    }
  }

  /** A string without a comma is not split. */
  lemma SplitWithoutComma(s: string)
    requires ',' !in s
    ensures Split(s) == [s]
  {
    SplitCount(s);
    if Separators(s) != [] {
      SeparatorsExactly(s, Separators(s)[0]);
    }
    SplitIsSegments(s);
  }

  // ---------------------------------------------------------------------------
  // Cleaning a piece
  // ---------------------------------------------------------------------------

  /** subCat.replace(/\\,/g, ','): scanning left to right, each backslash-comma pair becomes one comma. */
  function Unescape(s: string): (r: string)
    ensures |r| <= |s|
  {
    if |s| >= 2 && s[0] == '\\' && s[1] == ',' then [','] + Unescape(s[2..])
    else if s == [] then []
    else [s[0]] + Unescape(s[1..])
  }

  /** Writes every comma of t as backslash-comma. */
  function Escape(t: string): (s: string)
    ensures |s| >= |t|
    ensures s != [] ==> s[0] != ','
  {
    if t == [] then [] else (if t[0] == ',' then "\\," else [t[0]]) + Escape(t[1..])
  }

  /** Unescape undoes Escape: every backslash-comma pair of an escaped string is one that Escape wrote. */
  lemma {:induction false} UnescapeEscape(t: string)
    ensures Unescape(Escape(t)) == t
  {
    if t != [] {
      UnescapeEscape(t[1..]);
      var e := Escape(t[1..]);
      if t[0] == ',' {
        assert Escape(t) == "\\," + e;
        assert Escape(t)[2..] == e;
      } else if t[0] == '\\' {
        assert Escape(t) == ['\\'] + e;
        assert Escape(t)[1..] == e;
      } else {
        assert Escape(t) == [t[0]] + e;
        assert Escape(t)[1..] == e;
      }
    }
  }

  /** A string with no comma is unchanged by Unescape. */
  lemma {:induction false} UnescapeWithoutComma(s: string)
    requires ',' !in s
    ensures Unescape(s) == s
  {
    if s != [] {
      assert ',' !in s[1..];
      UnescapeWithoutComma(s[1..]);
    }
  }

  /** Unescaping works piece by piece as long as the first piece does not end in a backslash. */
  lemma {:induction false} UnescapeAppend(a: string, b: string)
    requires a == [] || a[|a| - 1] != '\\'
    ensures Unescape(a + b) == Unescape(a) + Unescape(b)
    decreases |a|
  {
    if a == [] {
      assert a + b == b;
    } else if |a| >= 2 && a[0] == '\\' && a[1] == ',' {
      UnescapeAppend(a[2..], b);
      UnescapeAppendEscaped(a, b);
    } else {
      UnescapeAppend(a[1..], b);
      UnescapeAppendPlain(a, b);
    }
  }

  /** The step of UnescapeAppend where a starts with an escaped comma. */
  lemma UnescapeAppendEscaped(a: string, b: string)
    requires |a| >= 2 && a[0] == '\\' && a[1] == ','
    requires Unescape(a[2..] + b) == Unescape(a[2..]) + Unescape(b)
    ensures Unescape(a + b) == Unescape(a) + Unescape(b)
  {
    ConcatHead(a, b);
    UnescapeEscapedHead(a + b);
    UnescapeEscapedHead(a);
    ConcatAssoc([','], Unescape(a[2..]), Unescape(b));
  }

  /** The step of UnescapeAppend where a starts with anything but an escaped comma. */
  lemma UnescapeAppendPlain(a: string, b: string)
    requires a != [] && a[|a| - 1] != '\\' && !(|a| >= 2 && a[0] == '\\' && a[1] == ',')
    requires Unescape(a[1..] + b) == Unescape(a[1..]) + Unescape(b)
    ensures Unescape(a + b) == Unescape(a) + Unescape(b)
  {
    ConcatHead(a, b);
    UnescapePlainHead(a + b);
    UnescapePlainHead(a);
    ConcatAssoc([a[0]], Unescape(a[1..]), Unescape(b));
  }

  lemma UnescapeEscapedHead(s: string)
    requires |s| >= 2 && s[0] == '\\' && s[1] == ','
    ensures Unescape(s) == [','] + Unescape(s[2..])
  {
  }

  lemma UnescapePlainHead(s: string)
    requires s != [] && !(|s| >= 2 && s[0] == '\\' && s[1] == ',')
    ensures Unescape(s) == [s[0]] + Unescape(s[1..])
  {
  }

  lemma UnescapeLeadingEscape(b: string, e: string)
    requires ',' !in b && e == ['\\', ','] + b
    ensures Unescape(e) == [','] + b
  {
    assert e[0] == '\\' && e[1] == ',' && e[2..] == b;
    UnescapeWithoutComma(b);
  }

  /** An escaped comma between two comma-free texts becomes a plain comma. */
  lemma UnescapeEscapedComma(a: string, b: string)
    requires ',' !in a && ',' !in b && (a == [] || a[|a| - 1] != '\\')
    ensures Unescape(a + ['\\', ','] + b) == a + [','] + b
  {
    var e := ['\\', ','] + b;
    ConcatAssoc(a, ['\\', ','], b);
    UnescapeAppend(a, e);
    UnescapeWithoutComma(a);
    UnescapeLeadingEscape(b, e);
    ConcatAssoc(a, [','], b);
  }

  /** One piece cleaned: escapes replaced, then trimmed. */
  function Clean(piece: string): (r: string)
    ensures IsTrimmed(r)
  {
    Trim(Unescape(piece))
  }

  /** The cleaned pieces of one raw category string, in order. */
  function Entries(cat: string): (r: seq<string>)
    ensures var pieces := Split(cat);
      |r| == |pieces| && forall i :: 0 <= i < |r| ==> r[i] == Clean(pieces[i])
  {
    var pieces := Split(cat);
    seq(|pieces|, i requires 0 <= i < |pieces| => Clean(pieces[i]))
  }

  /** A raw category string with no comma gives exactly one entry: itself, trimmed. */
  lemma EntriesWithoutComma(cat: string)
    requires ',' !in cat
    ensures Entries(cat) == [Trim(cat)]
  {
    SplitWithoutComma(cat);
    UnescapeWithoutComma(cat);
  }

  /** The entry lists of all raw category strings, one per raw string (the `map`). */
  function CategoryLists(raws: seq<string>): (es: seq<seq<string>>)
    ensures |es| == |raws| && forall k :: 0 <= k < |es| ==> es[k] == Entries(raws[k])
  {
    seq(|raws|, k requires 0 <= k < |raws| => Entries(raws[k]))
  }

  /** The entries of all raw strings, concatenated in input order (the `reduce` with `concat`). */
  function AllEntries(raws: seq<string>): (r: seq<string>)
    ensures raws == [] ==> r == []
    ensures |raws| == 1 ==> r == Entries(raws[0])
  {
    Flatten(CategoryLists(raws))
  }

  /** The entries of a concatenation of raw lists are those of the first list, then those of the second. */
  lemma AllEntriesAppend(a: seq<string>, b: seq<string>)
    ensures AllEntries(a + b) == AllEntries(a) + AllEntries(b)
  {
    var ea, eb := CategoryLists(a), CategoryLists(b);
    assert CategoryLists(a + b) == ea + eb;
    FlattenAppend(ea, eb);
  }

  /** The category list: every cleaned piece of every raw string, first occurrence kept. */
  function Normalise(raws: seq<string>): (r: seq<string>)
    ensures NoDup(r)
  {
    Dedupe(AllEntries(raws))
  }

  /** A string is an entry of a raw string exactly when it is a cleaned piece of it. */
  lemma EntriesMembers(cat: string, x: string)
    ensures x in Entries(cat) <==> exists j :: 0 <= j < |Split(cat)| && x == Clean(Split(cat)[j])
  {
    var e := Entries(cat);
    if x in e {
      var j :| 0 <= j < |e| && e[j] == x;
      assert x == Clean(Split(cat)[j]);
    }
    if exists j :: 0 <= j < |Split(cat)| && x == Clean(Split(cat)[j]) {
      var j :| 0 <= j < |Split(cat)| && x == Clean(Split(cat)[j]);
      assert e[j] == x;
    }
  }

  /** Every string in the concatenated entries is a cleaned piece of some raw string. */
  lemma AllEntriesOnlyPieces(raws: seq<string>, x: string)
    requires x in AllEntries(raws)
    ensures exists k, j :: 0 <= k < |raws| && 0 <= j < |Split(raws[k])| && x == Clean(Split(raws[k])[j])
  {
    var es := CategoryLists(raws);
    FlattenMembers(es, x);
    var k :| 0 <= k < |es| && x in es[k];
    EntriesMembers(raws[k], x);
    var j :| 0 <= j < |Split(raws[k])| && x == Clean(Split(raws[k])[j]);
  }

  /** Every cleaned piece of every raw string is in the concatenated entries. */
  lemma AllEntriesAllPieces(raws: seq<string>, k: nat, j: nat)
    requires k < |raws| && j < |Split(raws[k])|
    ensures Clean(Split(raws[k])[j]) in AllEntries(raws)
  {
    var x := Clean(Split(raws[k])[j]);
    var es := CategoryLists(raws);
    EntriesMembers(raws[k], x);
    assert x in es[k];
    FlattenMembers(es, x);
  }

  /** A string is in the concatenated entries exactly when it is a cleaned piece of some raw string. */
  lemma AllEntriesMembers(raws: seq<string>, x: string)
    ensures x in AllEntries(raws) <==>
      exists k, j :: 0 <= k < |raws| && 0 <= j < |Split(raws[k])| && x == Clean(Split(raws[k])[j])
  {
    if x in AllEntries(raws) {
      AllEntriesOnlyPieces(raws, x);
    }
    if exists k, j :: 0 <= k < |raws| && 0 <= j < |Split(raws[k])| && x == Clean(Split(raws[k])[j]) {
      var k, j :| 0 <= k < |raws| && 0 <= j < |Split(raws[k])| && x == Clean(Split(raws[k])[j]);
      AllEntriesAllPieces(raws, k, j);
    }
  }

  /** A string is in the category list exactly when it is a cleaned piece of some raw string. */
  lemma NormaliseMembers(raws: seq<string>, x: string)
    ensures x in Normalise(raws) <==>
      exists k, j :: 0 <= k < |raws| && 0 <= j < |Split(raws[k])| && x == Clean(Split(raws[k])[j])
  {
    DedupeMembers(AllEntries(raws), x);
    AllEntriesMembers(raws, x);
  }

  /** Every category is trimmed, no category occurs twice, and they come in order of first occurrence. */
  lemma NormaliseShape(raws: seq<string>)
    ensures var r := Normalise(raws);
      NoDup(r) && (forall i :: 0 <= i < |r| ==> IsTrimmed(r[i]))
      && FirstSeenOrder(AllEntries(raws), r)
  {
    var all := AllEntries(raws);
    var r := Normalise(raws);
    DedupeFirstSeenOrder(all);
    forall i | 0 <= i < |r| ensures IsTrimmed(r[i]) {
      assert r[i] in all;
      NormaliseMembers(raws, r[i]);
    }
  }

  /** A stretch of scan positions without a match leaves the current piece open. */
  lemma {:induction false} NoMatchRun(s: string, p: nat, q: nat, q': nat)
    requires p <= q <= q' <= |s|
    requires forall i :: q <= i < q' ==> MatchAt(s, i) == 0
    ensures SplitFrom(s, p, q) == SplitFrom(s, p, q')
    decreases q' - q
  {
    if q < q' {
      NoMatchRun(s, p, q + 1, q');
    }
  }

  /** Nothing matches at the scan positions q to q' - 1 when no comma follows any of them. */
  lemma NoCommaRun(s: string, p: nat, q: nat, q': nat)
    requires p <= q <= q' < |s|
    requires ',' !in s[q + 1..q' + 1]
    requires q == 0 ==> s[0] != ','
    ensures SplitFrom(s, p, q) == SplitFrom(s, p, q')
  {
    forall i | q <= i < q' ensures MatchAt(s, i) == 0 {
      assert s[i + 1] == s[q + 1..q' + 1][i - q];
    }
    NoMatchRun(s, p, q, q');
  }

  /**
   * The piece before a separator loses its last character: "Truck Parts, X" splits
   * into "Truck Part" and " X" (which cleaning trims to "X").
   */
  lemma ConsumedCharacterSplit(s: string)
    requires s == "Truck Parts, X"
    ensures Split(s) == ["Truck Part", " X"]
  {
    NoCommaRun(s, 0, 0, 10);
    assert MatchAt(s, 10) == 2;
    assert MatchAt(s, 12) == 0 && MatchAt(s, 13) == 0;
    NoMatchRun(s, 12, 12, 14);
    assert s[..10] == "Truck Part" && s[12..] == " X";
  }

  /** A piece without a comma is cleaned by trimming alone. */
  lemma CleanNoComma(piece: string)
    requires ',' !in piece
    ensures Clean(piece) == Trim(piece)
  {
    UnescapeWithoutComma(piece);
  }

  /** Cleaning leaves a trimmed piece without a comma as it is. */
  lemma CleanOfClean(piece: string)
    requires ',' !in piece && IsTrimmed(piece)
    ensures Clean(piece) == piece
  {
    CleanNoComma(piece);
    TrimOfTrimmed(piece);
  }

  /**
   * The escaped comma stays inside its piece, but the separator match still takes the "s"
   * before the second comma: "Truck\, Parts, Accessories" splits into "Truck\, Part"
   * and " Accessories".
   */
  lemma EscapedCommaSplit(s: string)
    requires s == "Truck\\, Parts, Accessories"
    ensures Split(s) == ["Truck\\, Part", " Accessories"]
  {
    EscapedCommaFirstPiece(s);
    EscapedCommaLastPiece(s);
    assert s[..12] == "Truck\\, Part" && s[14..] == " Accessories";
  }

  /** The scan of the escaped-comma example passes the escaped comma and cuts at the second comma. */
  lemma EscapedCommaFirstPiece(s: string)
    requires s == "Truck\\, Parts, Accessories"
    ensures Split(s) == [s[..12]] + SplitFrom(s, 14, 14)
  {
    NoCommaRun(s, 0, 0, 5);
    assert MatchAt(s, 5) == 0;
    NoCommaRun(s, 0, 6, 12);
    assert MatchAt(s, 12) == 2;
  }

  /** After the second comma of the escaped-comma example nothing more matches. */
  lemma EscapedCommaLastPiece(s: string)
    requires s == "Truck\\, Parts, Accessories"
    ensures SplitFrom(s, 14, 14) == [s[14..]]
  {
    NoCommaRun(s, 14, 14, 25);
    assert MatchAt(s, 25) == 0;
    NoMatchRun(s, 14, 25, 26);
  }

  /** Normalising a list that is already normalised (trimmed, comma-free, distinct) changes nothing. */
  lemma NormaliseOfNormalised(raws: seq<string>)
    requires NoDup(raws)
    requires forall k :: 0 <= k < |raws| ==> ',' !in raws[k] && IsTrimmed(raws[k])
    ensures Normalise(raws) == raws
  {
    var es := CategoryLists(raws);
    var ones := seq(|raws|, k requires 0 <= k < |raws| => [raws[k]]);
    forall k | 0 <= k < |raws| ensures es[k] == ones[k] {
      EntriesWithoutComma(raws[k]);
      TrimOfTrimmed(raws[k]);
    }
    assert es == ones;
    FlattenSingletons(raws);
    DedupeOfDistinct(raws);
  }

  lemma EntriesOfTwo(cat: string, a: string, b: string)
    requires Split(cat) == [a, b]
    ensures Entries(cat) == [Clean(a), Clean(b)]
  {
    var e := Entries(cat);
    assert |e| == 2 && e[0] == Clean(a) && e[1] == Clean(b);
  }

  /** The category list of one raw string that splits into two pieces. */
  lemma NormaliseOfTwo(raws: seq<string>, a: string, b: string)
    requires |raws| == 1 && Split(raws[0]) == [a, b] && Clean(a) != Clean(b)
    ensures Normalise(raws) == [Clean(a), Clean(b)]
  {
    EntriesOfTwo(raws[0], a, b);
    NoDupPair(Clean(a), Clean(b));
    DedupeOfDistinct([Clean(a), Clean(b)]);
  }

  /**
   * The whole normaliser on the string with an escaped comma: the escape becomes a comma,
   * and the category list is "Truck, Part" and "Accessories".
   */
  lemma EscapedCommaExample(raws: seq<string>)
    requires raws == ["Truck\\, Parts, Accessories"]
    ensures Normalise(raws) == ["Truck, Part", "Accessories"]
  {
    var pieces := Split(raws[0]);
    EscapedCommaSplit(raws[0]);
    EscapedCommaPieces(pieces[0], pieces[1]);
    NormaliseOfTwo(raws, pieces[0], pieces[1]);
  }

  /** The two pieces of the escaped-comma example, cleaned. */
  lemma EscapedCommaPieces(a: string, b: string)
    requires a == "Truck\\, Part" && b == " Accessories"
    ensures Clean(a) == "Truck, Part" && Clean(b) == "Accessories"
  {
    EscapedCommaClean(a, "Truck", " Part", "Truck, Part");
    SpacedPieceClean(b, "Accessories");
  }

  /** A piece with one escaped comma between comma-free texts cleans to the texts joined by a comma, trimmed. */
  lemma EscapedCommaClean(p: string, a: string, b: string, r: string)
    requires p == a + ['\\', ','] + b && r == a + [','] + b && IsTrimmed(r)
    requires ',' !in a && ',' !in b && (a == [] || a[|a| - 1] != '\\')
    ensures Clean(p) == r
  {
    UnescapeEscapedComma(a, b);
    TrimOfTrimmed(r);
  }

  /** A piece that is one space before a trimmed comma-free text cleans to that text. */
  lemma SpacedPieceClean(p: string, b: string)
    requires p == [' '] + b && ',' !in b && IsTrimmed(b)
    ensures Clean(p) == b
  {
    assert p == [' '] + b + "";
    CleanNoComma(p);
    TrimUnique([' '], b, "");
  }

  /** ... and the whole normaliser turns "Truck Parts, X" into the categories "Truck Part" and "X". */
  lemma ConsumedCharacterExample(raws: seq<string>)
    requires raws == ["Truck Parts, X"]
    ensures Normalise(raws) == ["Truck Part", "X"]
  {
    var pieces := Split(raws[0]);
    ConsumedCharacterSplit(raws[0]);
    ConsumedCharacterPieces(pieces[0], pieces[1]);
    NormaliseOfTwo(raws, pieces[0], pieces[1]);
  }

  /** The two pieces of the consumed-character example, cleaned. */
  lemma ConsumedCharacterPieces(a: string, b: string)
    requires a == "Truck Part" && b == " X"
    ensures Clean(a) == "Truck Part" && Clean(b) == "X"
  {
    CleanOfClean(a);
    SpacedPieceClean(b, "X");
  }
}
