/**
 * Candidate extraction as the three newer scripts do it (`extract_mir_words`):
 * a token qualifies when it starts with `mir` or `hsa-mir`, is longer than four
 * characters and is not the generic word `mirna`/`mirnas`; its dashes are
 * normalised, it is split on the pattern `mir-|mirna-|mir\.`, and the candidate
 * is `miR-` followed by the last piece.
 */
module Mentions {
  import opened Text

  /** The token filter shared by every copy of `extract_mir_words`. */
  predicate Qualifies(w: string)
  {
    ("mir" <= w || "hsa-mir" <= w) && |w| > 4 && w != "mirna" && w != "mirnas"
  }

  /** `w` holds the letters `mir` at `i`. */
  predicate MirAt(w: string, i: nat)
  {
    i + 3 <= |w| && w[i] == 'm' && w[i + 1] == 'i' && w[i + 2] == 'r'
  }

  /**
   * The length of the alternative of `mir-|mirna-|mir\.` that the regular
   * expression matches at index `i` (alternatives tried left to right), or 0.
   */
  function MarkerAt(w: string, i: nat): (n: nat)
    ensures n == 0 || n == 4 || n == 6
    ensures n > 0 ==> i + n <= |w|
  {
    if MirAt(w, i) && i + 4 <= |w| && w[i + 3] == '-' then 4
    else if MirAt(w, i) && i + 6 <= |w| && w[i + 3] == 'n' && w[i + 4] == 'a' && w[i + 5] == '-' then 6
    else if MirAt(w, i) && i + 4 <= |w| && w[i + 3] == '.' then 4
    else 0
  }

  /** A four-letter slice of `w` equals a literal exactly when their letters agree one by one. */
  lemma SliceOfFour(w: string, i: nat, lit: string)
    requires |lit| == 4 && i + 4 <= |w|
    ensures w[i..i + 4] == lit <==> w[i] == lit[0] && w[i + 1] == lit[1] && w[i + 2] == lit[2] && w[i + 3] == lit[3]
  {
    var t := w[i..i + 4];
    assert t[0] == w[i] && t[1] == w[i + 1] && t[2] == w[i + 2] && t[3] == w[i + 3];
  }

  /** A six-letter slice of `w` equals a literal exactly when their letters agree one by one. */
  lemma SliceOfSix(w: string, i: nat, lit: string)
    requires |lit| == 6 && i + 6 <= |w|
    ensures w[i..i + 6] == lit <==>
            w[i] == lit[0] && w[i + 1] == lit[1] && w[i + 2] == lit[2] && w[i + 3] == lit[3] && w[i + 4] == lit[4] && w[i + 5] == lit[5]
  {
    var t := w[i..i + 6];
    assert t[0] == w[i] && t[1] == w[i + 1] && t[2] == w[i + 2] && t[3] == w[i + 3] && t[4] == w[i + 4] && t[5] == w[i + 5];
  }

  /** The text a match covers is one of the three alternatives, and a match is the first alternative that occurs. */
  lemma MatchedText(w: string, i: nat)
    ensures MarkerAt(w, i) == 4 <==> OccursAt(w, "mir-", i) || (!OccursAt(w, "mirna-", i) && OccursAt(w, "mir.", i))
    ensures MarkerAt(w, i) == 6 <==> !OccursAt(w, "mir-", i) && OccursAt(w, "mirna-", i)
    ensures MarkerAt(w, i) > 0 ==> var t := w[i..i + MarkerAt(w, i)]; t == "mir-" || t == "mirna-" || t == "mir."
  {
    if i + 4 <= |w| {
      SliceOfFour(w, i, "mir-");
      SliceOfFour(w, i, "mir.");
    }
    if i + 6 <= |w| {
      SliceOfSix(w, i, "mirna-");
    }
  }

  /** No alternative of the pattern matches anywhere in `w`. */
  predicate NoMarker(w: string)
  {
    forall i: nat :: i < |w| ==> MarkerAt(w, i) == 0
  }

  /**
   * `re.split(r'(?:mir-|mirna-|mir\.)', w)` from index `i` on, with the current
   * piece starting at `start`: the scan tries the pattern at each index and,
   * on a match, closes the piece and resumes after the match.
   */
  function SplitScan(w: string, start: nat, i: nat): (r: seq<string>)
    requires start <= i <= |w|
    decreases |w| - i
    ensures |r| >= 1
  {
    if i == |w| then [w[start..]]
    else if MarkerAt(w, i) > 0 then [w[start..i]] + SplitScan(w, i + MarkerAt(w, i), i + MarkerAt(w, i))
    else SplitScan(w, start, i + 1)
  }

  function MarkerSplit(w: string): (r: seq<string>)
    ensures |r| >= 1
  {
    SplitScan(w, 0, 0)
  }

  /** The rightmost index below `n` where the pattern matches. */
  function RightmostMarker(w: string, n: nat): (r: Option<nat>)
    requires n <= |w|
    ensures r.Some? ==> r.value < n && MarkerAt(w, r.value) > 0
    ensures r.Some? ==> forall j :: r.value < j < n ==> MarkerAt(w, j) == 0
    ensures r.None? ==> forall j :: 0 <= j < n ==> MarkerAt(w, j) == 0
  {
    if n == 0 then None
    else if MarkerAt(w, n - 1) > 0 then Some(n - 1)
    else RightmostMarker(w, n - 1)
  }

  /** The text after the rightmost match of the pattern, or all of `w` when there is none. */
  function AfterLastMarker(w: string): (r: string)
    ensures |r| <= |w| && r == w[|w| - |r|..]
  {
    match RightmostMarker(w, |w|)
    case None => w
    case Some(j) => w[j + MarkerAt(w, j)..]
  }

  /** A match at `i` leaves no room for another one to start inside it: `m` only begins each alternative. */
  lemma MarkersDoNotOverlap(w: string, i: nat, j: nat)
    requires MarkerAt(w, i) > 0 && i < j < i + MarkerAt(w, i)
    ensures MarkerAt(w, j) == 0
  {
  }

  /** A match inside a suffix of `w` is a match in `w`. */
  lemma MarkerInSuffix(w: string, k: nat, t: nat)
    requires k <= |w| && t < |w| - k
    ensures MarkerAt(w[k..], t) == MarkerAt(w, k + t)
  {
  }

  /**
   * The last piece of the scan from `i` is the text after the rightmost match
   * at or after `i`, or the current piece when there is no such match.
   */
  lemma {:induction false} SplitScanLast(w: string, start: nat, i: nat)
    requires start <= i <= |w|
    decreases |w| - i, 1
    ensures var r := SplitScan(w, start, i);
            var m := RightmostMarker(w, |w|);
            r[|r| - 1] == if m.Some? && m.value >= i then w[m.value + MarkerAt(w, m.value)..] else w[start..]
  {
    var m := RightmostMarker(w, |w|);
    if i == |w| {
      assert SplitScan(w, start, i) == [w[start..]];
    } else if MarkerAt(w, i) > 0 {
      SplitScanLastAtMatch(w, start, i);
    } else {
      SplitScanLast(w, start, i + 1);
      assert m.Some? && m.value >= i ==> m.value >= i + 1;
    }
  }

  /** The step of `SplitScanLast` where the pattern matches at `i`. */
  lemma {:induction false} SplitScanLastAtMatch(w: string, start: nat, i: nat)
    requires start <= i < |w| && MarkerAt(w, i) > 0
    decreases |w| - i, 0
    ensures var r := SplitScan(w, start, i);
            var m := RightmostMarker(w, |w|);
            m.Some? && m.value >= i && r[|r| - 1] == w[m.value + MarkerAt(w, m.value)..]
  {
    var n := i + MarkerAt(w, i);
    var rest := SplitScan(w, n, n);
    SplitScanLast(w, n, n);
    RightmostFromMatch(w, i);
    ScanStep(w, start, i);
    LastOfPrepended(w[start..i], rest);
  }

  lemma ScanStep(w: string, start: nat, i: nat)
    requires start <= i < |w| && MarkerAt(w, i) > 0
    ensures var n := i + MarkerAt(w, i); SplitScan(w, start, i) == [w[start..i]] + SplitScan(w, n, n)
  {
  }

  lemma LastOfPrepended(x: string, rest: seq<string>)
    requires |rest| > 0
    ensures ([x] + rest)[|rest|] == rest[|rest| - 1]
  {
  }

  /** A match at `i` means the rightmost match is at `i` or after the end of that match. */
  lemma RightmostFromMatch(w: string, i: nat)
    requires i < |w| && MarkerAt(w, i) > 0
    ensures var m := RightmostMarker(w, |w|);
            m.Some? && (m.value == i || m.value >= i + MarkerAt(w, i))
  {
    var m := RightmostMarker(w, |w|);
    if m.value != i && m.value < i + MarkerAt(w, i) {
      MarkersDoNotOverlap(w, i, m.value);
    }
  }

  /** `re.split(...)[-1]` is the text after the rightmost match. */
  lemma LastPieceIsAfterLastMarker(w: string)
    ensures var r := MarkerSplit(w); r[|r| - 1] == AfterLastMarker(w)
  {
    SplitScanLast(w, 0, 0);
  }

  /** `re.split(r'(?:mir-|mirna-|mir\.)', w)[-1]`. */
  function LastPiece(w: string): (r: string)
    ensures r == AfterLastMarker(w)
  {
    LastPieceIsAfterLastMarker(w);
    var pieces := MarkerSplit(w);
    pieces[|pieces| - 1]
  }

  /** What follows the rightmost match holds no further match. */
  lemma {:induction false} AfterLastMarkerHasNoMarker(w: string)
    ensures NoMarker(AfterLastMarker(w))
  {
    var r := AfterLastMarker(w);
    var k := |w| - |r|;
    forall t: nat | t < |r| ensures MarkerAt(r, t) == 0 {
      MarkerInSuffix(w, k, t);
    }
  }

  /** The candidate a qualifying token yields: `miR-` and the last piece of its dash-normalised text. */
  function Candidate(w: string): string
  {
    "miR-" + LastPiece(NormalizeDashes(w))
  }

  /**
   * A candidate is `miR-` followed by the text after the rightmost `mir-`,
   * `mirna-` or `mir.` of the dash-normalised token, and holds no en-dash or
   * em-dash.
   */
  lemma CandidateShape(w: string)
    ensures var c := Candidate(w);
            "miR-" <= c && EnDash !in c && EmDash !in c
            && c == "miR-" + AfterLastMarker(NormalizeDashes(w))
  {
    var clean := NormalizeDashes(w);
    var tail := LastPiece(clean);
    SuffixKeepsAbsence(clean, |clean| - |tail|);
  }

  lemma SuffixKeepsAbsence(s: string, k: nat)
    requires k <= |s| && EnDash !in s && EmDash !in s
    ensures EnDash !in s[k..] && EmDash !in s[k..]
  {
    assert forall x :: x in s[k..] ==> x in s;
  }

  /** A token in which the pattern never matches yields `miR-` followed by the whole dash-normalised token. */
  lemma NoMarkerMeansWhole(w: string)
    requires NoMarker(NormalizeDashes(w))
    ensures Candidate(w) == "miR-" + NormalizeDashes(w)
  {
    CandidateShape(w);
  }

  /** `mir21` holds none of `mir-`, `mirna-`, `mir.`: it becomes `miR-mir21`. */
  lemma UndashedMention()
    ensures Qualifies("mir21") && Candidate("mir21") == "miR-mir21"
  {
    var w := "mir21";
    assert NormalizeDashes(w) == w;
    forall i: nat | i < |w| ensures MarkerAt(w, i) == 0 {
      assert w[3] == '2';
    }
    NoMarkerMeansWhole(w);
  }

  /** The candidates one token yields: none, or its `Candidate`. */
  function CandidatesOf(w: string): set<string>
  {
    if Qualifies(w) then {Candidate(w)} else {}
  }

  /** The candidates a token list yields. */
  ghost function CandidateSet(text: seq<string>): set<string>
  {
    Gather(text, CandidatesOf)
  }

  /** `extract_mir_words`: the candidates of every qualifying token, collected in a set. */
  method ExtractMirWords(text: seq<string>) returns (processedWords: set<string>)
    ensures processedWords == CandidateSet(text)
    ensures |processedWords| <= |text|
  {
    processedWords := {};
    for i := 0 to |text|
      invariant processedWords == CandidateSet(text[..i])
      invariant |processedWords| <= i
    {
      var word := text[i];
      assert text[..i + 1][..i] == text[..i];
      if Qualifies(word) {
        var wordClean := NormalizeDashes(word);
        var suffix := LastPiece(wordClean);
        processedWords := processedWords + {"miR-" + suffix};
      }
    }
    assert text[..|text|] == text;
  }

  /** A string is a candidate of a token list exactly when some qualifying token of the list yields it. */
  lemma CandidateSetMembers(text: seq<string>, c: string)
    ensures c in CandidateSet(text) <==> exists w :: w in text && Qualifies(w) && Candidate(w) == c
  {
    GatherMembers(text, CandidatesOf, c);
  }

  /** Every candidate starts with `miR-` and holds no en-dash or em-dash. */
  lemma CandidatesAreNormalised(text: seq<string>, c: string)
    requires c in CandidateSet(text)
    ensures "miR-" <= c && EnDash !in c && EmDash !in c
  {
    CandidateSetMembers(text, c);
    var w :| w in text && Qualifies(w) && Candidate(w) == c;
    CandidateShape(w);
  }

  /** Candidates of two token lists together are the candidates of each. */
  lemma {:induction false} CandidateSetAppend(a: seq<string>, b: seq<string>)
    ensures CandidateSet(a + b) == CandidateSet(a) + CandidateSet(b)
  {
    forall c ensures c in CandidateSet(a + b) <==> c in CandidateSet(a) + CandidateSet(b) {
      CandidateSetMembers(a + b, c);
      CandidateSetMembers(a, c);
      CandidateSetMembers(b, c);
      assert forall w :: w in a + b <==> w in a || w in b;
    }
  }

  /** A token that does not qualify (`mirna`, `mirnas`, anything of length at most 4, ...) adds nothing. */
  lemma {:induction false} NonQualifyingTokenIgnored(text: seq<string>, w: string)
    requires !Qualifies(w)
    ensures CandidateSet(text + [w]) == CandidateSet(text)
  {
    assert (text + [w])[..|text|] == text;
  }

  /** The same mention repeated, in however many fields, yields one candidate. */
  lemma {:induction false} RepeatedMentionCountsOnce(w: string, n: nat)
    requires Qualifies(w) && n > 0
    ensures CandidateSet(seq(n, _ => w)) == {Candidate(w)}
  {
    var text := seq(n, _ => w);
    assert text[0] == w;
    forall c ensures c in CandidateSet(text) <==> c == Candidate(w) {
      CandidateSetMembers(text, c);
    }
  }
}
