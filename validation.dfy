/**
 * Validation of candidates against the set of known miRNA identifiers by
 * progressive truncation (`miRNA_ID_validation`,
 * `miRNA_ID_validation_considering_mature`, `miRNA_ID_validation_immature`):
 * a candidate is tried as it is, then with one trailing character dropped at
 * a time while it keeps at least four characters; the first hit is kept.
 *
 * The scripts test membership in `sorted(list(ids))`; a string is in that
 * list exactly when it is in the set `ids` (see `StringOrder.SortIds`), so
 * the known identifiers are a `set<string>` here.
 */
module Validation {
  import opened Text

  /** The shortest a truncated candidate may become (`while len(temp) >= 4`). */
  const MinLength: nat := 4

  /** The first of `c[..n]`, `c[..n - 1]`, ..., `c[..MinLength]` that is a known identifier. */
  function LongestKnownPrefix(c: string, known: set<string>, n: nat): Option<string>
    requires n <= |c|
    decreases n
  {
    if n < MinLength then None
    else if c[..n] in known then Some(c[..n])
    else LongestKnownPrefix(c, known, n - 1)
  }

  /**
   * The first hit is the longest known prefix of `c` of length between
   * `MinLength` and `n`; no hit means that none of those prefixes is known.
   */
  lemma {:induction false} LongestKnownPrefixIsLongest(c: string, known: set<string>, n: nat)
    requires n <= |c|
    decreases n
    ensures var r := LongestKnownPrefix(c, known, n);
            (r.Some? ==> MinLength <= |r.value| <= n && r.value == c[..|r.value|] && r.value in known)
            && (r.Some? ==> forall k :: |r.value| < k <= n ==> c[..k] !in known)
            && (r.None? ==> forall k :: MinLength <= k <= n ==> c[..k] !in known)
  {
    if n >= MinLength && c[..n] !in known {
      LongestKnownPrefixIsLongest(c, known, n - 1);
    }
  }

  /** The identifier a candidate validates to: its longest known prefix of at least four characters. */
  function KnownPrefix(c: string, known: set<string>): Option<string>
  {
    LongestKnownPrefix(c, known, |c|)
  }

  /**
   * `KnownPrefix(c, known)` is a known prefix of `c` of at least four
   * characters, and no longer prefix of `c` is known; `None` means that no
   * prefix of `c` of four or more characters is known.
   */
  lemma KnownPrefixIsLongest(c: string, known: set<string>)
    ensures var r := KnownPrefix(c, known);
            (r.Some? ==> MinLength <= |r.value| && r.value <= c && r.value in known)
            && (r.Some? ==> forall p :: r.value < p <= c ==> p !in known)
            && (r.None? ==> forall p :: p <= c && MinLength <= |p| ==> p !in known)
  {
    LongestKnownPrefixIsLongest(c, known, |c|);
    PrefixesAreSlices(c);
  }

  lemma PrefixesAreSlices(c: string)
    ensures forall p :: p <= c ==> p == c[..|p|]
  {
  }

  /**
   * The `while len(temp) >= 4` loop: test `temp`, and drop its last character
   * until it is known or too short.
   */
  method TruncateToKnown(miRNA: string, known: set<string>) returns (hit: Option<string>)
    ensures hit == KnownPrefix(miRNA, known)
  {
    var found := false;
    var temp := miRNA;
    hit := None;
    while |temp| >= MinLength
      invariant |temp| <= |miRNA| && temp == miRNA[..|temp|]
      invariant LongestKnownPrefix(miRNA, known, |temp|) == KnownPrefix(miRNA, known)
      invariant !found && hit.None?
      decreases |temp|
    {
      if temp in known {
        hit := Some(temp);
        found := true;
        break;
      }
      temp := temp[..|temp| - 1];
    }
  }

  /** The identifiers a set of candidates validates to: one per candidate that has a known prefix. */
  ghost function Validated(candidates: set<string>, known: set<string>): set<string>
  {
    set c | c in candidates && KnownPrefix(c, known).Some? :: KnownPrefix(c, known).value
  }

  /** The identifiers one truncation result adds: none, or the one it found. */
  function Contribution(hit: Option<string>): (r: set<string>)
    ensures |r| <= 1
  {
    if hit.Some? then {hit.value} else {}
  }

  lemma ValidatedAddOne(done: set<string>, c: string, known: set<string>, hit: Option<string>)
    requires hit == KnownPrefix(c, known)
    ensures Validated(done + {c}, known) == Validated(done, known) + Contribution(hit)
  {
  }

  /** Moving one element from the unvisited part of a set to the visited part. */
  lemma MoveOne<T>(done: set<T>, rest: set<T>, x: T)
    requires x in rest && done !! rest
    ensures (done + {x}) + (rest - {x}) == done + rest && (done + {x}) !! (rest - {x})
    ensures |done + {x}| == |done| + 1
  {
  }

  /** Adding at most one element to `v` while `d` gains a new one keeps `|v| <= |d|`. */
  lemma AddAtMostOne<T>(v: set<T>, d: set<T>, add: set<T>, x: T)
    requires |v| <= |d| && x !in d && |add| <= 1
    ensures |v + add| <= |d + {x}|
  {
    assert |v + add| <= |v| + |add| by {
      assert |v + add| + |v * add| == |v| + |add|;
    }
  }

  /** `miRNA_ID_validation` (and its copy `miRNA_ID_validation_considering_mature`). */
  method ValidateIds(inputSet: set<string>, known: set<string>) returns (validatedId: set<string>)
    ensures validatedId == Validated(inputSet, known)
    ensures |validatedId| <= |inputSet|
  {
    validatedId := {};
    var rest := inputSet;
    ghost var done: set<string> := {};
    while rest != {}
      invariant done + rest == inputSet && done !! rest
      invariant validatedId == Validated(done, known)
      invariant |validatedId| <= |done|
      decreases |rest|
    {
      var miRNA :| miRNA in rest;
      var hit := TruncateToKnown(miRNA, known);
      ghost var before := validatedId;
      if hit.Some? {
        validatedId := validatedId + {hit.value};
      }
      assert validatedId == before + Contribution(hit);
      AddAtMostOne(before, done, Contribution(hit), miRNA);
      ValidatedAddOne(done, miRNA, known, hit);
      MoveOne(done, rest, miRNA);
      done := done + {miRNA};
      rest := rest - {miRNA};
    }
  }

  /** Every validated identifier is known and is the longest known prefix, of at least four characters, of some candidate. */
  lemma ValidatedAreKnownPrefixes(candidates: set<string>, known: set<string>, v: string)
    requires v in Validated(candidates, known)
    ensures v in known && MinLength <= |v|
    ensures exists c :: c in candidates && v <= c && forall p :: v < p <= c ==> p !in known
  {
    var c :| c in candidates && KnownPrefix(c, known) == Some(v);
    KnownPrefixIsLongest(c, known);
    assert v <= c && forall p :: v < p <= c ==> p !in known;
  }

  /** A candidate that is itself known (and at least four characters long) is kept unchanged. */
  lemma KnownCandidateKept(candidates: set<string>, known: set<string>, c: string)
    requires c in candidates && c in known && MinLength <= |c|
    ensures c in Validated(candidates, known)
  {
    assert c[..|c|] == c;
  }

  /** A candidate none of whose prefixes of four or more characters is known contributes nothing. */
  lemma UnknownCandidateDropped(candidates: set<string>, known: set<string>, c: string)
    requires forall p :: p <= c && MinLength <= |p| ==> p !in known
    ensures Validated(candidates + {c}, known) == Validated(candidates, known)
  {
    KnownPrefixIsLongest(c, known);
    assert KnownPrefix(c, known).None?;
    ValidatedAddOne(candidates, c, known, None);
  }

  /**
   * The strand cut of `miRNA_ID_validation_immature`: the text before the
   * first `-5p` when there is one, else the text before the first `-3p`,
   * else the whole candidate.
   */
  function StripStrand(c: string): string
  {
    if Contains(c, "-5p") then Before(c, "-5p")
    else if Contains(c, "-3p") then Before(c, "-3p")
    else c
  }

  /**
   * The cut is a prefix without `-5p`; it ends where the first `-5p` starts
   * when there is one, otherwise where the first `-3p` starts (and then holds
   * no `-3p` either); a candidate with neither is kept whole.
   */
  lemma StripStrandCuts(c: string)
    ensures var r := StripStrand(c);
            r <= c && !Contains(r, "-5p")
            && (Contains(c, "-5p") ==> OccursAt(c, "-5p", |r|))
            && (!Contains(c, "-5p") && Contains(c, "-3p") ==> OccursAt(c, "-3p", |r|) && !Contains(r, "-3p"))
            && (!Contains(c, "-5p") && !Contains(c, "-3p") ==> r == c)
  {
    if Contains(c, "-5p") {
      BeforeHasNoSeparator(c, "-5p");
    } else if Contains(c, "-3p") {
      BeforeHasNoSeparator(c, "-3p");
      NoneInPrefix(c, Before(c, "-3p"), "-5p");
    }
  }

  /** The identifiers the immature variant validates a set of candidates to. */
  ghost function ValidatedImmature(candidates: set<string>, known: set<string>): set<string>
  {
    set c | c in candidates && KnownPrefix(StripStrand(c), known).Some? :: KnownPrefix(StripStrand(c), known).value
  }

  /** The immature variant validates the strand-cut candidates. */
  lemma {:induction false} ImmatureValidatesStrandCut(candidates: set<string>, known: set<string>)
    ensures ValidatedImmature(candidates, known) == Validated(set c | c in candidates :: StripStrand(c), known)
  {
    var cut := set c | c in candidates :: StripStrand(c);
    forall v ensures v in ValidatedImmature(candidates, known) <==> v in Validated(cut, known) {
      if v in Validated(cut, known) {
        var x :| x in cut && KnownPrefix(x, known) == Some(v);
        var c :| c in candidates && StripStrand(c) == x;
        assert v in ValidatedImmature(candidates, known);
      }
    }
  }

  lemma ValidatedImmatureAddOne(done: set<string>, c: string, known: set<string>, hit: Option<string>)
    requires hit == KnownPrefix(StripStrand(c), known)
    ensures ValidatedImmature(done + {c}, known) == ValidatedImmature(done, known) + Contribution(hit)
  {
  }

  /** `miRNA_ID_validation_immature`. */
  method ValidateImmature(inputSet: set<string>, known: set<string>) returns (validatedId: set<string>)
    ensures validatedId == ValidatedImmature(inputSet, known)
    ensures |validatedId| <= |inputSet|
  {
    validatedId := {};
    var rest := inputSet;
    ghost var done: set<string> := {};
    while rest != {}
      invariant done + rest == inputSet && done !! rest
      invariant validatedId == ValidatedImmature(done, known)
      invariant |validatedId| <= |done|
      decreases |rest|
    {
      var miRNA :| miRNA in rest;
      var temp := StripStrand(miRNA);
      var hit := TruncateToKnown(temp, known);
      ghost var before := validatedId;
      if hit.Some? {
        validatedId := validatedId + {hit.value};
      }
      assert validatedId == before + Contribution(hit);
      AddAtMostOne(before, done, Contribution(hit), miRNA);
      ValidatedImmatureAddOne(done, miRNA, known, hit);
      MoveOne(done, rest, miRNA);
      done := done + {miRNA};
      rest := rest - {miRNA};
    }
  }

  /** `miR-21a` validates to `miR-21` when only `miR-21` is known. */
  lemma TrailingLetterDropped()
    ensures KnownPrefix("miR-21a", {"miR-21"}) == Some("miR-21")
  {
    assert "miR-21a"[..7] == "miR-21a";
    assert "miR-21a"[..6] == "miR-21";
  }

  /** The text before the first occurrence of `sep` is the prefix up to the first index where it occurs. */
  lemma BeforeFirstOccurrence(s: string, sep: string, i: nat)
    requires OccursAt(s, sep, i) && forall j :: 0 <= j < i ==> !OccursAt(s, sep, j)
    ensures Before(s, sep) == s[..i]
  {
  }

  /** With `{miR-21}` known, `miR-21-5p` validates to `miR-21` in the immature variant. */
  lemma StrandCutExample()
    ensures ValidatedImmature({"miR-21-5p"}, {"miR-21"}) == {"miR-21"}
  {
    var c := "miR-21-5p";
    assert OccursAt(c, "-5p", 6);
    forall j | 0 <= j < 6 ensures !OccursAt(c, "-5p", j) {
      assert c[j + 1] != '5';
    }
    BeforeFirstOccurrence(c, "-5p", 6);
    assert StripStrand(c) == "miR-21";
    assert KnownPrefix("miR-21", {"miR-21"}) == Some("miR-21") by {
      assert "miR-21"[..6] == "miR-21";
    }
  }
}
