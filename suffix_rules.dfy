/**
 * The older candidate extraction of `02_extract_miRNA.py`: `process_suffix`,
 * a ladder of tests for markers (`-m`, `-5p`, `-3p`, `-wnt`, `-d`, `,`, `*`,
 * ` fam`) that cuts a token at the first marker found and rewrites
 * `hsa-mir...` to `mir...`, and the `extract_mir_words` that applies it to
 * the qualifying tokens of a paper.
 */
module SuffixRules {
  import opened Text
  import Mentions

  /**
   * The ladder both non-`hsa-mir` branches of `process_suffix` run: keep the
   * text before the first `-5p` or `-3p` and the strand marker itself, or cut
   * at the first `-wnt`, `-d`, `,`, `*` or ` fam`, testing in that order.
   */
  function Ladder(x: string): string
  {
    if Contains(x, "-5p") then Before(x, "-5p") + "-5p"
    else if Contains(x, "-3p") then Before(x, "-3p") + "-3p"
    else if Contains(x, "-wnt") then Before(x, "-wnt")
    else if Contains(x, "-d") then Before(x, "-d")
    else if Contains(x, ",") then Before(x, ",")
    else if Contains(x, "*") then Before(x, "*")
    else if Contains(x, " fam") then Before(x, " fam")
    else x
  }

  lemma StartsWithHsaMir(x: string)
    requires "hsa-mir" <= x
    ensures OccursAt(x, "hsa-mir", 0) && Contains(x, "hsa-mir") && Contains(x, "-m")
  {
    assert x[..7] == "hsa-mir";
    assert x[3..5] == "-m";
    assert OccursAt(x, "-m", 3);
  }

  /** `x.split('hsa-mir')[1]` for a token that starts with `hsa-mir`. */
  function HsaPiece(x: string): string
    requires "hsa-mir" <= x
  {
    StartsWithHsaMir(x);
    Split(x, "hsa-mir")[1]
  }

  /**
   * The piece is the text right after the leading `hsa-mir`, up to any
   * second `hsa-mir` (or the end of the token).
   */
  lemma HsaPieceFollowsPrefix(x: string)
    requires "hsa-mir" <= x
    ensures "hsa-mir" + HsaPiece(x) <= x && !Contains(HsaPiece(x), "hsa-mir")
    ensures x == "hsa-mir" + HsaPiece(x) || OccursAt(x, "hsa-mir", 7 + |HsaPiece(x)|)
  {
    StartsWithHsaMir(x);
    var pieces := Split(x, "hsa-mir");
    assert |Before(x, "hsa-mir")| == 0;
    JoinStartsWithTwoPieces(pieces, "hsa-mir");
    assert "" + "hsa-mir" + pieces[1] == "hsa-mir" + pieces[1];
    assert |pieces[0]| == 0;
  }

  /** The `hsa-mir` branch of `process_suffix`: `mir` and the piece after `hsa-mir`, cut at the marker found in the token. */
  function HsaForm(x: string): string
    requires "hsa-mir" <= x
  {
    var base := HsaPiece(x);
    if Contains(x, "-5p") then "mir" + Before(base, "-5p") + "-5p"
    else if Contains(x, "-3p") then "mir" + Before(base, "-3p") + "-3p"
    else if Contains(x, "-wnt") then "mir" + Before(base, "-wnt")
    else if Contains(x, "-d") then "mir" + Before(base, "-d")
    else if Contains(x, ",") then "mir" + Before(base, ",")
    else if Contains(x, " fam") then "mir" + Before(base, ",")
    else if Contains(x, "*") then "mir" + Before(base, "*")
    else "mir" + base
  }

  /** `process_suffix`. */
  function ProcessSuffix(x: string): string
  {
    if Contains(x, "-m") then
      if "hsa-mir" <= x then HsaForm(x) else Ladder(x)
    else Ladder(x)
  }

  /** The marker cut never makes a token longer. */
  lemma LadderShorter(x: string)
    ensures |Ladder(x)| <= |x|
  {
  }

  /** The `hsa-mir` rewrite drops at least as many characters (`hsa-`) as the strand marker adds back. */
  lemma HsaFormShorter(x: string)
    requires "hsa-mir" <= x
    ensures |HsaForm(x)| <= |x|
  {
    HsaRewritten(x);
    HsaPieceFollowsPrefix(x);
  }

  /** `process_suffix` never returns more characters than it was given. */
  lemma ProcessSuffixShorter(x: string)
    ensures |ProcessSuffix(x)| <= |x|
  {
    if Contains(x, "-m") && "hsa-mir" <= x {
      HsaFormShorter(x);
    } else {
      LadderShorter(x);
    }
  }

  /** A token holding none of the markers comes back unchanged. */
  lemma UnmarkedUnchanged(x: string)
    requires !Contains(x, "-m") && !Contains(x, "-5p") && !Contains(x, "-3p") && !Contains(x, "-wnt")
    requires !Contains(x, "-d") && !Contains(x, ",") && !Contains(x, "*") && !Contains(x, " fam")
    ensures ProcessSuffix(x) == x
  {
  }

  /**
   * Outside the `hsa-mir` branch, a token with `-5p` becomes the text before
   * its first `-5p` followed by `-5p`, whether or not it also holds `-3p`;
   * one with `-3p` and no `-5p` is cut the same way at its first `-3p`.
   */
  lemma StrandKept(x: string)
    requires !("hsa-mir" <= x)
    ensures Contains(x, "-5p") ==> ProcessSuffix(x) == Before(x, "-5p") + "-5p" && "-5p" <= x[|Before(x, "-5p")|..]
    ensures !Contains(x, "-5p") && Contains(x, "-3p") ==> ProcessSuffix(x) == Before(x, "-3p") + "-3p"
  {
  }

  /**
   * A token that starts with `hsa-mir` always holds `-m`, takes the
   * `hsa-mir` branch, and comes out as `mir` followed by a prefix of the text
   * between its leading `hsa-mir` and any second one, with `-5p` or `-3p`
   * appended when the token holds them.
   */
  lemma HsaRewritten(x: string)
    requires "hsa-mir" <= x
    ensures Contains(x, "-m") && ProcessSuffix(x) == HsaForm(x)
    ensures exists t :: t <= HsaPiece(x) && HsaForm(x) == "mir" + t + StrandOf(x)
  {
    StartsWithHsaMir(x);
    var base := HsaPiece(x);
    if Contains(x, "-5p") {
      assert HsaForm(x) == "mir" + Before(base, "-5p") + StrandOf(x);
    } else if Contains(x, "-3p") {
      assert HsaForm(x) == "mir" + Before(base, "-3p") + StrandOf(x);
    } else {
      assert StrandOf(x) == "";
      var t :=
        if Contains(x, "-wnt") then Before(base, "-wnt")
        else if Contains(x, "-d") then Before(base, "-d")
        else if Contains(x, ",") || Contains(x, " fam") then Before(base, ",")
        else if Contains(x, "*") then Before(base, "*")
        else base;
      assert t <= base && HsaForm(x) == "mir" + t + "";
    }
  }

  /** The strand marker the `hsa-mir` branch appends: `-5p`, else `-3p`, else nothing. */
  function StrandOf(x: string): string
  {
    if Contains(x, "-5p") then "-5p" else if Contains(x, "-3p") then "-3p" else ""
  }

  /**
   * In the `hsa-mir` branch the ` fam` case cuts at `,`, which the token
   * cannot hold at that point: the family suffix is kept.
   */
  lemma FamilyKeptForHsa(x: string)
    requires "hsa-mir" <= x && Contains(x, " fam")
    requires !Contains(x, "-5p") && !Contains(x, "-3p") && !Contains(x, "-wnt") && !Contains(x, "-d") && !Contains(x, ",")
    ensures ProcessSuffix(x) == "mir" + HsaPiece(x)
  {
    StartsWithHsaMir(x);
    HsaPieceFollowsPrefix(x);
    NoneInSuffix(x, 7, ",");
    NoneInPrefix(x[7..], HsaPiece(x), ",");
  }

  /** Outside the `hsa-mir` branch, a token that reaches the ` fam` test is cut just before its first ` fam`. */
  lemma FamilyCutOtherwise(x: string)
    requires !("hsa-mir" <= x) && Contains(x, " fam")
    requires !Contains(x, "-5p") && !Contains(x, "-3p") && !Contains(x, "-wnt") && !Contains(x, "-d") && !Contains(x, ",") && !Contains(x, "*")
    ensures ProcessSuffix(x) == Before(x, " fam") && OccursAt(x, " fam", |ProcessSuffix(x)|)
  {
  }

  /** What the older `extract_mir_words` passes to `process_suffix`: the text before the first `/`. */
  function SlashCut(x: string): string
  {
    if Contains(x, "/") then Split(x, "/")[0] else x
  }

  /** The entries one token contributes in the older extraction. */
  function LegacyCandidatesOf(x: string): set<string>
  {
    if Mentions.Qualifies(x) then {ProcessSuffix(SlashCut(x))} else {}
  }

  ghost function LegacySet(text: seq<string>): set<string>
  {
    Gather(text, LegacyCandidatesOf)
  }

  /** The older `extract_mir_words`, up to the final `list(...)`. */
  method LegacyCollect(text: seq<string>) returns (processedWords: set<string>)
    ensures processedWords == LegacySet(text)
    ensures |processedWords| <= |text|
  {
    processedWords := {};
    for i := 0 to |text|
      invariant processedWords == LegacySet(text[..i])
      invariant |processedWords| <= i
    {
      var x := text[i];
      assert text[..i + 1][..i] == text[..i];
      if Mentions.Qualifies(x) {
        if Contains(x, "/") {
          processedWords := processedWords + {ProcessSuffix(Split(x, "/")[0])};
        } else {
          processedWords := processedWords + {ProcessSuffix(x)};
        }
      }
    }
    assert text[..|text|] == text;
  }

  /** The older `extract_mir_words`: the collected set as a list without duplicates, in no particular order. */
  method LegacyExtractMirWords(text: seq<string>) returns (words: seq<string>)
    ensures forall i, j :: 0 <= i < j < |words| ==> words[i] != words[j]
    ensures forall w :: w in words <==> w in LegacySet(text)
    ensures |words| <= |text|
  {
    var processedWords := LegacyCollect(text);
    words := [];
    var rest := processedWords;
    while rest != {}
      invariant rest <= processedWords
      invariant forall w :: w in words <==> w in processedWords && w !in rest
      invariant forall i, j :: 0 <= i < j < |words| ==> words[i] != words[j]
      invariant |words| + |rest| == |processedWords|
      decreases |rest|
    {
      var w :| w in rest;
      words := words + [w];
      rest := rest - {w};
    }
  }

  /** Every entry of the older extraction is `process_suffix` of the text before the first `/` of a qualifying token. */
  lemma LegacyMembers(text: seq<string>, c: string)
    ensures c in LegacySet(text) <==> exists x :: x in text && Mentions.Qualifies(x) && ProcessSuffix(SlashCut(x)) == c
  {
    GatherMembers(text, LegacyCandidatesOf, c);
  }

  /** The text handed to `process_suffix` holds no `/` and is a prefix of the token. */
  lemma SlashCutShape(x: string)
    ensures SlashCut(x) <= x && !Contains(SlashCut(x), "/")
  {
  }
}
