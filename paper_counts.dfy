/**
 * The per-year paper counts of `02_extract_miRNA.py`: each paper (a row of
 * the bibliographic table, identified by its position) has a year and the
 * list of entries its keywords and title yielded; after exploding the lists,
 * the (year, entry) cell counts the distinct papers of that year that list
 * the entry, and the per-year total counts the papers of the year.
 */
module PaperCounts {

  datatype Paper = Paper(year: int, mirWords: seq<string>)

  /** The positions (paper identifiers) of the papers of `year` that list `mirna`. */
  ghost function PapersMentioning(papers: seq<Paper>, year: int, mirna: string): set<nat>
  {
    set i: nat | i < |papers| && papers[i].year == year && mirna in papers[i].mirWords
  }

  /** The positions of the papers of `year`. */
  ghost function PapersOfYear(papers: seq<Paper>, year: int): set<nat>
  {
    set i: nat | i < |papers| && papers[i].year == year
  }

  /** The (year, entry) cell of the paper-count matrix: the distinct papers of `year` that list `mirna`. */
  function CountPapers(papers: seq<Paper>, year: int, mirna: string): (n: nat)
    decreases |papers|
  {
    if |papers| == 0 then 0
    else
      var last := papers[|papers| - 1];
      CountPapers(papers[..|papers| - 1], year, mirna) + (if last.year == year && mirna in last.mirWords then 1 else 0)
  }

  /** The per-year total (`value_counts` of the year column). */
  function PapersInYear(papers: seq<Paper>, year: int): (n: nat)
    decreases |papers|
  {
    if |papers| == 0 then 0
    else PapersInYear(papers[..|papers| - 1], year) + (if papers[|papers| - 1].year == year then 1 else 0)
  }

  lemma PositionsGrow(papers: seq<Paper>, year: int, mirna: string)
    requires |papers| > 0
    ensures var init, last := papers[..|papers| - 1], papers[|papers| - 1];
            PapersMentioning(papers, year, mirna)
            == PapersMentioning(init, year, mirna)
               + (if last.year == year && mirna in last.mirWords then {|papers| - 1} else {})
            && PapersOfYear(papers, year) == PapersOfYear(init, year) + (if last.year == year then {|papers| - 1} else {})
  {
  }

  lemma PositionsBelow(papers: seq<Paper>, year: int, mirna: string)
    ensures forall i :: i in PapersMentioning(papers, year, mirna) ==> i < |papers|
    ensures forall i :: i in PapersOfYear(papers, year) ==> i < |papers|
  {
  }

  /**
   * The cell is the number of distinct papers of `year` that list `mirna`,
   * and the per-year total the number of papers of `year`.
   */
  lemma {:induction false} CountsAreDistinctPapers(papers: seq<Paper>, year: int, mirna: string)
    decreases |papers|
    ensures CountPapers(papers, year, mirna) == |PapersMentioning(papers, year, mirna)|
    ensures PapersInYear(papers, year) == |PapersOfYear(papers, year)|
  {
    if |papers| > 0 {
      var init := papers[..|papers| - 1];
      CountsAreDistinctPapers(init, year, mirna);
      PositionsGrow(papers, year, mirna);
      PositionsBelow(init, year, mirna);
    }
  }

  /** A paper is counted in a cell only if it belongs to that year: no cell exceeds its year's total. */
  lemma CellWithinYearTotal(papers: seq<Paper>, year: int, mirna: string)
    ensures CountPapers(papers, year, mirna) <= PapersInYear(papers, year)
  {
    CountsAreDistinctPapers(papers, year, mirna);
    assert PapersMentioning(papers, year, mirna) <= PapersOfYear(papers, year);
    SubsetCard(PapersMentioning(papers, year, mirna), PapersOfYear(papers, year));
  }

  lemma SubsetCard<T>(a: set<T>, b: set<T>)
    requires a <= b
    ensures |a| <= |b|
  {
    assert b == a + (b - a);
  }
}
