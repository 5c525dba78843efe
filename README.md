# miRNA mention pipeline

This project is a Dafny model of the miRNA mention pipeline of a bibliometric
study of microRNAs in colorectal cancer. Four Python scripts share the pipeline,
each with its own variations.

1. **Candidate extraction** turns lowercased tokens into candidates.
   - In the three newer scripts, a token qualifies when:
     - it starts with `mir` or `hsa-mir`;
     - it is longer than four characters;
     - it is neither `mirna` nor `mirnas`.

     The token's en and em dashes become `-`. The candidate is `miR-` followed by the text after the last `mir-`, `mirna-` or `mir.`.
   - The older extraction in `02_extract_miRNA.py` does two things:
     - it cuts each qualifying token at its first `/`;
     - it passes the result through `process_suffix`, a ladder of marker tests.
2. **Validation** reduces each candidate to its longest prefix of at least four characters that is a known identifier, or to nothing.
   - This is done by truncation: the candidate is tested, then shortened one character at a time.
   - The "immature" variant first cuts the candidate at its first `-5p`, or failing that at its first `-3p`.
3. **The known identifiers** come from the miRBase DAT file and the mature-sequence FASTA file, dashes normalised in both.
   - From the DAT file: the sixth single-space field of each `DE` line.
   - From the FASTA file: the last field of each line.
   - `02_extract_miRNAs_per_year.py` keeps every organism. The two author scripts keep only lines that mention `homo` in any letter case.
4. **Counting and reshaping**:
   - distinct papers per (year, identifier);
   - the per-year table with its missing years filled in with zeros, and each row blanked out before its first mention;
   - the author scripts' title tokenisation and their filter on how many authors mention an identifier.

The files are organised as follows:
- `text.dfy` models the Python string operations used:
  - `in`;
  - `split` with a separator;
  - the dash clean-up;
  - `lower`;
  - `strip`.
- `mentions.dfy` holds the newer extraction.
- `validation.dfy` holds both validators.
- `suffix_rules.dfy` holds the older extraction.
- `reference.dfy` holds the reference loader.
- `string_order.dfy` holds `sorted(list(...))` on strings.
- `paper_counts.dfy`, `year_table.dfy` and `author_matrix.dfy` hold the counting steps.

File contents and table rows are parameters (sequences of lines, words and counts). Nothing is read from disk.

`extract_mir_words` and the validators appear in several scripts as identical copies. Each is modelled once:
- `Mentions.ExtractMirWords` is the newer `extract_mir_words` of `02_extract_miRNAs_per_year.py`, `04_extract_mirna_from_10_most_productive_authors.py` and `04_extract_mirna_from_authors.py`.
- `Validation.ValidateIds` is `miRNA_ID_validation` together with its two copies named `miRNA_ID_validation_considering_mature`.
- The loader takes an `Organism` parameter:
  - `AnyOrganism` models the loop of `02_extract_miRNAs_per_year.py`;
  - `HumanOnly` models the `homo`-filtered loops of the two author scripts.

## Model

| member | source | states |
|---|---|---|
| Text.Find | 02_extract_miRNA.py:32 | the index found is an occurrence, no earlier index from the start position is one, and no result means no occurrence at all |
| Text.Before | 02_extract_miRNA.py:60 | `s.split(sep)[0]` is a prefix of `s` that holds no occurrence start; when `sep` occurs, it occurs right after that prefix, and otherwise the prefix is all of `s` |
| Text.Split | 02_extract_miRNAs_per_year.py:76 | `str.split(sep)` yields at least one piece, and no piece holds the separator. Joining the pieces with the separator gives the string back. The first piece is the text before the first occurrence, and there are two or more pieces exactly when the separator occurs |
| Text.SplitOfJoin | 02_extract_miRNAs_per_year.py:76 | for a one-character separator, splitting pieces that were joined with it gives back exactly those pieces, empty ones included |
| Text.ContainsChar | 02_extract_miRNA.py:103 | a one-character `in` test (such as `"/" in x`) holds exactly when the character occurs in the string |
| Text.NormalizeDashes | 02_extract_miRNAs_per_year.py:15 | the clean-up keeps the length, turns every en and em dash into `-`, leaves all other characters alone, and leaves no en or em dash |
| Text.Lower | 04_extract_mirna_from_10_most_productive_authors.py:71 | lowercasing keeps the length, maps each character on its own, and leaves no capital letter |
| Text.Strip | 02_extract_miRNAs_per_year.py:76 | `strip()` is a slice with only whitespace outside it; when non-empty, it starts and ends with a non-space |
| Text.StripKeepsTrimmed | 02_extract_miRNAs_per_year.py:76 | a string with no whitespace at either end is its own strip |
| Text.GatherMembers | 02_extract_miRNAs_per_year.py:12-18 | a value is collected by a set-accumulating loop over a list exactly when some element of the list contributes it |
| Mentions.MarkerAt | 02_extract_miRNAs_per_year.py:16 | a match of the pattern (`mir-`, `mirna-` or `mir.`) at an index covers 4 or 6 characters that lie inside the token |
| Mentions.MatchedText | 02_extract_miRNAs_per_year.py:16 | a match is the first alternative of the pattern that occurs at that index, and the text it covers is `mir-`, `mirna-` or `mir.` |
| Mentions.MarkersDoNotOverlap | 02_extract_miRNAs_per_year.py:16 | no match can start inside another, since `m` only begins each alternative |
| Mentions.RightmostMarker | 02_extract_miRNAs_per_year.py:16 | the index found is a match with no match after it below the bound; no result means there is no match below the bound |
| Mentions.AfterLastMarker | 02_extract_miRNAs_per_year.py:16 | the text after the rightmost match is a suffix of the token, and is the whole token when there is no match |
| Mentions.SplitScanLast | 02_extract_miRNAs_per_year.py:16 | the last piece of the `re.split` scan from any position is the text after the rightmost match at or after it, or the current piece |
| Mentions.LastPieceIsAfterLastMarker | 02_extract_miRNAs_per_year.py:16 | `re.split(...)[-1]` is the text after the rightmost match of the pattern |
| Mentions.LastPiece | 02_extract_miRNAs_per_year.py:16 | the last piece of the split is the text after the rightmost match |
| Mentions.AfterLastMarkerHasNoMarker | 02_extract_miRNAs_per_year.py:16 | the last piece holds no further match of the pattern |
| Mentions.CandidateShape | 02_extract_miRNAs_per_year.py:15-17 | a candidate starts with `miR-`, holds no en or em dash, and is `miR-` followed by the text after the rightmost match in the cleaned token |
| Mentions.NoMarkerMeansWhole | 02_extract_miRNAs_per_year.py:16-17 | a token whose cleaned text holds no match yields `miR-` followed by the whole cleaned token |
| Mentions.UndashedMention | 02_extract_miRNAs_per_year.py:14-17 | `mir21` qualifies and yields `miR-mir21` |
| Mentions.ExtractMirWords | 02_extract_miRNAs_per_year.py:11-19 | the loop returns exactly the candidates of the qualifying tokens, and no more of them than there are tokens. The same loop appears at 04_extract_mirna_from_10_most_productive_authors.py:8-17 and 04_extract_mirna_from_authors.py:8-17 |
| Mentions.CandidateSetMembers | 02_extract_miRNAs_per_year.py:13-18 | a string is a candidate exactly when some qualifying token of the list yields it |
| Mentions.CandidatesAreNormalised | 04_extract_mirna_from_10_most_productive_authors.py:8-17 | every candidate starts with `miR-` and holds no en or em dash |
| Mentions.CandidateSetAppend | 02_extract_miRNAs_per_year.py:98-99 | the candidates of keywords, title and abstract put together are the union of the candidates of each |
| Mentions.NonQualifyingTokenIgnored | 04_extract_mirna_from_authors.py:11 | a token such as `mirna`, `mirnas` or one of at most four characters adds no candidate |
| Mentions.RepeatedMentionCountsOnce | 02_extract_miRNAs_per_year.py:12-19 | a qualifying token repeated any number of times yields a single candidate |
| Validation.LongestKnownPrefixIsLongest | 02_extract_miRNAs_per_year.py:26-31 | the first hit of the truncation from length `n` is a known prefix of at least four characters, and no longer prefix up to `n` is known; no hit means that no prefix of length 4 to `n` is known |
| Validation.KnownPrefixIsLongest | 02_extract_miRNAs_per_year.py:24-31 | a candidate validates to a known prefix of at least four characters, and no longer prefix of it is known; it validates to nothing exactly when no prefix of four or more characters is known |
| Validation.TruncateToKnown | 02_extract_miRNAs_per_year.py:24-31 | the `while len(temp) >= 4` loop finds the longest known prefix of the candidate, or nothing |
| Validation.Contribution | 02_extract_miRNAs_per_year.py:27-30 | one candidate adds at most one identifier |
| Validation.ValidateIds | 02_extract_miRNAs_per_year.py:21-34 | the result is the set of longest known prefixes of the candidates, with no more elements than there are candidates. The same loop appears at 04_extract_mirna_from_10_most_productive_authors.py:19-32 and 04_extract_mirna_from_authors.py:21-34 |
| Validation.ValidatedAreKnownPrefixes | 04_extract_mirna_from_10_most_productive_authors.py:19-32 | every validated identifier is known, has at least four characters, and is a prefix of some candidate with no longer known prefix |
| Validation.KnownCandidateKept | 02_extract_miRNAs_per_year.py:27-28 | a known candidate of four or more characters is returned unchanged |
| Validation.UnknownCandidateDropped | 04_extract_mirna_from_authors.py:26-31 | a candidate with no known prefix of four or more characters contributes nothing |
| Validation.TrailingLetterDropped | 02_extract_miRNAs_per_year.py:26-31 | with only `miR-21` known, `miR-21a` validates to `miR-21` |
| Validation.StripStrandCuts | 02_extract_miRNAs_per_year.py:40-45 | the immature cut is a prefix with no `-5p`. It ends at the first `-5p`, or when there is none at the first `-3p` (and then holds no `-3p`); a candidate with neither is kept whole |
| Validation.ImmatureValidatesStrandCut | 02_extract_miRNAs_per_year.py:36-54 | the immature variant gives what plain validation gives on the strand-cut candidates |
| Validation.ValidateImmature | 02_extract_miRNAs_per_year.py:36-54 | the loop returns the longest known prefixes of the strand-cut candidates, with no more elements than there are candidates |
| Validation.StrandCutExample | 02_extract_miRNAs_per_year.py:40-51 | with only `miR-21` known, `miR-21-5p` validates to `miR-21` |
| SuffixRules.ProcessSuffixShorter | 02_extract_miRNA.py:26-91 | `process_suffix` never returns a longer string than it was given |
| SuffixRules.LadderShorter | 02_extract_miRNA.py:58-74 | the marker ladder outside the `hsa-mir` branch never lengthens a token |
| SuffixRules.HsaFormShorter | 02_extract_miRNA.py:33-56 | the `hsa-mir` rewrite never lengthens a token |
| SuffixRules.UnmarkedUnchanged | 02_extract_miRNA.py:75-91 | a token holding none of `-m`, `-5p`, `-3p`, `-wnt`, `-d`, `,`, `*`, ` fam` comes back unchanged |
| SuffixRules.StrandKept | 02_extract_miRNA.py:76-79 | outside the `hsa-mir` branch, a token with `-5p` becomes the text before its first `-5p` followed by `-5p`, even when it also holds `-3p`; one with only `-3p` is cut the same way at `-3p` |
| SuffixRules.StartsWithHsaMir | 02_extract_miRNA.py:32-33 | a token starting with `hsa-mir` holds `-m` |
| SuffixRules.HsaPieceFollowsPrefix | 02_extract_miRNA.py:35 | `x.split('hsa-mir')[1]` is the text right after the leading `hsa-mir`; it holds no `hsa-mir` and runs to the end of the token or to the next `hsa-mir` |
| SuffixRules.HsaRewritten | 02_extract_miRNA.py:32-56 | a token starting with `hsa-mir` takes the `hsa-mir` branch. Its result is `mir`, then a prefix of the text up to any second `hsa-mir`, then `-5p` or `-3p` when the token holds one |
| SuffixRules.FamilyKeptForHsa | 02_extract_miRNA.py:49-51 | in the `hsa-mir` branch, the ` fam` case cuts at `,`, which the token cannot hold at that point, so the family suffix is kept |
| SuffixRules.FamilyCutOtherwise | 02_extract_miRNA.py:88-89 | outside the `hsa-mir` branch, a token reaching the ` fam` test is cut just before its first ` fam` |
| SuffixRules.SlashCutShape | 02_extract_miRNA.py:103-104 | what reaches `process_suffix` is a prefix of the token with no `/` |
| SuffixRules.LegacyCollect | 02_extract_miRNA.py:100-106 | the loop collects exactly `process_suffix` of the slash-cut qualifying tokens, no more of them than there are tokens |
| SuffixRules.LegacyExtractMirWords | 02_extract_miRNA.py:93-107 | the returned list holds no duplicates, has exactly the collected entries as members, and is no longer than the token list |
| SuffixRules.LegacyMembers | 02_extract_miRNA.py:102-106 | an entry is collected exactly when some qualifying token yields it through the slash cut and `process_suffix` |
| PaperCounts.CountsAreDistinctPapers | 02_extract_miRNA.py:145-160 | each (year, identifier) cell is the number of distinct papers of that year that list the identifier |
| PaperCounts.CellWithinYearTotal | 02_extract_miRNA.py:141 | no cell exceeds the number of papers of its year |
| StringOrder.StrictTotalOrder | 02_extract_miRNAs_per_year.py:85 | Python's string order is irreflexive, asymmetric, transitive and total |
| StringOrder.Least | 02_extract_miRNAs_per_year.py:85 | the element found is in the set and below every other element |
| StringOrder.SortIds | 02_extract_miRNAs_per_year.py:85 | `sorted(list(ids))` is strictly increasing, has exactly the members of the set, and has as many elements. The same call appears at 04_extract_mirna_from_10_most_productive_authors.py:56 |
| StringOrder.SortedUnique | 04_extract_mirna_from_authors.py:59 | two strictly sorted lists with the same members are equal, so the sorted list is determined by the set |
| Reference.ReadDat | 02_extract_miRNAs_per_year.py:74-78 | the DAT loop either stops at the first selected line without a sixth field, naming that line, or returns the identifiers of all selected lines; it succeeds exactly when every selected line has the field |
| Reference.ReadFasta | 02_extract_miRNAs_per_year.py:80-83 | the FASTA loop returns the dash-normalised last field of every selected line |
| Reference.LoadKnownIds | 04_extract_mirna_from_10_most_productive_authors.py:43-54 | the loader reads the DAT file and then the FASTA file. It stops where a selected DAT line lacks its sixth field; otherwise it returns the union of both files' identifiers |
| Reference.LoadedMembers | 04_extract_mirna_from_authors.py:46-57 | an identifier is loaded from a file exactly when some selected line of that file carries it |
| Reference.HumanOnlyNarrows | 04_extract_mirna_from_authors.py:47 | the `homo` filter only removes identifiers, and it never makes a load fail that succeeds without the filter |
| Reference.DatIdsAreClean | 02_extract_miRNAs_per_year.py:76-77 | an identifier from the DAT file holds no en dash, em dash or space |
| Reference.FastaIdsAreClean | 02_extract_miRNAs_per_year.py:81-82 | an identifier from the FASTA file holds no en dash, em dash or space |
| Reference.FieldIdClean | 02_extract_miRNAs_per_year.py:76-77 | a single-space field with dashes normalised holds no en dash, em dash or space |
| Reference.DatIdIsSixthPiece | 02_extract_miRNAs_per_year.py:76 | for a line made of single-space pieces (empty ones included) with no whitespace at its ends, the identifier is the sixth piece, dash-normalised |
| YearTable.FirstPositive | 02_extract_miRNAs_per_year.py:57 | the index found is the first positive entry; no result means no entry is positive |
| YearTable.TransformRow | 02_extract_miRNAs_per_year.py:56-64 | `transform_row` keeps the length. An entry becomes missing exactly when it and all entries before it are zero and a later entry is positive; every other entry keeps its count |
| YearTable.NoMentionUnchanged | 02_extract_miRNAs_per_year.py:58-59 | a row with no positive entry comes back unchanged |
| YearTable.BlankedZerosKeepSum | 02_extract_miRNAs_per_year.py:129 | blanking out zero entries leaves the sum of the row alone |
| YearTable.TotalMentions | 02_extract_miRNAs_per_year.py:128-129 | `Total_Mentions` of a transformed row equals the sum of the original row |
| YearTable.CountedAfterBlank | 02_extract_miRNAs_per_year.py:130 | a row missing exactly its first `f` entries has `length - f` counted entries |
| YearTable.MeanSpan | 02_extract_miRNAs_per_year.py:130 | the mean of a transformed row is taken over the years from the first mention on |
| YearTable.YearBounds | 02_extract_miRNAs_per_year.py:112-114 | `min` and `max` of the year labels are labels that bound every label |
| YearTable.Zeros | 02_extract_miRNAs_per_year.py:120 | an added year column has one zero per identifier |
| YearTable.FillYearGaps | 02_extract_miRNAs_per_year.py:111-123 | after gap filling, the columns run over every year from the earliest label to the latest, in increasing order; a year the table had keeps its column, and a missing year gets a column of zeros |
| AuthorMatrix.WordsRebuild | 04_extract_mirna_from_10_most_productive_authors.py:72 | `re.split('[ /]', s)` yields one more word than `s` has separators, no word holds a space or `/`, and putting the words back with those separators gives `s` |
| AuthorMatrix.WordsFromRebuild | 04_extract_mirna_from_authors.py:81 | the same for the scan from any position |
| AuthorMatrix.TitleWords | 04_extract_mirna_from_10_most_productive_authors.py:71-72 | a title yields at least one word, and no word holds a space, a `/` or a capital letter |
| AuthorMatrix.TitleWordsAreLower | 04_extract_mirna_from_authors.py:78-81 | splitting lowercased text leaves no capital letter in any word |
| AuthorMatrix.TitleIds | 04_extract_mirna_from_authors.py:78-90 | a title's identifiers are the validated candidates of its words, no more of them than there are words |
| AuthorMatrix.PositiveAuthors | 04_extract_mirna_from_10_most_productive_authors.py:96 | the number of authors with a positive count in a column is at most the number of authors |
| AuthorMatrix.KeepStudied | 04_extract_mirna_from_10_most_productive_authors.py:96-97 | a column is kept exactly when at least `k` authors have a positive count in it, and the kept columns keep their order |
| AuthorMatrix.AtLeastOneAuthor | 04_extract_mirna_from_authors.py:111 | a column reaches one author exactly when some author has a positive count in it |
| AuthorMatrix.KeptByAnyAuthor | 04_extract_mirna_from_authors.py:111-112 | the all-authors filter keeps exactly the columns some author has a positive count in |
| AuthorMatrix.KeepStudiedMonotone | 04_extract_mirna_from_10_most_productive_authors.py:96-97 | a higher threshold keeps a subsequence of what a lower one keeps, so every column the three-author filter keeps is also kept by the one-author filter |

## Left out

- Reading and writing CSV and Excel files, and opening the database files, are not modelled. File lines, tokens and table rows are parameters.
- Plotting, heat maps, annotations and the peak-year label are not modelled.
- Everything after `exit()` in `02_extract_miRNA.py` and `04_extract_mirna_from_10_most_productive_authors.py` is unreachable and is not modelled.
- `Average_Mentions` is a floating-point mean rounded to two places. Only its denominator is modelled: `YearTable.MeanSpan` gives the number of counted years.
- The top-ten `nlargest` selection and the duplicate-star marks of `02_extract_miRNA.py` depend on pandas tie-breaking and only feed the plot. They are not modelled.
- `ast.literal_eval` is applied only to string values, and the validated identifiers are sets. It is a no-op there and is not modelled.
- `Text.Lower`: lowercases ASCII letters only. Python's Unicode case mapping is not modelled.
- A missing title becomes the text `nan` through `str(x)`. The model takes titles as text and does not model missing values.
- The pandas constructions that produce the tables are not modelled: `explode`, `groupby`, `unstack` and the transposition. The model starts from their results: the per-paper entry lists (`PaperCounts.Paper`), a year's columns (`YearTable.FillYearGaps`) and the author-by-identifier columns (`AuthorMatrix.Column`).
- The year labels' round trip through `str` and `int` is not modelled: years are integers throughout.
- `sort_values('Total_Mentions')`, `head(10)` and the CSV output of the per-year table are not modelled.
- `YearTable.YearBounds`: requires at least one year, because `min` of an empty list raises.
- `YearTable.FillYearGaps`: requires at least one year label, for the same reason. Its first loop both computes the missing years and adds their columns; the script computes the list first and then adds the columns.
- `StringOrder.SortIds`: Timsort is replaced by repeated selection of the least element. Its result is the same, by `StringOrder.SortedUnique`.
- The known identifiers are tested as a set rather than as the sorted list. Membership in the two is the same by `StringOrder.SortIds`.
- `Reference.ReadDat`: the scripts do not skip a selected DAT line with fewer than six fields. `x.strip().split(' ')[5]` raises `IndexError` and the script stops before reading the FASTA file. The model returns `FieldMissing` with the index of that line.
- The order of `list(processed_words)` in the older `extract_mir_words` is the iteration order of a Python set, which is not modelled. `SuffixRules.LegacyExtractMirWords` only promises its members and that there are no duplicates.
- General regular expressions are not modelled. The two patterns used, `mir-|mirna-|mir\.` and `[ /]`, are modelled as dedicated scans.
