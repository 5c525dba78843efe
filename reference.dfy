/**
 * The reference identifiers: the names on the `DE` lines of the miRBase
 * DAT file and the last field of the lines of the mature-sequence FASTA
 * file (every line, sequence lines included, unless an organism filter
 * drops it), with en and em dashes normalised to `-`.
 * `02_extract_miRNAs_per_year.py` keeps every organism; the two author
 * scripts keep only lines that mention `homo` in any letter case. Each file
 * is given as its list of lines.
 */
module Reference {
  import opened Text

  datatype Organism = AnyOrganism | HumanOnly

  /**
   * What reading both files yields: the identifier set, or the position of
   * the first selected DAT line without a sixth field (where the script
   * stops with an `IndexError`, before the FASTA file is read).
   */
  datatype Load = Loaded(ids: set<string>) | FieldMissing(line: nat)

  /** `'homo' in x.lower()`. */
  predicate MentionsHomo(line: string)
  {
    Contains(Lower(line), "homo")
  }

  /** A DAT line the loop keeps: its first space-separated field holds `DE` (and, for humans only, it mentions `homo`). */
  predicate DatSelected(line: string, organism: Organism)
  {
    Contains(Split(line, " ")[0], "DE") && (organism == HumanOnly ==> MentionsHomo(line))
  }

  /** A FASTA line the loop keeps. */
  predicate FastaSelected(line: string, organism: Organism)
  {
    organism == AnyOrganism || MentionsHomo(line)
  }

  /** `x.strip().split(' ')`. */
  function Fields(line: string): seq<string>
  {
    Split(Strip(line), " ")
  }

  predicate HasIdField(line: string)
  {
    |Fields(line)| > 5
  }

  /** The identifier of a DAT line: its sixth single-space field, dashes normalised. */
  function DatId(line: string): string
    requires HasIdField(line)
  {
    NormalizeDashes(Fields(line)[5])
  }

  /** `x.strip().split(' ')[-1]`: there is always a last field. */
  function LastField(line: string): string
  {
    Fields(line)[|Fields(line)| - 1]
  }

  /** The identifier of a FASTA line: its last single-space field, dashes normalised. */
  function FastaId(line: string): string
  {
    NormalizeDashes(LastField(line))
  }

  /** The identifiers one DAT line contributes. */
  function DatIdsOf(organism: Organism): string -> set<string>
  {
    line => if DatSelected(line, organism) && HasIdField(line) then {DatId(line)} else {}
  }

  /** The identifiers one FASTA line contributes. */
  function FastaIdsOf(organism: Organism): string -> set<string>
  {
    line => if FastaSelected(line, organism) then {FastaId(line)} else {}
  }

  ghost function DatIds(dat: seq<string>, organism: Organism): set<string>
  {
    Gather(dat, DatIdsOf(organism))
  }

  ghost function FastaIds(fasta: seq<string>, organism: Organism): set<string>
  {
    Gather(fasta, FastaIdsOf(organism))
  }

  /** Every selected DAT line among the first `n` has a sixth field. */
  predicate AllHaveIdField(dat: seq<string>, organism: Organism, n: nat)
    requires n <= |dat|
  {
    forall k :: 0 <= k < n && DatSelected(dat[k], organism) ==> HasIdField(dat[k])
  }

  /**
   * The DAT loop: either a selected line lacks its sixth field, and the
   * result names the first such line, or the result is every identifier
   * the selected lines carry.
   */
  method ReadDat(dat: seq<string>, organism: Organism) returns (result: Load)
    ensures result.FieldMissing? ==> result.line < |dat| && DatSelected(dat[result.line], organism)
    ensures result.FieldMissing? ==> !HasIdField(dat[result.line]) && AllHaveIdField(dat, organism, result.line)
    ensures result.Loaded? <==> AllHaveIdField(dat, organism, |dat|)
    ensures result.Loaded? ==> result.ids == DatIds(dat, organism)
  {
    var ids: set<string> := {};
    for i := 0 to |dat|
      invariant ids == DatIds(dat[..i], organism)
      invariant AllHaveIdField(dat, organism, i)
    {
      var x := dat[i];
      DatStep(dat, organism, i);
      if DatSelected(x, organism) {
        if !HasIdField(x) {
          return FieldMissing(i);
        }
        ids := ids + {DatId(x)};
      }
    }
    assert dat[..|dat|] == dat;
    return Loaded(ids);
  }

  /** The FASTA loop: the last field of every selected line, dashes normalised. */
  method ReadFasta(fasta: seq<string>, organism: Organism) returns (ids: set<string>)
    ensures ids == FastaIds(fasta, organism)
  {
    ids := {};
    for j := 0 to |fasta|
      invariant ids == FastaIds(fasta[..j], organism)
    {
      var x := fasta[j];
      FastaStep(fasta, organism, j);
      if FastaSelected(x, organism) {
        ids := ids + {FastaId(x)};
      }
    }
    assert fasta[..|fasta|] == fasta;
  }

  /**
   * Both loading loops of a script: the DAT file first, whose missing field
   * stops everything, then the FASTA file, whose identifiers join the DAT
   * ones in one set.
   */
  method LoadKnownIds(dat: seq<string>, fasta: seq<string>, organism: Organism) returns (result: Load)
    ensures result.FieldMissing? ==> result.line < |dat| && DatSelected(dat[result.line], organism)
    ensures result.FieldMissing? ==> !HasIdField(dat[result.line]) && AllHaveIdField(dat, organism, result.line)
    ensures result.Loaded? <==> AllHaveIdField(dat, organism, |dat|)
    ensures result.Loaded? ==> result.ids == DatIds(dat, organism) + FastaIds(fasta, organism)
  {
    result := ReadDat(dat, organism);
    if result.Loaded? {
      var fastaIds := ReadFasta(fasta, organism);
      result := Loaded(result.ids + fastaIds);
    }
  }

  lemma DatStep(dat: seq<string>, organism: Organism, i: nat)
    requires i < |dat|
    ensures DatIds(dat[..i + 1], organism)
            == DatIds(dat[..i], organism)
               + if DatSelected(dat[i], organism) && HasIdField(dat[i]) then {DatId(dat[i])} else {}
  {
    GatherStep(dat, DatIdsOf(organism), i);
  }

  lemma FastaStep(fasta: seq<string>, organism: Organism, j: nat)
    requires j < |fasta|
    ensures FastaIds(fasta[..j + 1], organism)
            == FastaIds(fasta[..j], organism) + if FastaSelected(fasta[j], organism) then {FastaId(fasta[j])} else {}
  {
    GatherStep(fasta, FastaIdsOf(organism), j);
  }

  /** An identifier is loaded exactly when a selected line of either file carries it. */
  lemma LoadedMembers(dat: seq<string>, fasta: seq<string>, organism: Organism, id: string)
    ensures id in DatIds(dat, organism) <==>
              exists line :: line in dat && DatSelected(line, organism) && HasIdField(line) && DatId(line) == id
    ensures id in FastaIds(fasta, organism) <==>
              exists line :: line in fasta && FastaSelected(line, organism) && FastaId(line) == id
  {
    GatherMembers(dat, DatIdsOf(organism), id);
    GatherMembers(fasta, FastaIdsOf(organism), id);
  }

  /**
   * Keeping human lines only never adds an identifier, and never adds a
   * missing field: a load that succeeds for every organism succeeds for
   * humans, with a subset of the identifiers.
   */
  lemma HumanOnlyNarrows(dat: seq<string>, fasta: seq<string>)
    ensures DatIds(dat, HumanOnly) <= DatIds(dat, AnyOrganism)
    ensures FastaIds(fasta, HumanOnly) <= FastaIds(fasta, AnyOrganism)
    ensures AllHaveIdField(dat, AnyOrganism, |dat|) ==> AllHaveIdField(dat, HumanOnly, |dat|)
  {
    forall id | id in DatIds(dat, HumanOnly) ensures id in DatIds(dat, AnyOrganism) {
      LoadedMembers(dat, fasta, HumanOnly, id);
      LoadedMembers(dat, fasta, AnyOrganism, id);
    }
    forall id | id in FastaIds(fasta, HumanOnly) ensures id in FastaIds(fasta, AnyOrganism) {
      LoadedMembers(dat, fasta, HumanOnly, id);
      LoadedMembers(dat, fasta, AnyOrganism, id);
    }
  }

  /** No identifier loaded from the DAT file holds an en or em dash or a space. */
  lemma DatIdsAreClean(dat: seq<string>, organism: Organism, id: string)
    requires id in DatIds(dat, organism)
    ensures Clean(id)
  {
    GatherMembers(dat, DatIdsOf(organism), id);
    var line :| line in dat && id in DatIdsOf(organism)(line);
    FieldIdClean(Fields(line), 5);
  }

  /** No identifier loaded from the FASTA file holds an en or em dash or a space. */
  lemma FastaIdsAreClean(fasta: seq<string>, organism: Organism, id: string)
    requires id in FastaIds(fasta, organism)
    ensures Clean(id)
  {
    GatherMembers(fasta, FastaIdsOf(organism), id);
    var line :| line in fasta && id in FastaIdsOf(organism)(line);
    FieldIdClean(Fields(line), |Fields(line)| - 1);
  }

  /** No en or em dash, and no space. */
  predicate Clean(id: string)
  {
    EnDash !in id && EmDash !in id && ' ' !in id
  }

  /** A field of a single-space split, dashes normalised, is clean. */
  lemma FieldIdClean(fields: seq<string>, k: nat)
    requires k < |fields| && !Contains(fields[k], " ")
    ensures Clean(NormalizeDashes(fields[k]))
  {
    ContainsChar(fields[k], ' ');
  }

  /**
   * The identifier of a DAT line is its sixth piece between single spaces,
   * empty pieces included: in `DE   Homo sapiens miR-21 stem-loop` the run of
   * three spaces makes two empty pieces, so the sixth piece is `miR-21`.
   */
  lemma DatIdIsSixthPiece(pieces: seq<string>)
    requires |pieces| > 5
    requires forall k :: 0 <= k < |pieces| ==> !Contains(pieces[k], " ")
    requires var line := Join(pieces, " "); |line| > 0 && !IsSpace(line[0]) && !IsSpace(line[|line| - 1])
    ensures HasIdField(Join(pieces, " ")) && DatId(Join(pieces, " ")) == NormalizeDashes(pieces[5])
  {
    var line := Join(pieces, " ");
    StripKeepsTrimmed(line);
    SplitOfJoin(pieces, " ");
  }
}
