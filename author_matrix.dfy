/**
 * The two author scripts: each title is lowercased and split at every
 * space and every `/` into words, the words yield validated identifiers,
 * and the author-by-identifier count matrix keeps the identifier columns
 * that enough authors mention (three in the ten-most-productive-authors
 * script, one in the all-authors script).
 */
module AuthorMatrix {
  import opened Text
  import Mentions
  import Validation
  import opened YearTable

  /** The characters of the pattern `[ /]`. */
  predicate IsTitleSeparator(c: char)
  {
    c == ' ' || c == '/'
  }

  /**
   * `re.split('[ /]', s[a..])` with the current word starting at `a` and the
   * scan at `i`: a separator ends the word and starts the next one, even
   * when that one is empty.
   */
  function WordsFrom(s: string, a: nat, i: nat): seq<string>
    requires a <= i <= |s|
    decreases |s| - i
  {
    if i == |s| then [s[a..]]
    else if IsTitleSeparator(s[i]) then [s[a..i]] + WordsFrom(s, i + 1, i + 1)
    else WordsFrom(s, a, i + 1)
  }

  /** `re.split('[ /]', s)`. */
  function Words(s: string): seq<string>
  {
    WordsFrom(s, 0, 0)
  }

  /** The separators of `s[i..]`, in order. */
  function SeparatorsFrom(s: string, i: nat): seq<char>
    requires i <= |s|
    decreases |s| - i
  {
    if i == |s| then []
    else (if IsTitleSeparator(s[i]) then [s[i]] else []) + SeparatorsFrom(s, i + 1)
  }

  /** The words put back together, each separator between the two words it separated. */
  function Rebuild(words: seq<string>, seps: seq<char>): string
    requires |words| == |seps| + 1
    decreases |seps|
  {
    if |seps| == 0 then words[0] else words[0] + [seps[0]] + Rebuild(words[1..], seps[1..])
  }

  predicate NoSeparator(w: string)
  {
    forall k :: 0 <= k < |w| ==> !IsTitleSeparator(w[k])
  }

  /**
   * The scan from `(a, i)` yields one word more than the separators after
   * `i`, none of its words holds a separator, and putting them back together
   * with those separators gives `s[a..]`.
   */
  lemma {:induction false} WordsFromRebuild(s: string, a: nat, i: nat)
    requires a <= i <= |s| && NoSeparator(s[a..i])
    decreases |s| - i
    ensures |WordsFrom(s, a, i)| == |SeparatorsFrom(s, i)| + 1
    ensures Rebuild(WordsFrom(s, a, i), SeparatorsFrom(s, i)) == s[a..]
    ensures forall m :: 0 <= m < |WordsFrom(s, a, i)| ==> NoSeparator(WordsFrom(s, a, i)[m])
  {
    if i == |s| {
      assert s[a..] == s[a..i];
    } else if IsTitleSeparator(s[i]) {
      assert NoSeparator(s[i + 1..i + 1]);
      WordsFromRebuild(s, i + 1, i + 1);
      var rest := WordsFrom(s, i + 1, i + 1);
      var words := [s[a..i]] + rest;
      assert WordsFrom(s, a, i) == words;
      assert SeparatorsFrom(s, i) == [s[i]] + SeparatorsFrom(s, i + 1);
      assert words[0] == s[a..i] && words[1..] == rest;
      assert s[a..] == s[a..i] + [s[i]] + s[i + 1..];
      forall m | 0 <= m < |words| ensures NoSeparator(words[m]) {
        if m > 0 {
          assert words[m] == rest[m - 1];
        }
      }
    } else {
      var w := s[a..i + 1];
      forall k | 0 <= k < |w| ensures !IsTitleSeparator(w[k]) {
        if k < i - a {
          assert w[k] == s[a..i][k];
        }
      }
      WordsFromRebuild(s, a, i + 1);
      assert WordsFrom(s, a, i) == WordsFrom(s, a, i + 1);
      assert SeparatorsFrom(s, i) == SeparatorsFrom(s, i + 1);
    }
  }

  /**
   * Splitting a title: one word more than the title has separators, no word
   * holds a space or a `/`, and the words with the separators between them
   * give the title back.
   */
  lemma WordsRebuild(s: string)
    ensures |Words(s)| == |SeparatorsFrom(s, 0)| + 1
    ensures Rebuild(Words(s), SeparatorsFrom(s, 0)) == s
    ensures forall m :: 0 <= m < |Words(s)| ==> NoSeparator(Words(s)[m])
  {
    assert s[0..0] == [];
    WordsFromRebuild(s, 0, 0);
    assert s[0..] == s;
  }

  /** `re.split('[ /]', str(x))` after `str.lower()`. */
  function TitleWords(title: string): (r: seq<string>)
    ensures |r| >= 1
    ensures forall m :: 0 <= m < |r| ==> NoSeparator(r[m])
    ensures forall m, k :: 0 <= m < |r| && 0 <= k < |r[m]| ==> !('A' <= r[m][k] <= 'Z')
  {
    WordsRebuild(Lower(title));
    TitleWordsAreLower(Lower(title));
    Words(Lower(title))
  }

  /** A property every character of `s[a..]` has, every character of every word has. */
  lemma {:induction false} WordsFromKeep(s: string, a: nat, i: nat, p: char -> bool)
    requires a <= i <= |s|
    requires forall j :: a <= j < |s| ==> p(s[j])
    decreases |s| - i
    ensures forall m, k :: 0 <= m < |WordsFrom(s, a, i)| && 0 <= k < |WordsFrom(s, a, i)[m]| ==> p(WordsFrom(s, a, i)[m][k])
  {
    if i == |s| {
      var words := [s[a..]];
      assert WordsFrom(s, a, i) == words;
      forall m, k | 0 <= m < |words| && 0 <= k < |words[m]| ensures p(words[m][k]) {
        assert words[m][k] == s[a + k];
      }
    } else if IsTitleSeparator(s[i]) {
      WordsFromKeep(s, i + 1, i + 1, p);
      var rest := WordsFrom(s, i + 1, i + 1);
      var words := [s[a..i]] + rest;
      assert WordsFrom(s, a, i) == words;
      forall m, k | 0 <= m < |words| && 0 <= k < |words[m]| ensures p(words[m][k]) {
        if m == 0 {
          assert words[m][k] == s[a + k];
        } else {
          assert words[m] == rest[m - 1];
        }
      }
    } else {
      WordsFromKeep(s, a, i + 1, p);
      assert WordsFrom(s, a, i) == WordsFrom(s, a, i + 1);
    }
  }

  /** The words of a lowercased title hold no capital letter. */
  lemma TitleWordsAreLower(lower: string)
    requires forall k :: 0 <= k < |lower| ==> !('A' <= lower[k] <= 'Z')
    ensures forall m, k :: 0 <= m < |Words(lower)| && 0 <= k < |Words(lower)[m]| ==> !('A' <= Words(lower)[m][k] <= 'Z')
  {
    var notCapital := (c: char) => !('A' <= c <= 'Z');
    WordsFromKeep(lower, 0, 0, notCapital);
  }

  /**
   * The identifiers a title yields in the author scripts: its words, the
   * candidates they give, and the longest known prefix of each candidate.
   */
  method TitleIds(title: string, known: set<string>) returns (ids: set<string>)
    ensures ids == Validation.Validated(Mentions.CandidateSet(TitleWords(title)), known)
    ensures |ids| <= |TitleWords(title)|
  {
    var words := Words(Lower(title));
    var mirWords := Mentions.ExtractMirWords(words);
    ids := Validation.ValidateIds(mirWords, known);
  }

  /** A count-matrix entry that `counts_matrix > 0` marks true: a count above zero (a missing entry is not). */
  predicate Positive(c: Cell)
  {
    c.Count? && c.n > 0
  }

  /** The number of authors with a positive count (`(counts_matrix > 0).sum(axis=0)` for one column). */
  function PositiveAuthors(cells: seq<Cell>): (n: nat)
    ensures n <= |cells|
  {
    if |cells| == 0 then 0
    else (if Positive(cells[0]) then 1 else 0) + PositiveAuthors(cells[1..])
  }

  /** One identifier column of the author-by-identifier count matrix. */
  datatype Column = Column(mirna: string, perAuthor: seq<Cell>)

  /** `a` is `b` with some columns left out, the others in their order. */
  predicate IsSubsequence(a: seq<Column>, b: seq<Column>)
    decreases |b|
  {
    if |a| == 0 then true
    else if |b| == 0 then false
    else (a[0] == b[0] && IsSubsequence(a[1..], b[1..])) || IsSubsequence(a, b[1..])
  }

  /**
   * `counts_matrix.loc[:, (counts_matrix > 0).sum(axis=0) >= k]`: the
   * columns with a positive count for at least `k` authors, in their order.
   */
  function KeepStudied(cols: seq<Column>, k: nat): (r: seq<Column>)
    ensures forall c :: c in r <==> c in cols && PositiveAuthors(c.perAuthor) >= k
    ensures IsSubsequence(r, cols)
    ensures |r| <= |cols|
  {
    if |cols| == 0 then []
    else if PositiveAuthors(cols[0].perAuthor) >= k then
      var rest := KeepStudied(cols[1..], k);
      var r := [cols[0]] + rest;
      assert r[1..] == rest;
      r
    else KeepStudied(cols[1..], k)
  }

  /** A column reaches one author exactly when some author has a positive count in it. */
  lemma {:induction false} AtLeastOneAuthor(cells: seq<Cell>)
    ensures PositiveAuthors(cells) >= 1 <==> exists i :: 0 <= i < |cells| && Positive(cells[i])
  {
    if |cells| > 0 {
      AtLeastOneAuthor(cells[1..]);
      if exists i :: 0 <= i < |cells| && Positive(cells[i]) {
        var i :| 0 <= i < |cells| && Positive(cells[i]);
        if i > 0 {
          assert Positive(cells[1..][i - 1]);
        }
      }
      if exists i :: 0 <= i < |cells[1..]| && Positive(cells[1..][i]) {
        var i :| 0 <= i < |cells[1..]| && Positive(cells[1..][i]);
        assert Positive(cells[i + 1]);
      }
    }
  }

  /** The all-authors script keeps exactly the columns some author has a positive count in. */
  lemma KeptByAnyAuthor(cols: seq<Column>, c: Column)
    ensures c in KeepStudied(cols, 1) <==> c in cols && exists i :: 0 <= i < |c.perAuthor| && Positive(c.perAuthor[i])
  {
    AtLeastOneAuthor(c.perAuthor);
  }

  /**
   * A higher threshold keeps fewer columns: what the ten-most-productive
   * script keeps (three authors) the all-authors rule (one) keeps too, in
   * the same order.
   */
  lemma {:induction false} KeepStudiedMonotone(cols: seq<Column>, j: nat, k: nat)
    requires j <= k
    ensures IsSubsequence(KeepStudied(cols, k), KeepStudied(cols, j))
  {
    if |cols| > 0 {
      KeepStudiedMonotone(cols[1..], j, k);
      var a, b := KeepStudied(cols, k), KeepStudied(cols, j);
      var a1, b1 := KeepStudied(cols[1..], k), KeepStudied(cols[1..], j);
      if PositiveAuthors(cols[0].perAuthor) >= k {
        assert a == [cols[0]] + a1 && b == [cols[0]] + b1;
        assert a[1..] == a1 && b[1..] == b1;
      } else if PositiveAuthors(cols[0].perAuthor) >= j {
        assert a == a1 && b == [cols[0]] + b1;
        assert b[1..] == b1;
        SubsequenceOfTail(a1, b);
      } else {
        assert a == a1 && b == b1;
      }
    } else {
      assert KeepStudied(cols, k) == [];
    }
  }

  /** Dropping the head of `b` keeps `a` a subsequence of it. */
  lemma SubsequenceOfTail(a: seq<Column>, b: seq<Column>)
    requires |b| > 0 && IsSubsequence(a, b[1..])
    ensures IsSubsequence(a, b)
  {
  }
}
