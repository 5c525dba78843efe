/**
 * The handful of Python string operations the pipeline relies on, stated over
 * `string` (a sequence of Unicode code points, as a Python `str` is):
 * substring search (`in`, `str.find`), `str.split` with an explicit separator,
 * the dash clean-up `replace('–', '-').replace('—', '-')`, `str.lower` and
 * `str.strip`.
 */
module Text {

  datatype Option<T> = None | Some(value: T)

  const EnDash: char := '\U{2013}'
  const EmDash: char := '\U{2014}'

  /** `sub` occurs in `s` starting at index `i`. */
  predicate OccursAt(s: string, sub: string, i: int)
  {
    0 <= i && i + |sub| <= |s| && s[i..i + |sub|] == sub
  }

  /** The first index at or after `from` where `sub` occurs (Python's `s.find(sub, from)`). */
  function Find(s: string, sub: string, from: nat): (r: Option<nat>)
    decreases |s| - from
    ensures r.Some? ==> from <= r.value && OccursAt(s, sub, r.value)
    ensures r.Some? ==> forall j :: from <= j < r.value ==> !OccursAt(s, sub, j)
    ensures r.None? ==> forall j :: from <= j ==> !OccursAt(s, sub, j)
  {
    if from + |sub| > |s| then None
    else if s[from..from + |sub|] == sub then Some(from)
    else Find(s, sub, from + 1)
  }

  /** Python's `sub in s`. */
  predicate Contains(s: string, sub: string)
    ensures Contains(s, sub) <==> exists i :: OccursAt(s, sub, i)
  {
    Find(s, sub, 0).Some?
  }

  /** An occurrence of `sub` inside the slice `s[a..b]` is an occurrence in `s`. */
  lemma {:induction false} OccursInSlice(s: string, sub: string, a: nat, b: nat, t: int)
    requires a <= b <= |s| && OccursAt(s[a..b], sub, t)
    ensures OccursAt(s, sub, a + t) && a + t + |sub| <= b
  {
    forall k | 0 <= k < |sub| ensures s[a + t + k] == sub[k] {
      assert s[a..b][t + k] == s[a + t + k];
    }
  }

  /** A slice that no occurrence starts in and ends within holds no occurrence. */
  lemma {:induction false} NoneInSlice(s: string, sub: string, a: nat, b: nat)
    requires a <= b <= |s|
    requires forall j :: a <= j && j + |sub| <= b ==> !OccursAt(s, sub, j)
    ensures !Contains(s[a..b], sub)
  {
    if Contains(s[a..b], sub) {
      var t :| OccursAt(s[a..b], sub, t);
      OccursInSlice(s, sub, a, b, t);
      assert false;
    }
  }

  /** A prefix of a string without `sub` holds no `sub` either. */
  lemma NoneInPrefix(s: string, p: string, sub: string)
    requires p <= s && !Contains(s, sub)
    ensures !Contains(p, sub)
  {
    if Contains(p, sub) {
      var t :| OccursAt(p, sub, t);
      assert s[..|p|] == p;
      OccursInSlice(s, sub, 0, |p|, t);
      assert false;
    }
  }

  /** A suffix of a string without `sub` holds no `sub` either. */
  lemma NoneInSuffix(s: string, k: nat, sub: string)
    requires k <= |s| && !Contains(s, sub)
    ensures !Contains(s[k..], sub)
  {
    if Contains(s[k..], sub) {
      var t :| OccursAt(s[k..], sub, t);
      assert s[k..|s|] == s[k..];
      OccursInSlice(s, sub, k, |s|, t);
      assert false;
    }
  }

  /** Python's `s.split(sep)[0]`: the text before the first occurrence of `sep`, or all of `s`. */
  function Before(s: string, sep: string): (r: string)
    ensures r <= s
    ensures !Contains(s, sep) ==> r == s
    ensures Contains(s, sep) ==> OccursAt(s, sep, |r|)
    ensures forall j :: 0 <= j < |r| ==> !OccursAt(s, sep, j)
  {
    match Find(s, sep, 0)
    case None => s
    case Some(i) => s[..i]
  }

  /** The text before the first separator holds no separator. */
  lemma BeforeHasNoSeparator(s: string, sep: string)
    requires |sep| > 0
    ensures !Contains(Before(s, sep), sep)
  {
    var r := Before(s, sep);
    if Contains(r, sep) {
      var t :| OccursAt(r, sep, t);
      OccursInSlice(s, sep, 0, |r|, t);
      assert false;
    }
  }

  /** A suffix of `s` is its three consecutive slices put together. */
  lemma SliceAround<T>(s: seq<T>, a: nat, i: nat, j: nat)
    requires a <= i <= j <= |s|
    ensures s[a..] == s[a..i] + s[i..j] + s[j..]
  {
  }

  /** The pieces `sep` separates, the inverse of `Join` (Python's `s.split(sep)`). */
  function Join(pieces: seq<string>, sep: string): string
    decreases |pieces|
  {
    if |pieces| == 0 then ""
    else if |pieces| == 1 then pieces[0]
    else pieces[0] + sep + Join(pieces[1..], sep)
  }

  /** The pieces of `s[a..]` between the occurrences of `sep`, found left to right. */
  function SplitFrom(s: string, sep: string, a: nat): (r: seq<string>)
    requires |sep| > 0 && a <= |s|
    decreases |s| - a
    ensures |r| >= 1
  {
    match Find(s, sep, a)
    case None => [s[a..]]
    case Some(i) => [s[a..i]] + SplitFrom(s, sep, i + |sep|)
  }

  /** The pieces joined by `sep` give `s[a..]` back. */
  lemma {:induction false} SplitFromJoins(s: string, sep: string, a: nat)
    requires |sep| > 0 && a <= |s|
    decreases |s| - a
    ensures Join(SplitFrom(s, sep, a), sep) == s[a..]
  {
    match Find(s, sep, a)
    case None =>
    case Some(i) =>
      SplitFromJoins(s, sep, i + |sep|);
      var rest := SplitFrom(s, sep, i + |sep|);
      var r := [s[a..i]] + rest;
      assert SplitFrom(s, sep, a) == r;
      assert Join(r, sep) == s[a..i] + sep + Join(rest, sep) by {
        assert r[0] == s[a..i] && r[1..] == rest;
      }
      assert s[a..] == s[a..i] + sep + s[i + |sep|..] by {
        SliceAround(s, a, i, i + |sep|);
      }
  }

  /** No piece holds `sep`. */
  lemma {:induction false} SplitFromSeparated(s: string, sep: string, a: nat)
    requires |sep| > 0 && a <= |s|
    decreases |s| - a
    ensures forall k :: 0 <= k < |SplitFrom(s, sep, a)| ==> !Contains(SplitFrom(s, sep, a)[k], sep)
  {
    match Find(s, sep, a)
    case None =>
      NoneInSlice(s, sep, a, |s|);
      assert s[a..|s|] == s[a..];
    case Some(i) =>
      NoneInSlice(s, sep, a, i);
      SplitFromSeparated(s, sep, i + |sep|);
      var rest := SplitFrom(s, sep, i + |sep|);
      var r := [s[a..i]] + rest;
      assert SplitFrom(s, sep, a) == r;
      forall k | 0 <= k < |r| ensures !Contains(r[k], sep) {
        if k == 0 {
          assert r[k] == s[a..i];
        } else {
          assert r[k] == rest[k - 1];
        }
      }
  }

  /** A one-character string occurs in `s` exactly when that character does. */
  lemma ContainsChar(s: string, c: char)
    ensures Contains(s, [c]) <==> c in s
  {
    if c in s {
      var i :| 0 <= i < |s| && s[i] == c;
      assert s[i..i + 1] == [c];
      assert OccursAt(s, [c], i);
    }
    if Contains(s, [c]) {
      var i :| OccursAt(s, [c], i);
      assert s[i] == s[i..i + 1][0];
    }
  }

  /**
   * Python's `s.split(sep)` for a non-empty separator: at least one piece, no
   * piece holds `sep`, the pieces joined by `sep` give `s` back, and the first
   * piece is the text before the first occurrence.
   */
  function Split(s: string, sep: string): (r: seq<string>)
    requires |sep| > 0
    ensures |r| >= 1 && Join(r, sep) == s
    ensures forall k :: 0 <= k < |r| ==> !Contains(r[k], sep)
    ensures r[0] == Before(s, sep)
    ensures Contains(s, sep) <==> |r| >= 2
  {
    SplitFromJoins(s, sep, 0);
    SplitFromSeparated(s, sep, 0);
    SplitFrom(s, sep, 0)
  }

  /** A piece without a one-character separator, found at `a`, has no occurrence starting inside it. */
  lemma SeparatedPiece(s: string, sep: string, a: nat, p: string)
    requires |sep| == 1 && a + |p| <= |s| && s[a..a + |p|] == p && !Contains(p, sep)
    ensures forall j :: a <= j < a + |p| ==> !OccursAt(s, sep, j)
  {
    forall j | a <= j < a + |p| ensures !OccursAt(s, sep, j) {
      if OccursAt(s, sep, j) {
        assert s[a..a + |p|][j - a] == s[j];
        assert OccursAt(p, sep, j - a);
        assert false;
      }
    }
  }

  /** Where `s[a..]` is a piece, a one-character separator and a tail, each sits where it should. */
  lemma PieceThenSeparator(s: string, sep: string, a: nat, p: string, tail: string)
    requires |sep| == 1 && a <= |s| && s[a..] == p + sep + tail
    ensures a + |p| < |s| && s[a..a + |p|] == p
    ensures OccursAt(s, sep, a + |p|) && s[a + |p| + 1..] == tail
  {
    var i := a + |p|;
    assert s[a..][..|p|] == p;
    assert s[a..i] == s[a..][..|p|];
    assert s[i..i + 1] == s[a..][|p|..|p| + 1] == sep;
    assert s[i + 1..] == s[a..][|p| + 1..];
  }

  /**
   * Splitting pieces joined by a one-character separator that none of them
   * holds gives the pieces back, starting the split at offset `a`.
   */
  lemma {:induction false} SplitFromOfJoin(s: string, sep: string, a: nat, pieces: seq<string>)
    requires |sep| == 1 && a <= |s| && |pieces| >= 1
    requires s[a..] == Join(pieces, sep)
    requires forall k :: 0 <= k < |pieces| ==> !Contains(pieces[k], sep)
    decreases |pieces|
    ensures SplitFrom(s, sep, a) == pieces
  {
    var p := pieces[0];
    var i := a + |p|;
    if |pieces| == 1 {
      assert s[a..a + |p|] == p;
      SeparatedPiece(s, sep, a, p);
      assert Find(s, sep, a) == None;
      assert SplitFrom(s, sep, a) == [s[a..]];
    } else {
      var rest := pieces[1..];
      PieceThenSeparator(s, sep, a, p, Join(rest, sep));
      SeparatedPiece(s, sep, a, p);
      assert Find(s, sep, a) == Some(i);
      assert SplitFrom(s, sep, a) == [s[a..i]] + SplitFrom(s, sep, i + |sep|);
      SplitFromOfJoin(s, sep, i + 1, rest);
      assert pieces == [p] + rest;
    }
  }

  /** Split is the inverse of Join for a one-character separator that no piece holds. */
  lemma SplitOfJoin(pieces: seq<string>, sep: string)
    requires |sep| == 1 && |pieces| >= 1
    requires forall k :: 0 <= k < |pieces| ==> !Contains(pieces[k], sep)
    ensures Split(Join(pieces, sep), sep) == pieces
  {
    var s := Join(pieces, sep);
    assert s[0..] == s;
    SplitFromOfJoin(s, sep, 0, pieces);
  }

  /**
   * The first two pieces of a split, with their separator, start the string,
   * and the second piece runs to the end or to the next separator.
   */
  lemma {:induction false} JoinStartsWithTwoPieces(pieces: seq<string>, sep: string)
    requires |pieces| >= 2
    ensures pieces[0] + sep + pieces[1] <= Join(pieces, sep)
    ensures var s, k := Join(pieces, sep), |pieces[0]| + |sep| + |pieces[1]|;
            s == pieces[0] + sep + pieces[1] || OccursAt(s, sep, k)
  {
    var tail := Join(pieces[1..], sep);
    assert pieces[1..][0] == pieces[1];
    if |pieces| == 2 {
      assert tail == pieces[1];
    } else {
      var rest := Join(pieces[2..], sep);
      assert tail == pieces[1] + sep + rest by {
        assert pieces[1..][1..] == pieces[2..];
      }
      var s, k := Join(pieces, sep), |pieces[0]| + |sep| + |pieces[1]|;
      assert s == (pieces[0] + sep + pieces[1]) + sep + rest;
      assert s[k..k + |sep|] == sep;
    }
  }

  /** Python's `replace('–', '-').replace('—', '-')`. */
  function NormalizeDashes(s: string): (r: string)
    ensures |r| == |s|
    ensures forall i :: 0 <= i < |s| ==> r[i] == if s[i] == EnDash || s[i] == EmDash then '-' else s[i]
    ensures EnDash !in r && EmDash !in r
  {
    seq(|s|, i requires 0 <= i < |s| => if s[i] == EnDash || s[i] == EmDash then '-' else s[i])
  }

  function LowerChar(c: char): char
  {
    if 'A' <= c <= 'Z' then (c as int + 32) as char else c
  }

  /** `str.lower()`, restricted to the ASCII letters. */
  function Lower(s: string): (r: string)
    ensures |r| == |s|
    ensures forall i :: 0 <= i < |s| ==> r[i] == LowerChar(s[i])
    ensures forall i :: 0 <= i < |r| ==> !('A' <= r[i] <= 'Z')
  {
    seq(|s|, i requires 0 <= i < |s| => LowerChar(s[i]))
  }

  /** The characters for which Python's `str.isspace()` holds. */
  predicate IsSpace(c: char)
  {
    c == ' ' || '\t' <= c <= '\r' || '\U{1C}' <= c <= '\U{1F}' || c == '\U{85}' || c == '\U{A0}'
    || c == '\U{1680}' || '\U{2000}' <= c <= '\U{200A}' || c == '\U{2028}' || c == '\U{2029}'
    || c == '\U{202F}' || c == '\U{205F}' || c == '\U{3000}'
  }

  /** The first index at or after `i` that does not hold whitespace. */
  function SkipSpaceForward(s: string, i: nat): (n: nat)
    requires i <= |s|
    decreases |s| - i
    ensures i <= n <= |s|
    ensures forall k :: i <= k < n ==> IsSpace(s[k])
    ensures n < |s| ==> !IsSpace(s[n])
  {
    if i < |s| && IsSpace(s[i]) then SkipSpaceForward(s, i + 1) else i
  }

  /** The end of `s[lo..j]` once its trailing whitespace is dropped. */
  function SkipSpaceBackward(s: string, lo: nat, j: nat): (n: nat)
    requires lo <= j <= |s|
    decreases j
    ensures lo <= n <= j
    ensures forall k :: n <= k < j ==> IsSpace(s[k])
    ensures n > lo ==> !IsSpace(s[n - 1])
  {
    if j > lo && IsSpace(s[j - 1]) then SkipSpaceBackward(s, lo, j - 1) else j
  }

  /**
   * Python's `s.strip()`: the slice `s[a..b]` with only whitespace outside it,
   * starting and ending with a non-space when it is not empty.
   */
  function Strip(s: string): (r: string)
    ensures exists a :: WhitespaceAround(s, r, a)
    ensures |r| > 0 ==> !IsSpace(r[0]) && !IsSpace(r[|r| - 1])
  {
    var a := SkipSpaceForward(s, 0);
    var b := SkipSpaceBackward(s, a, |s|);
    assert WhitespaceAround(s, s[a..b], a);
    s[a..b]
  }

  /** A string without whitespace at either end is its own strip. */
  lemma StripKeepsTrimmed(s: string)
    requires |s| > 0 && !IsSpace(s[0]) && !IsSpace(s[|s| - 1])
    ensures Strip(s) == s
  {
    var a :| WhitespaceAround(s, Strip(s), a);
    assert a == 0;
    assert |Strip(s)| == |s|;
  }

  /** `r` is `s[a..a + |r|]`, with only whitespace outside it. */
  predicate WhitespaceAround(s: string, r: string, a: int)
  {
    0 <= a && a + |r| <= |s| && r == s[a..a + |r|]
    && (forall k :: 0 <= k < a ==> IsSpace(s[k]))
    && (forall k :: a + |r| <= k < |s| ==> IsSpace(s[k]))
  }

  /** The union of `f(w)` over the strings `w` of `text`, gathered one string at a time. */
  ghost function Gather(text: seq<string>, f: string -> set<string>): set<string>
    decreases |text|
  {
    if |text| == 0 then {} else Gather(text[..|text| - 1], f) + f(text[|text| - 1])
  }

  /** A string is gathered exactly when some member of `text` contributes it. */
  lemma {:induction false} GatherMembers(text: seq<string>, f: string -> set<string>, c: string)
    ensures c in Gather(text, f) <==> exists w :: w in text && c in f(w)
    decreases |text|
  {
    if |text| > 0 {
      var init, last := text[..|text| - 1], text[|text| - 1];
      GatherMembers(init, f, c);
      assert text == init + [last];
      if c in Gather(text, f) && c !in f(last) {
        var w :| w in init && c in f(w);
        assert w in text;
      }
      if exists w :: w in text && c in f(w) {
        var w :| w in text && c in f(w);
        if w != last {
          var i :| 0 <= i < |text| && text[i] == w;
          assert init[i] == w;
        }
      }
    }
  }

  /** Gathering one more string adds what it contributes. */
  lemma GatherStep(text: seq<string>, f: string -> set<string>, i: nat)
    requires i < |text|
    ensures Gather(text[..i + 1], f) == Gather(text[..i], f) + f(text[i])
  {
    assert text[..i + 1][..i] == text[..i];
  }
}
