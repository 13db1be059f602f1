/**
 * The JavaScript string operations the URL templating is built from:
 * `String.prototype.split` on a one-character separator, `Array.prototype.join`,
 * and `String.prototype.replace` with a string pattern (first occurrence only).
 */
module Text {
  import opened Wrappers

  /** Number of times `c` occurs in `s`. */
  function Count(s: string, c: char): (n: nat)
    ensures n <= |s|
    ensures n == 0 <==> c !in s
  {
    if s == [] then 0 else (if s[0] == c then 1 else 0) + Count(s[1..], c)
  }

  /**
   * `s.split(sep)`: the pieces of `s` between the occurrences of `sep`,
   * empty pieces included, so that `n` separators give `n + 1` pieces
   * (and the empty string gives one empty piece).
   */
  function Split(s: string, sep: char): (parts: seq<string>)
    ensures |parts| == Count(s, sep) + 1
    ensures forall i :: 0 <= i < |parts| ==> sep !in parts[i]
    decreases |s|
  {
    if s == [] then [[]]
    else
      var rest := Split(s[1..], sep);
      if s[0] == sep then [[]] + rest
      else [[s[0]] + rest[0]] + rest[1..]
  }

  /** `parts.join(sep)`. */
  function Join(parts: seq<string>, sep: string): (r: string)
    ensures |parts| > 0 ==> parts[0] <= r
  {
    if parts == [] then []
    else if |parts| == 1 then parts[0]
    else parts[0] + sep + Join(parts[1..], sep)
  }

  /** A join of two or more pieces is the first piece, the separator and the join of the others. */
  lemma JoinFront(parts: seq<string>, sep: string)
    requires |parts| >= 2
    ensures Join(parts, sep) == parts[0] + (sep + Join(parts[1..], sep))
  {
  }

  /** Joining the pieces of a split with the separator gives back the string. */
  lemma {:induction false} JoinSplit(s: string, sep: char)
    ensures Join(Split(s, sep), [sep]) == s
    decreases |s|
  {
    if s != [] {
      var rest := Split(s[1..], sep);
      JoinSplit(s[1..], sep);
      if s[0] != sep && |rest| > 1 {
        assert Join(rest, [sep]) == rest[0] + [sep] + Join(rest[1..], [sep]);
        assert Split(s, sep)[1..] == rest[1..];
      }
    }
  }

  /** A string without the separator is a single piece. */
  lemma {:induction false} SplitWithoutSeparator(s: string, sep: char)
    requires sep !in s
    ensures Split(s, sep) == [s]
    decreases |s|
  {
    if s != [] {
      assert sep !in s[1..] by {
        forall c | c in s[1..] ensures c != sep { }
      }
      SplitWithoutSeparator(s[1..], sep);
      assert [s[0]] + s[1..] == s;
    }
  }

  /** Splitting at a separator that is joined in splits the two sides apart. */
  lemma {:induction false} SplitAppend(a: string, b: string, sep: char)
    ensures Split(a + [sep] + b, sep) == Split(a, sep) + Split(b, sep)
    decreases |a|
  {
    var s := a + [sep] + b;
    if a == [] {
      assert s[1..] == b;
    } else {
      assert s[0] == a[0];
      assert s[1..] == a[1..] + [sep] + b;
      SplitAppend(a[1..], b, sep);
    }
  }

  /** Splitting a join of separator-free pieces gives the pieces back. */
  lemma {:induction false} SplitJoin(parts: seq<string>, sep: char)
    requires |parts| >= 1
    requires forall i :: 0 <= i < |parts| ==> sep !in parts[i]
    ensures Split(Join(parts, [sep]), sep) == parts
    decreases |parts|
  {
    SplitWithoutSeparator(parts[0], sep);
    if |parts| > 1 {
      SplitJoin(parts[1..], sep);
      SplitAppend(parts[0], Join(parts[1..], [sep]), sep);
      assert [parts[0]] + parts[1..] == parts;
    }
  }

  /** `pat` occurs in `s` starting at index `i`. */
  predicate Occurs(s: string, pat: string, i: int)
  {
    0 <= i && i + |pat| <= |s| && s[i..i + |pat|] == pat
  }

  /**
   * The first index from `from` on at which `pat` occurs in `s`, scanning
   * left to right as `s.indexOf(pat, from)` does.
   */
  function FirstIndexFrom(s: string, pat: string, from: nat): (r: Option<nat>)
    ensures r.Some? ==> from <= r.value && Occurs(s, pat, r.value)
    decreases |s| - from
  {
    if from + |pat| > |s| then None
    else if Occurs(s, pat, from) then Some(from)
    else FirstIndexFrom(s, pat, from + 1)
  }

  /** `s.indexOf(pat)`: the index of the first occurrence of `pat` in `s`, if any. */
  function FirstIndex(s: string, pat: string): (r: Option<nat>)
    ensures r.Some? ==> Occurs(s, pat, r.value)
  {
    FirstIndexFrom(s, pat, 0)
  }

  /**
   * The scan finds an occurrence with none between `from` and it, and finds
   * nothing only when the pattern does not occur from `from` on.
   */
  lemma {:induction false} FirstIndexFromSpec(s: string, pat: string, from: nat)
    ensures FirstIndexFrom(s, pat, from).Some? ==>
              forall j :: from <= j < FirstIndexFrom(s, pat, from).value ==> !Occurs(s, pat, j)
    ensures FirstIndexFrom(s, pat, from).None? <==> forall j :: from <= j ==> !Occurs(s, pat, j)
    decreases |s| - from
  {
    if from + |pat| <= |s| && !Occurs(s, pat, from) {
      FirstIndexFromSpec(s, pat, from + 1);
    }
  }

  /**
   * `FirstIndex` finds an occurrence with none before it, and finds nothing
   * only when the pattern does not occur at all.
   */
  lemma FirstIndexSpec(s: string, pat: string)
    ensures FirstIndex(s, pat).Some? ==> forall j :: 0 <= j < FirstIndex(s, pat).value ==> !Occurs(s, pat, j)
    ensures FirstIndex(s, pat).None? <==> forall j :: !Occurs(s, pat, j)
  {
    FirstIndexFromSpec(s, pat, 0);
  }

  /** The index of the first occurrence is determined by being one with none before it. */
  lemma FirstIndexIs(s: string, pat: string, i: int)
    requires Occurs(s, pat, i)
    requires forall j :: 0 <= j < i ==> !Occurs(s, pat, j)
    ensures FirstIndex(s, pat) == Some(i)
  {
    FirstIndexSpec(s, pat);
  }

  /**
   * `s.replace(pat, v)` for a string pattern: the first occurrence of `pat`
   * in `s`, if there is one, becomes `v`. JavaScript expands `$` patterns in
   * the replacement, so the literal reading here is that of a replacement
   * without `$`.
   */
  function ReplaceFirst(s: string, pat: string, v: string): (r: string)
    requires '$' !in v
    ensures r == s || |r| + |pat| == |s| + |v|
  {
    match FirstIndex(s, pat)
    case None => s
    case Some(i) => s[..i] + v + s[i + |pat|..]
  }

  /**
   * What `ReplaceFirst` does, stated by occurrences: nothing when the pattern
   * does not occur; otherwise exactly the first occurrence is replaced and
   * the text before and after it is kept.
   */
  lemma ReplaceFirstSpec(s: string, pat: string, v: string)
    requires '$' !in v
    ensures (forall j :: !Occurs(s, pat, j)) ==> ReplaceFirst(s, pat, v) == s
    ensures forall i :: Occurs(s, pat, i) && (forall j :: 0 <= j < i ==> !Occurs(s, pat, j)) ==>
              ReplaceFirst(s, pat, v) == s[..i] + v + s[i + |pat|..]
  {
    FirstIndexSpec(s, pat);
    forall i | Occurs(s, pat, i) && (forall j :: 0 <= j < i ==> !Occurs(s, pat, j))
      ensures ReplaceFirst(s, pat, v) == s[..i] + v + s[i + |pat|..]
    {
      FirstIndexIs(s, pat, i);
    }
  }

  lemma {:induction false} CountAppend(a: string, b: string, c: char)
    ensures Count(a + b, c) == Count(a, c) + Count(b, c)
  {
    if a == [] {
      assert a + b == b;
    } else {
      assert (a + b)[0] == a[0] && (a + b)[1..] == a[1..] + b;
      CountAppend(a[1..], b, c);
    }
  }

  lemma CountOccurrence(s: string, pat: string, i: int, c: char)
    requires Occurs(s, pat, i)
    ensures Count(s, c) == Count(s[..i], c) + Count(pat, c) + Count(s[i + |pat|..], c)
  {
    assert s == s[..i] + pat + s[i + |pat|..];
    CountAppend(s[..i] + pat, s[i + |pat|..], c);
    CountAppend(s[..i], pat, c);
  }

  /**
   * Replacing a pattern by a value that hold the same number of `c` leaves
   * the number of `c` in the string unchanged.
   */
  lemma ReplaceFirstKeepsCount(s: string, pat: string, v: string, c: char)
    requires '$' !in v
    requires Count(v, c) == Count(pat, c)
    ensures Count(ReplaceFirst(s, pat, v), c) == Count(s, c)
  {
    var found := FirstIndex(s, pat);
    if found.Some? {
      var i := found.value;
      var before, after := s[..i], s[i + |pat|..];
      assert ReplaceFirst(s, pat, v) == before + v + after;
      CountOccurrence(s, pat, i, c);
      CountAppend(before + v, after, c);
      CountAppend(before, v, c);
    }
  }

  /** A pattern at the very start of the string is the one replaced. */
  lemma ReplaceFirstAtStart(pat: string, t: string, v: string)
    requires '$' !in v
    ensures ReplaceFirst(pat + t, pat, v) == v + t
  {
    assert (pat + t)[0..|pat|] == pat;
    FirstIndexIs(pat + t, pat, 0);
    assert (pat + t)[|pat|..] == t;
  }

  /** No occurrence starts inside a prefix that lacks the pattern's first character. */
  lemma NoOccurrenceInPrefix(p: string, q: string, pat: string, j: int)
    requires |pat| > 0 && pat[0] !in p
    requires 0 <= j < |p|
    ensures !Occurs(p + q, pat, j)
  {
    assert (p + q)[j] == p[j];
  }

  /** Occurrences past a prefix are those of the rest, shifted by its length. */
  lemma OccursAfterPrefix(p: string, q: string, pat: string, j: int)
    requires j >= |p|
    ensures Occurs(p + q, pat, j) <==> Occurs(q, pat, j - |p|)
  {
    if j + |pat| <= |p + q| {
      var a, b := (p + q)[j..j + |pat|], q[j - |p|..j - |p| + |pat|];
      forall k | 0 <= k < |pat| ensures a[k] == b[k] { }
      assert a == b;
    }
  }

  /** When `q` lacks the pattern and `p` lacks its first character, `p + q` lacks the pattern. */
  lemma NoOccurrenceAcrossPrefix(p: string, q: string, pat: string)
    requires |pat| > 0 && pat[0] !in p
    requires forall j :: !Occurs(q, pat, j)
    ensures forall j :: !Occurs(p + q, pat, j)
  {
    forall j ensures !Occurs(p + q, pat, j) {
      if j >= |p| {
        OccursAfterPrefix(p, q, pat, j);
      } else if j >= 0 {
        NoOccurrenceInPrefix(p, q, pat, j);
      }
    }
  }

  /** The first occurrence in `p + q`, when `p` lacks the pattern's first character, is the first one in `q`, shifted. */
  lemma FirstIndexAfterPrefix(p: string, q: string, pat: string, i: nat)
    requires |pat| > 0 && pat[0] !in p
    requires FirstIndex(q, pat) == Some(i)
    ensures FirstIndex(p + q, pat) == Some(i + |p|)
  {
    OccursAfterPrefix(p, q, pat, i + |p|);
    FirstIndexSpec(q, pat);
    NoOccurrenceBeforeShifted(p, q, pat, i);
    FirstIndexIs(p + q, pat, i + |p|);
  }

  lemma NoOccurrenceBeforeShifted(p: string, q: string, pat: string, i: nat)
    requires |pat| > 0 && pat[0] !in p
    requires forall j :: 0 <= j < i ==> !Occurs(q, pat, j)
    ensures forall j :: 0 <= j < i + |p| ==> !Occurs(p + q, pat, j)
  {
    forall j | 0 <= j < i + |p| ensures !Occurs(p + q, pat, j) {
      if j >= |p| {
        OccursAfterPrefix(p, q, pat, j);
      } else {
        NoOccurrenceInPrefix(p, q, pat, j);
      }
    }
  }

  /**
   * A prefix that lacks the pattern's first character cannot hold the first
   * occurrence, nor overlap it: replacing leaves the prefix alone.
   */
  lemma ReplaceFirstSkipsPrefix(p: string, q: string, pat: string, v: string)
    requires '$' !in v
    requires |pat| > 0 && pat[0] !in p
    ensures ReplaceFirst(p + q, pat, v) == p + ReplaceFirst(q, pat, v)
  {
    match FirstIndex(q, pat)
    case None =>
      FirstIndexSpec(q, pat);
      NoOccurrenceAcrossPrefix(p, q, pat);
      FirstIndexSpec(p + q, pat);
    case Some(i) =>
      FirstIndexAfterPrefix(p, q, pat, i);
      ReplaceAtShifted(p, q, pat, v, i);
  }

  lemma ReplaceAtShifted(p: string, q: string, pat: string, v: string, i: nat)
    requires '$' !in v
    requires FirstIndex(q, pat) == Some(i)
    requires FirstIndex(p + q, pat) == Some(i + |p|)
    ensures ReplaceFirst(p + q, pat, v) == p + ReplaceFirst(q, pat, v)
  {
    var before, after := q[..i], q[i + |pat|..];
    ReplaceAt(q, pat, v, i);
    ReplaceAt(p + q, pat, v, i + |p|);
    SlicesOfShifted(p, q, i, |pat|);
    Regroup(p, before, v, after);
  }

  lemma Regroup(p: string, b: string, v: string, a: string)
    ensures (p + b) + v + a == p + (b + v + a)
  {
  }

  /** Where the first occurrence is known, `replace` cuts around it. */
  lemma ReplaceAt(s: string, pat: string, v: string, k: nat)
    requires '$' !in v
    requires FirstIndex(s, pat) == Some(k)
    ensures k + |pat| <= |s|
    ensures ReplaceFirst(s, pat, v) == s[..k] + v + s[k + |pat|..]
  {
  }

  /** Cutting `p + q` around a window shifted by `|p|` cuts `q` around the window. */
  lemma SlicesOfShifted(p: string, q: string, i: nat, m: nat)
    requires i + m <= |q|
    ensures (p + q)[..i + |p|] == p + q[..i]
    ensures (p + q)[i + |p| + m..] == q[i + m..]
  {
  }
}
