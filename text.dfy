/**
 * The handful of Python `str` operations the codemod relies on, stated over
 * `string` (= `seq<char>`): the substring test `sub in s`,
 * `s.replace(pat, rep)`, and splitting on / joining with the newline
 * character.
 */
module Text {

  /** `sub` occurs in `s` starting at index `i`. */
  predicate OccursAt(s: string, sub: string, i: int) {
    0 <= i && i + |sub| <= |s| && s[i..i + |sub|] == sub
  }

  /** Python's `sub in s`. */
  predicate Contains(s: string, sub: string) {
    exists i | 0 <= i <= |s| - |sub| :: OccursAt(s, sub, i)
  }

  /** An occurrence in a suffix is an occurrence in the whole string, shifted. */
  lemma OccursAtSuffix(s: string, sub: string, k: nat, i: int)
    requires k <= |s|
    ensures OccursAt(s[k..], sub, i) <==> (0 <= i && OccursAt(s, sub, k + i))
  {
  }

  /** An occurrence in `x` survives prepending `p`. */
  lemma ContainsAfterPrepend(p: string, x: string, sub: string)
    requires Contains(x, sub)
    ensures Contains(p + x, sub)
  {
    var i :| 0 <= i <= |x| - |sub| && OccursAt(x, sub, i);
    assert (p + x)[|p| + i..|p| + i + |sub|] == x[i..i + |sub|];
    assert OccursAt(p + x, sub, |p| + i);
  }

  /** An occurrence in `x` survives appending `q`. */
  lemma ContainsBeforeAppend(x: string, q: string, sub: string)
    requires Contains(x, sub)
    ensures Contains(x + q, sub)
  {
    var i :| 0 <= i <= |x| - |sub| && OccursAt(x, sub, i);
    assert (x + q)[i..i + |sub|] == x[i..i + |sub|];
    assert OccursAt(x + q, sub, i);
  }

  /**
   * Python's `s.replace(pat, rep)`: every occurrence of `pat`, found left to
   * right and without overlap, is replaced by `rep`.
   */
  function ReplaceAll(s: string, pat: string, rep: string): string
    requires pat != []
    decreases |s|
  {
    if s == [] then []
    else if OccursAt(s, pat, 0) then rep + ReplaceAll(s[|pat|..], pat, rep)
    else [s[0]] + ReplaceAll(s[1..], pat, rep)
  }

  /** Absence from `s` means absence from `s[1..]`. */
  lemma NotContainedInTail(s: string, pat: string)
    requires s != []
    ensures !Contains(s, pat) ==> !Contains(s[1..], pat)
  {
    if Contains(s[1..], pat) {
      var i :| 0 <= i <= |s[1..]| - |pat| && OccursAt(s[1..], pat, i);
      OccursAtSuffix(s, pat, 1, i);
    }
  }

  /** A text in which `pat` does not occur comes back unchanged from `ReplaceAll`. */
  lemma {:induction false} ReplaceAllAbsent(s: string, pat: string, rep: string)
    requires pat != [] && !Contains(s, pat)
    ensures ReplaceAll(s, pat, rep) == s
    decreases |s|
  {
    if s != [] {
      assert !OccursAt(s, pat, 0);
      NotContainedInTail(s, pat);
      ReplaceAllAbsent(s[1..], pat, rep);
      assert [s[0]] + s[1..] == s;
    }
  }

  /**
   * At the first occurrence `m` of the pattern, the text before it is
   * copied, the occurrence becomes `rep`, and replacing resumes right after
   * it; with `ReplaceAllAbsent` this says that every occurrence is replaced.
   */
  lemma {:induction false} ReplaceAllAtFirst(s: string, pat: string, rep: string, m: nat)
    requires pat != [] && OccursAt(s, pat, m)
    requires forall j :: 0 <= j < m ==> !OccursAt(s, pat, j)
    ensures ReplaceAll(s, pat, rep) == s[..m] + rep + ReplaceAll(s[m + |pat|..], pat, rep)
    decreases m
  {
    if m == 0 {
      assert s[..0] == [];
    } else {
      assert !OccursAt(s, pat, 0);
      FirstOccurrenceInTail(s, pat, m);
      ReplaceAllAtFirst(s[1..], pat, rep, m - 1);
      SlicesAfterFirst(s, m, m + |pat|, rep, ReplaceAll(s[m + |pat|..], pat, rep));
    }
  }

  /** The first occurrence at `m > 0` is the first occurrence at `m - 1` of `s[1..]`. */
  lemma FirstOccurrenceInTail(s: string, pat: string, m: nat)
    requires 0 < m && OccursAt(s, pat, m)
    requires forall j :: 0 <= j < m ==> !OccursAt(s, pat, j)
    ensures OccursAt(s[1..], pat, m - 1)
    ensures forall j :: 0 <= j < m - 1 ==> !OccursAt(s[1..], pat, j)
  {
    OccursAtSuffix(s, pat, 1, m - 1);
    forall j | 0 <= j < m - 1 ensures !OccursAt(s[1..], pat, j) {
      OccursAtSuffix(s, pat, 1, j);
    }
  }

  /** Sequence bookkeeping for `ReplaceAllAtFirst`. */
  lemma SlicesAfterFirst(s: string, m: nat, k: nat, rep: string, rest: string)
    requires 0 < m <= k <= |s|
    ensures s[1..][k - 1..] == s[k..]
    ensures [s[0]] + (s[1..][..m - 1] + rep + rest) == s[..m] + rep + rest
  {
  }

  /** Replacing an occurring pattern leaves the replacement text in the result. */
  lemma {:induction false} ReplaceAllIntroduces(s: string, pat: string, rep: string)
    requires pat != [] && Contains(s, pat)
    ensures Contains(ReplaceAll(s, pat, rep), rep)
    decreases |s|
  {
    if OccursAt(s, pat, 0) {
      assert OccursAt(rep + ReplaceAll(s[|pat|..], pat, rep), rep, 0);
    } else {
      var i :| 0 <= i <= |s| - |pat| && OccursAt(s, pat, i);
      assert i != 0;
      OccursAtSuffix(s, pat, 1, i - 1);
      ReplaceAllIntroduces(s[1..], pat, rep);
      ContainsAfterPrepend([s[0]], ReplaceAll(s[1..], pat, rep), rep);
    }
  }

  /** A replacement free of `c` cannot bring `c` into a text free of `c`. */
  lemma {:induction false} ReplaceAllAvoids(s: string, pat: string, rep: string, c: char)
    requires pat != [] && c !in s && c !in rep
    ensures c !in ReplaceAll(s, pat, rep)
    decreases |s|
  {
    if s == [] {
    } else if OccursAt(s, pat, 0) {
      ReplaceAllAvoids(s[|pat|..], pat, rep, c);
    } else {
      ReplaceAllAvoids(s[1..], pat, rep, c);
    }
  }

  /**
   * Python's `s.split('\n')`: the pieces between newlines, in order. There
   * is always at least one piece (the empty text gives `[""]`), and no piece
   * holds a newline.
   */
  function Split(s: string): (lines: seq<string>)
    ensures |lines| >= 1
    ensures forall i :: 0 <= i < |lines| ==> '\n' !in lines[i]
    decreases |s|
  {
    if s == [] then [[]]
    else
      var rest := Split(s[1..]);
      if s[0] == '\n' then [[]] + rest
      else [[s[0]] + rest[0]] + rest[1..]
  }

  /** Python's `'\n'.join(lines)`. */
  function Join(lines: seq<string>): string
    decreases |lines|
  {
    if |lines| == 0 then []
    else if |lines| == 1 then lines[0]
    else lines[0] + "\n" + Join(lines[1..])
  }

  /** Joining a list whose first line gained a leading character. */
  lemma {:induction false} JoinConsChar(c: char, lines: seq<string>)
    requires |lines| >= 1
    ensures Join([[c] + lines[0]] + lines[1..]) == [c] + Join(lines)
  {
  }

  /** Splitting and joining again gives back the text (`'\n'.join(s.split('\n')) == s`). */
  lemma {:induction false} JoinSplit(s: string)
    ensures Join(Split(s)) == s
    decreases |s|
  {
    if s == [] {
    } else {
      var rest := Split(s[1..]);
      JoinSplit(s[1..]);
      if s[0] == '\n' {
        var ls := [[]] + rest;
        assert ls[1..] == rest;
        assert s == "\n" + s[1..];
      } else {
        JoinConsChar(s[0], rest);
        assert s == [s[0]] + s[1..];
      }
    }
  }

  /** A text with no newline splits into itself alone. */
  lemma {:induction false} SplitSingle(x: string)
    requires '\n' !in x
    ensures Split(x) == [x]
    decreases |x|
  {
    if x != [] {
      assert x[0] in x;
      assert forall c :: c in x[1..] ==> c in x;
      SplitSingle(x[1..]);
      assert x == [x[0]] + x[1..];
    }
  }

  /** A first line without a newline is split off at the first newline. */
  lemma {:induction false} SplitAtFirstNewline(x: string, y: string)
    requires '\n' !in x
    ensures Split(x + "\n" + y) == [x] + Split(y)
    decreases |x|
  {
    if x == [] {
      assert x + "\n" + y == "\n" + y;
      assert ("\n" + y)[1..] == y;
    } else {
      var s := x + "\n" + y;
      assert s[0] == x[0] && s[1..] == x[1..] + "\n" + y;
      assert forall c :: c in x[1..] ==> c in x;
      assert x[0] in x;
      SplitAtFirstNewline(x[1..], y);
      assert [x[0]] + x[1..] == x;
    }
  }

  /**
   * The other direction of the round trip: lines that hold no newline are
   * recovered by splitting their join.
   */
  lemma {:induction false} SplitJoin(lines: seq<string>)
    requires |lines| >= 1
    requires forall i :: 0 <= i < |lines| ==> '\n' !in lines[i]
    ensures Split(Join(lines)) == lines
    decreases |lines|
  {
    if |lines| == 1 {
      SplitSingle(lines[0]);
    } else {
      SplitJoin(lines[1..]);
      SplitAtFirstNewline(lines[0], Join(lines[1..]));
      assert [lines[0]] + lines[1..] == lines;
    }
  }

  /** A line of a joined list occurs in the joined text. */
  lemma {:induction false} JoinContainsLine(lines: seq<string>, k: nat, sub: string)
    requires k < |lines| && Contains(lines[k], sub)
    ensures Contains(Join(lines), sub)
    decreases |lines|
  {
    if |lines| == 1 {
    } else if k == 0 {
      ContainsBeforeAppend(lines[0], "\n" + Join(lines[1..]), sub);
      assert lines[0] + "\n" + Join(lines[1..]) == lines[0] + ("\n" + Join(lines[1..]));
    } else {
      JoinContainsLine(lines[1..], k - 1, sub);
      ContainsAfterPrepend(lines[0] + "\n", Join(lines[1..]), sub);
    }
  }
}
