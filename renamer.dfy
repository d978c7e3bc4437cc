/**
 * The suffix renamer: the compiled pattern `AppConstants\.spacing([A-Z][a-z]*)`,
 * the suffix table `spacing_map`, and the global substitution
 * `pattern.sub(replace_spacing, content)`, written as a hand-made scanner.
 *
 * The scanner takes the literal part of the pattern and the suffix table as
 * arguments `lit` and `table` (the codemod passes `OLD_PREFIX` and
 * `SPACING_MAP`), so that the proofs rely only on the few facts about them
 * that `LiteralShape` and `TableShape` collect.
 */
module Renamer {

  /** The literal part of the codemod's pattern. */
  const OLD_PREFIX := "AppConstants.spacing"

  /** The holder every rewritten reference names. */
  const NEW_HOLDER := "AppSpacing"

  /** The table of suffixes with a canonical identifier of their own. */
  const SPACING_MAP: map<string, string> :=
    map["XL" := "xxl", "Xl" := "xxl", "L" := "lg", "M" := "md", "S" := "sm", "Xs" := "xs"]

  /** The regular-expression classes `[A-Z]` and `[a-z]`. */
  predicate IsUpper(c: char) { 'A' <= c <= 'Z' }
  predicate IsLower(c: char) { 'a' <= c <= 'z' }

  /** A text made of ASCII lowercase letters only, at least one of them. */
  predicate IsIdentifier(s: string) {
    |s| > 0 && forall i :: 0 <= i < |s| ==> IsLower(s[i])
  }

  /** What the capture group `([A-Z][a-z]*)` can hold. */
  predicate IsCapture(x: string) {
    |x| > 0 && IsUpper(x[0]) && forall i :: 1 <= i < |x| ==> IsLower(x[i])
  }

  /** ASCII lower-casing of one character. */
  function ToLower(c: char): (r: char)
    ensures !IsUpper(r)
    ensures IsUpper(c) ==> IsLower(r) && r as int == c as int + 32
    ensures !IsUpper(c) ==> r == c
  {
    if IsUpper(c) then (c as int + 32) as char else c
  }

  /** `s.lower()` on ASCII text. */
  function Lower(s: string): string
    decreases |s|
  {
    if s == [] then [] else [ToLower(s[0])] + Lower(s[1..])
  }

  /** Lower-casing keeps the length and lower-cases each character in place. */
  lemma {:induction false} LowerShape(s: string)
    ensures |Lower(s)| == |s|
    ensures forall i :: 0 <= i < |s| ==> Lower(s)[i] == ToLower(s[i])
    decreases |s|
  {
    if s != [] {
      LowerShape(s[1..]);
      assert forall i :: 1 <= i < |s| ==> s[1..][i - 1] == s[i];
    }
  }

  /**
   * `spacing_map.get(size, size.lower())`: the table's entry when the suffix
   * is a key, the lower-cased suffix otherwise (see `MapSuffixShape`).
   */
  function MapSuffix(table: map<string, string>, x: string): string {
    if x in table then table[x] else Lower(x)
  }

  /**
   * The identifier chosen for a suffix never holds an uppercase letter; for
   * a captured suffix it is a lowercase identifier; a suffix outside the
   * table is lower-cased letter by letter and never dropped.
   */
  lemma MapSuffixShape(table: map<string, string>, x: string)
    requires TableShape(table)
    ensures forall i :: 0 <= i < |MapSuffix(table, x)| ==> !IsUpper(MapSuffix(table, x)[i])
    ensures IsCapture(x) ==> IsIdentifier(MapSuffix(table, x))
    ensures x !in table ==> |MapSuffix(table, x)| == |x|
  {
    LowerShape(x);
  }

  /** A suffix that is not a key of the table is lower-cased letter for letter. */
  lemma MapSuffixFallback(table: map<string, string>, x: string)
    requires x !in table
    ensures |MapSuffix(table, x)| == |x|
    ensures forall i :: 0 <= i < |x| ==> MapSuffix(table, x)[i] == ToLower(x[i])
  {
    LowerShape(x);
  }

  /** `f'AppSpacing.{mapped}'`: the text that replaces one match. */
  function Replacement(table: map<string, string>, x: string): string {
    NEW_HOLDER + "." + MapSuffix(table, x)
  }

  /** The pattern `<lit>([A-Z][a-z]*)` matches at index `i`: the literal, then an uppercase letter. */
  predicate MatchesAt(lit: string, s: string, i: int) {
    0 <= i && i + |lit| < |s| && s[i..i + |lit|] == lit && IsUpper(s[i + |lit|])
  }

  /** No match of the pattern starts anywhere in `s`. */
  predicate NoMatch(lit: string, s: string) {
    forall i :: 0 <= i < |s| ==> !MatchesAt(lit, s, i)
  }

  /** Some match of the pattern starts in `s`. */
  predicate HasMatch(lit: string, s: string) {
    exists i | 0 <= i < |s| :: MatchesAt(lit, s, i)
  }

  /** The greedy `[a-z]*`: the end of the longest run of lowercase letters from `k`. */
  function LowerRunEnd(s: string, k: nat): (e: nat)
    requires k <= |s|
    ensures k <= e <= |s|
    decreases |s| - k
  {
    if k < |s| && IsLower(s[k]) then LowerRunEnd(s, k + 1) else k
  }

  /** The run from `k` is made of lowercase letters and cannot be extended. */
  lemma {:induction false} LowerRunEndMaximal(s: string, k: nat)
    requires k <= |s|
    ensures forall j :: k <= j < LowerRunEnd(s, k) ==> IsLower(s[j])
    ensures LowerRunEnd(s, k) == |s| || !IsLower(s[LowerRunEnd(s, k)])
    decreases |s| - k
  {
    if k < |s| && IsLower(s[k]) {
      LowerRunEndMaximal(s, k + 1);
    }
  }

  /** Where the match that starts at `i` ends. */
  function MatchEnd(lit: string, s: string, i: int): (e: nat)
    requires MatchesAt(lit, s, i)
    ensures i + |lit| < e <= |s|
  {
    LowerRunEnd(s, i + |lit| + 1)
  }

  /**
   * `match.group(1)` for the match at `i`: one uppercase letter and then the
   * longest run of lowercase letters that follows it in `s`.
   */
  function CaptureAt(lit: string, s: string, i: int): string
    requires MatchesAt(lit, s, i)
  {
    s[i + |lit|..MatchEnd(lit, s, i)]
  }

  /**
   * The capture is what `([A-Z][a-z]*)` takes: it starts right after the
   * literal, is one uppercase letter and lowercase letters, and is followed
   * by the end of the text or by a character that is not a lowercase letter.
   */
  lemma CaptureShape(lit: string, s: string, i: int)
    requires MatchesAt(lit, s, i)
    ensures IsCapture(CaptureAt(lit, s, i))
    ensures var x := CaptureAt(lit, s, i);
      i + |lit| + |x| <= |s| && s[i + |lit|..i + |lit| + |x|] == x
      && (i + |lit| + |x| == |s| || !IsLower(s[i + |lit| + |x|]))
  {
    LowerRunEndMaximal(s, i + |lit| + 1);
  }

  /**
   * `pattern.sub(replace_spacing, s)`: scans left to right; at a match it
   * emits the replacement and resumes after the match, elsewhere it copies
   * one character. Replacements are never scanned again.
   */
  function Rewrite(lit: string, table: map<string, string>, s: string): string
    decreases |s|
  {
    if s == [] then []
    else if MatchesAt(lit, s, 0) then
      Replacement(table, CaptureAt(lit, s, 0)) + Rewrite(lit, table, s[MatchEnd(lit, s, 0)..])
    else [s[0]] + Rewrite(lit, table, s[1..])
  }

  /**
   * The facts about the literal that the proofs use: it starts with the only
   * `A` it holds, its fourth character differs from that of `AppSpacing`,
   * and it holds neither a newline nor an underscore.
   */
  predicate LiteralShape(lit: string) {
    |lit| >= 4 && lit[0] == 'A' && lit[3] != 'S'
    && (forall i :: 1 <= i < |lit| ==> lit[i] != 'A')
    && (forall i :: 0 <= i < |lit| ==> lit[i] != '\n' && lit[i] != '_')
  }

  /** The codemod's literal has that shape. */
  lemma OldPrefixShape()
    ensures LiteralShape(OLD_PREFIX)
  {
  }

  /** Every identifier of the table is a lowercase identifier. */
  predicate TableShape(table: map<string, string>) {
    forall x :: x in table ==> IsIdentifier(table[x])
  }

  /** The codemod's table has that shape. */
  lemma SpacingMapShape()
    ensures TableShape(SPACING_MAP)
  {
  }

  // ---------------------------------------------------------------------
  // Where matches sit in a concatenation or a slice.

  /** A match in the second part of a concatenation is a match of that part. */
  lemma MatchesAtShift(lit: string, a: string, b: string, j: int)
    requires 0 <= j
    ensures MatchesAt(lit, a + b, |a| + j) <==> MatchesAt(lit, b, j)
  {
  }

  /** A match in the first part of a concatenation stays a match. */
  lemma MatchesAtPrefix(lit: string, a: string, b: string, j: int)
    ensures MatchesAt(lit, a, j) ==> MatchesAt(lit, a + b, j)
  {
  }

  /** A match inside a slice is a match of the whole text. */
  lemma MatchesAtSlice(lit: string, s: string, lo: int, hi: int, j: int)
    requires 0 <= lo <= hi <= |s|
    ensures MatchesAt(lit, s[lo..hi], j) ==> MatchesAt(lit, s, lo + j)
  {
    if MatchesAt(lit, s[lo..hi], j) {
      MatchesAtPrefix(lit, s[lo..hi], s[hi..], j);
      assert s[lo..hi] + s[hi..] == s[lo..];
      MatchesAtShift(lit, s[..lo], s[lo..], j);
      assert s[..lo] + s[lo..] == s;
    }
  }

  /** A slice of a text without matches has no matches. */
  lemma NoMatchSlice(lit: string, s: string, lo: int, hi: int)
    requires 0 <= lo <= hi <= |s| && NoMatch(lit, s)
    ensures NoMatch(lit, s[lo..hi])
  {
    forall j | 0 <= j < hi - lo ensures !MatchesAt(lit, s[lo..hi], j) {
      MatchesAtSlice(lit, s, lo, hi, j);
    }
  }

  /** A suffix of a text without matches has no matches. */
  lemma NoMatchSuffix(lit: string, s: string, k: nat)
    requires k <= |s| && NoMatch(lit, s)
    ensures NoMatch(lit, s[k..])
  {
    NoMatchSlice(lit, s, k, |s|);
    assert s[k..|s|] == s[k..];
  }

  // ---------------------------------------------------------------------
  // What the substitution copies and what it leaves behind.

  /** At a match, the output starts with the replacement. */
  lemma RewriteAtMatch(lit: string, table: map<string, string>, s: string)
    requires MatchesAt(lit, s, 0)
    ensures Rewrite(lit, table, s) == Replacement(table, CaptureAt(lit, s, 0)) + Rewrite(lit, table, s[MatchEnd(lit, s, 0)..])
  {
  }

  /** Away from a match, the output starts with the input's first character. */
  lemma RewriteAtCopy(lit: string, table: map<string, string>, s: string)
    requires s != [] && !MatchesAt(lit, s, 0)
    ensures Rewrite(lit, table, s) == [s[0]] + Rewrite(lit, table, s[1..])
  {
  }

  /**
   * Characters before the first match are copied unchanged and in order:
   * when no match starts before `m`, the output begins with `s[..m]`.
   */
  lemma {:induction false} RewriteCopiesPrefix(lit: string, table: map<string, string>, s: string, m: nat)
    requires m <= |s|
    requires forall j :: 0 <= j < m ==> !MatchesAt(lit, s, j)
    ensures Rewrite(lit, table, s) == s[..m] + Rewrite(lit, table, s[m..])
    decreases m
  {
    if m > 0 {
      RewriteAtCopy(lit, table, s);
      NoMatchBeforeInTail(lit, s, m);
      RewriteCopiesPrefix(lit, table, s[1..], m - 1);
      PrefixAfterFirst(s, m, Rewrite(lit, table, s[m..]));
    }
  }

  /** Sequence bookkeeping for `RewriteCopiesPrefix`. */
  lemma PrefixAfterFirst(s: string, m: nat, rest: string)
    requires 0 < m <= |s|
    ensures s[1..][m - 1..] == s[m..]
    ensures [s[0]] + (s[1..][..m - 1] + rest) == s[..m] + rest
  {
  }

  /** Helper for `RewriteCopiesPrefix`: the match-free start of `s` is one shorter in `s[1..]`. */
  lemma NoMatchBeforeInTail(lit: string, s: string, m: nat)
    requires 0 < m <= |s|
    requires forall j :: 0 <= j < m ==> !MatchesAt(lit, s, j)
    ensures forall j :: 0 <= j < m - 1 ==> !MatchesAt(lit, s[1..], j)
  {
    assert [s[0]] + s[1..] == s;
    forall j | 0 <= j < m - 1 ensures !MatchesAt(lit, s[1..], j) {
      MatchesAtShift(lit, [s[0]], s[1..], j);
    }
  }

  /** The lowercase run from `k` in a suffix is the run from `m + k` in the whole text. */
  lemma {:induction false} LowerRunEndShift(s: string, m: nat, k: nat)
    requires m + k <= |s|
    ensures LowerRunEnd(s[m..], k) == LowerRunEnd(s, m + k) - m
    decreases |s| - m - k
  {
    if m + k < |s| {
      assert s[m..][k] == s[m + k];
      if IsLower(s[m + k]) {
        LowerRunEndShift(s, m, k + 1);
      }
    }
  }

  /** A match at `m` is the match at the start of `s[m..]`, with the same capture and the same rest. */
  lemma MatchInSuffix(lit: string, s: string, m: nat)
    requires MatchesAt(lit, s, m)
    ensures MatchesAt(lit, s[m..], 0)
    ensures CaptureAt(lit, s[m..], 0) == CaptureAt(lit, s, m)
    ensures s[m..][MatchEnd(lit, s[m..], 0)..] == s[MatchEnd(lit, s, m)..]
  {
    var t := s[m..];
    assert s[..m] + t == s;
    MatchesAtShift(lit, s[..m], t, 0);
    LowerRunEndShift(s, m, |lit| + 1);
    var e := MatchEnd(lit, s, m);
    assert MatchEnd(lit, t, 0) == e - m;
    assert t[|lit|..e - m] == s[m + |lit|..e];
    assert t[e - m..] == s[e..];
  }

  /**
   * One step of the scan at the first match `m`: the text before it is
   * copied, the match becomes its replacement, and the scan resumes right
   * after the match.
   */
  lemma RewriteAtFirstMatch(lit: string, table: map<string, string>, s: string, m: nat)
    requires MatchesAt(lit, s, m)
    requires forall j :: 0 <= j < m ==> !MatchesAt(lit, s, j)
    ensures Rewrite(lit, table, s)
         == s[..m] + Replacement(table, CaptureAt(lit, s, m)) + Rewrite(lit, table, s[MatchEnd(lit, s, m)..])
  {
    RewriteCopiesPrefix(lit, table, s, m);
    MatchInSuffix(lit, s, m);
    RewriteAtMatch(lit, table, s[m..]);
  }

  /** A text without matches is left exactly as it is. */
  lemma RewriteIdentity(lit: string, table: map<string, string>, s: string)
    requires NoMatch(lit, s)
    ensures Rewrite(lit, table, s) == s
  {
    RewriteCopiesPrefix(lit, table, s, |s|);
    assert s[..|s|] == s;
  }

  /** A replacement starts with `AppS` and holds no other `A`. */
  lemma ReplacementShape(table: map<string, string>, x: string)
    requires TableShape(table)
    ensures |Replacement(table, x)| >= 11 && Replacement(table, x)[0] == 'A' && Replacement(table, x)[3] == 'S'
    ensures forall i :: 1 <= i < |Replacement(table, x)| ==> Replacement(table, x)[i] != 'A'
  {
    var r := Replacement(table, x);
    MapSuffixShape(table, x);
    forall i | 1 <= i < |r| ensures r[i] != 'A' {
      if i > |NEW_HOLDER| {
        assert r[i] == MapSuffix(table, x)[i - |NEW_HOLDER| - 1];
      }
    }
  }

  /**
   * If the output starts with the tail `lit[|lit| - k..]` followed by an
   * uppercase letter, so does the input: those `k` characters were copied,
   * because a replacement would have put an `A` where the tail has none.
   */
  lemma {:induction false} RewriteStartsLikeInput(lit: string, table: map<string, string>, t: string, k: nat)
    requires LiteralShape(lit) && TableShape(table) && k < |lit|
    requires k < |Rewrite(lit, table, t)|
    requires Rewrite(lit, table, t)[..k] == lit[|lit| - k..]
    requires IsUpper(Rewrite(lit, table, t)[k])
    ensures k < |t| && t[..k] == lit[|lit| - k..] && IsUpper(t[k])
    decreases k, 1
  {
    if MatchesAt(lit, t, 0) {
      StartsAtMatch(lit, table, t, k);
    } else {
      RewriteAtCopy(lit, table, t);
      StartsAtCopy(lit, table, t, k);
    }
  }

  /** `RewriteStartsLikeInput` when a match starts the input: only `k == 0` is possible. */
  lemma StartsAtMatch(lit: string, table: map<string, string>, t: string, k: nat)
    requires LiteralShape(lit) && TableShape(table) && k < |lit| && MatchesAt(lit, t, 0)
    requires k < |Rewrite(lit, table, t)| && Rewrite(lit, table, t)[..k] == lit[|lit| - k..]
    ensures k == 0 && IsUpper(t[0])
  {
    var n := |lit|;
    assert t[..n][0] == 'A';
    RewriteAtMatch(lit, table, t);
    ReplacementShape(table, CaptureAt(lit, t, 0));
    assert k > 0 ==> Rewrite(lit, table, t)[..k][0] == lit[n - k];
  }

  /** `RewriteStartsLikeInput` when the input's first character is copied. */
  lemma {:induction false} StartsAtCopy(lit: string, table: map<string, string>, t: string, k: nat)
    requires LiteralShape(lit) && TableShape(table) && k < |lit| && t != []
    requires Rewrite(lit, table, t) == [t[0]] + Rewrite(lit, table, t[1..])
    requires k < |Rewrite(lit, table, t)| && Rewrite(lit, table, t)[..k] == lit[|lit| - k..]
    requires IsUpper(Rewrite(lit, table, t)[k])
    ensures k < |t| && t[..k] == lit[|lit| - k..] && IsUpper(t[k])
    decreases k, 0
  {
    var n := |lit|;
    var u := t[1..];
    if k > 0 {
      TailOfCons(t[0], Rewrite(lit, table, u), lit[n - k..]);
      assert lit[n - (k - 1)..] == lit[n - k..][1..];
      RewriteStartsLikeInput(lit, table, u, k - 1);
      ConsOfTail(t, lit[n - k..]);
    }
  }

  /** Sequence bookkeeping: a text `[c] + rest` that starts with `tail`. */
  lemma TailOfCons(c: char, rest: string, tail: string)
    requires 0 < |tail| <= |rest| && ([c] + rest)[..|tail|] == tail
    ensures c == tail[0] && rest[..|tail| - 1] == tail[1..] && rest[|tail| - 1] == ([c] + rest)[|tail|]
  {
  }

  /** Sequence bookkeeping: `t` starts with `tail` when its head and tail agree with it. */
  lemma ConsOfTail(t: string, tail: string)
    requires 0 < |tail| && |tail| - 1 < |t| - 1
    requires t[0] == tail[0] && t[1..][..|tail| - 1] == tail[1..]
    ensures t[..|tail|] == tail && t[|tail|] == t[1..][|tail| - 1]
  {
  }

  /** No match starts inside a replacement. */
  lemma NoMatchInReplacement(lit: string, table: map<string, string>, r: string, rest: string, x: string, q: int)
    requires LiteralShape(lit) && TableShape(table) && r == Replacement(table, x) && 0 <= q < |r|
    ensures !MatchesAt(lit, r + rest, q)
  {
    ReplacementShape(table, x);
  }

  /** No match starts at index `q` of the output. */
  lemma {:induction false} RewriteNoMatchAt(lit: string, table: map<string, string>, s: string, q: int)
    requires LiteralShape(lit) && TableShape(table)
    ensures !MatchesAt(lit, Rewrite(lit, table, s), q)
    decreases |s|, 1
  {
    if s == [] || q < 0 {
    } else if MatchesAt(lit, s, 0) {
      RewriteAtMatch(lit, table, s);
      NoMatchAfterReplacement(lit, table, s, q);
    } else {
      RewriteAtCopy(lit, table, s);
      NoMatchAfterCopy(lit, table, s, q);
    }
  }

  /** `RewriteNoMatchAt` when a match starts the input. */
  lemma {:induction false} NoMatchAfterReplacement(lit: string, table: map<string, string>, s: string, q: int)
    requires LiteralShape(lit) && TableShape(table) && MatchesAt(lit, s, 0) && q >= 0
    ensures !MatchesAt(lit, Replacement(table, CaptureAt(lit, s, 0)) + Rewrite(lit, table, s[MatchEnd(lit, s, 0)..]), q)
    decreases |s|, 0
  {
    var x := CaptureAt(lit, s, 0);
    var r := Replacement(table, x);
    var e := MatchEnd(lit, s, 0);
    var rest := Rewrite(lit, table, s[e..]);
    if q >= |r| {
      RewriteNoMatchAt(lit, table, s[e..], q - |r|);
    }
    NoMatchAroundReplacement(lit, table, x, r, rest, q);
  }

  /** No match starts in a replacement, nor in the text after it unless one starts there already. */
  lemma NoMatchAroundReplacement(lit: string, table: map<string, string>, x: string, r: string, rest: string, q: int)
    requires LiteralShape(lit) && TableShape(table) && r == Replacement(table, x) && q >= 0
    requires q >= |r| ==> !MatchesAt(lit, rest, q - |r|)
    ensures !MatchesAt(lit, r + rest, q)
  {
    if q < |r| {
      NoMatchInReplacement(lit, table, r, rest, x, q);
    } else {
      MatchesAtShift(lit, r, rest, q - |r|);
    }
  }

  /** `RewriteNoMatchAt` when the input's first character is copied. */
  lemma {:induction false} NoMatchAfterCopy(lit: string, table: map<string, string>, s: string, q: int)
    requires LiteralShape(lit) && TableShape(table) && s != [] && !MatchesAt(lit, s, 0) && q >= 0
    ensures !MatchesAt(lit, [s[0]] + Rewrite(lit, table, s[1..]), q)
    decreases |s|, 0
  {
    var u := s[1..];
    if q > 0 {
      RewriteNoMatchAt(lit, table, u, q - 1);
    } else if MatchesAt(lit, [s[0]] + Rewrite(lit, table, u), 0) {
      CopiedMatchBack(lit, table, s);
      assert false;
    }
    NoMatchAfterChar(lit, s[0], Rewrite(lit, table, u), q);
  }

  /** No match starts in `[c] + w` at `q` when none starts at the matching place of `w`. */
  lemma NoMatchAfterChar(lit: string, c: char, w: string, q: int)
    requires q > 0 ==> !MatchesAt(lit, w, q - 1)
    requires q == 0 ==> !MatchesAt(lit, [c] + w, 0)
    ensures q >= 0 ==> !MatchesAt(lit, [c] + w, q)
  {
  }

  /** A match at the start of the output after a copied character was already a match of the input. */
  lemma CopiedMatchBack(lit: string, table: map<string, string>, s: string)
    requires LiteralShape(lit) && TableShape(table) && s != []
    requires MatchesAt(lit, [s[0]] + Rewrite(lit, table, s[1..]), 0)
    ensures MatchesAt(lit, s, 0)
  {
    var n := |lit|;
    assert s[0] == lit[0] by {
      MatchAfterHead(lit, s[0], Rewrite(lit, table, s[1..]));
    }
    assert n - 1 < |s[1..]| && s[1..][..n - 1] == lit[n - (n - 1)..] && IsUpper(s[1..][n - 1]) by {
      MatchAfterHead(lit, s[0], Rewrite(lit, table, s[1..]));
      RewriteStartsLikeInput(lit, table, s[1..], n - 1);
    }
    MatchFromTail(lit, s);
  }

  /** A match at the start of `[c] + w`: `w` starts with the literal's tail and then an uppercase letter. */
  lemma MatchAfterHead(lit: string, c: char, w: string)
    requires |lit| >= 1 && MatchesAt(lit, [c] + w, 0)
    ensures c == lit[0] && |lit| - 1 < |w| && w[..|lit| - 1] == lit[|lit| - (|lit| - 1)..] && IsUpper(w[|lit| - 1])
  {
  }

  /** A text whose head is the literal's head and whose tail starts like the literal's tail. */
  lemma MatchFromTail(lit: string, s: string)
    requires |lit| >= 1 && s != [] && s[0] == lit[0]
    requires |lit| - 1 < |s[1..]| && s[1..][..|lit| - 1] == lit[|lit| - (|lit| - 1)..] && IsUpper(s[1..][|lit| - 1])
    ensures MatchesAt(lit, s, 0)
  {
  }

  /** A match at the start of `[c] + u`, stated as facts about `c` and `u`. */
  lemma MatchAfterChar(lit: string, c: char, u: string)
    requires |lit| >= 1
    ensures MatchesAt(lit, [c] + u, 0) <==>
      c == lit[0] && |lit| - 1 < |u| && u[..|lit| - 1] == lit[1..] && IsUpper(u[|lit| - 1])
  {
  }


  /** The substitution is global: its output holds no match of the pattern. */
  lemma RewriteNoMatch(lit: string, table: map<string, string>, s: string)
    requires LiteralShape(lit) && TableShape(table)
    ensures NoMatch(lit, Rewrite(lit, table, s))
  {
    forall q | 0 <= q < |Rewrite(lit, table, s)| ensures !MatchesAt(lit, Rewrite(lit, table, s), q) {
      RewriteNoMatchAt(lit, table, s, q);
    }
  }

  /** The output changes exactly when the input holds a match. */
  lemma RewriteChangesIff(lit: string, table: map<string, string>, s: string)
    requires LiteralShape(lit) && TableShape(table)
    ensures Rewrite(lit, table, s) != s <==> HasMatch(lit, s)
  {
    if HasMatch(lit, s) {
      RewriteNoMatch(lit, table, s);
    } else {
      RewriteIdentity(lit, table, s);
    }
  }

  /** Running the substitution a second time changes nothing. */
  lemma RewriteIdempotent(lit: string, table: map<string, string>, s: string)
    requires LiteralShape(lit) && TableShape(table)
    ensures Rewrite(lit, table, Rewrite(lit, table, s)) == Rewrite(lit, table, s)
  {
    RewriteNoMatch(lit, table, s);
    RewriteIdentity(lit, table, Rewrite(lit, table, s));
  }

  // ---------------------------------------------------------------------
  // The suffix table as the pattern sees it.

  /**
   * The `XL` key can never be looked up: no capture equals it, and every
   * rewritten reference names a lowercase identifier.
   */
  lemma CaptureNeverXL(lit: string, s: string, i: int)
    requires MatchesAt(lit, s, i)
    ensures CaptureAt(lit, s, i) != "XL"
    ensures IsIdentifier(MapSuffix(SPACING_MAP, CaptureAt(lit, s, i)))
  {
    var x := CaptureAt(lit, s, i);
    CaptureShape(lit, s, i);
    SpacingMapShape();
    MapSuffixShape(SPACING_MAP, x);
    if |x| == 2 {
      assert IsLower(x[1]);
    }
  }
}
