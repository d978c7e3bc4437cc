/**
 * The codemod's per-file step: skip a file that never names
 * `AppConstants.spacing`; otherwise normalise its imports, rewrite every
 * reference, and write the file only when the rewrite changed the
 * post-import text.
 *
 * The lemmas here connect the three parts: the import step neither creates
 * nor removes a match of the pattern, so a file is written exactly when its
 * original text holds a match, and a second run never writes again.
 */
module Codemod {
  import opened Text
  import opened Renamer
  import opened Imports

  /** What processing one file yields: the text the file holds afterwards, and whether it is written. */
  datatype Outcome = Outcome(newContent: string, shouldWrite: bool)

  /**
   * The body of the per-file loop, without the file system: a file that
   * does not hold `AppConstants.spacing` is skipped; otherwise the rewrite
   * of the post-import text is written when it differs from that text.
   * A file that is not written keeps its original text.
   */
  function ProcessFile(content: string): (o: Outcome)
    ensures !Contains(content, OLD_PREFIX) ==> o == Outcome(content, false)
    ensures !o.shouldWrite ==> o.newContent == content
  {
    if !Contains(content, OLD_PREFIX) then Outcome(content, false)
    else
      var imported := NormalizeImports(content);
      var rewritten := Rewrite(OLD_PREFIX, SPACING_MAP, imported);
      if rewritten != imported then Outcome(rewritten, true) else Outcome(content, false)
  }

  /** The per-file step as the codemod runs it, with the import loop of `EnsureImport`. */
  method UpdateFile(content: string) returns (newContent: string, shouldWrite: bool)
    ensures Outcome(newContent, shouldWrite) == ProcessFile(content)
  {
    newContent, shouldWrite := content, false;
    if Contains(content, OLD_PREFIX) {
      var imported := EnsureImport(content);
      var rewritten := Rewrite(OLD_PREFIX, SPACING_MAP, imported);
      if rewritten != imported {
        newContent, shouldWrite := rewritten, true;
      }
    }
  }

  // ---------------------------------------------------------------------
  // Matches and the literal test of the skip check.

  /** A text that holds a match holds the literal, so it is never skipped. */
  lemma MatchHasLiteral(lit: string, s: string)
    requires HasMatch(lit, s)
    ensures Contains(s, lit)
  {
    var i :| 0 <= i < |s| && MatchesAt(lit, s, i);
    assert OccursAt(s, lit, i);
  }

  // ---------------------------------------------------------------------
  // Matches and lines: a match never spans a newline.

  /** A match of `x + "\n" + y` lies wholly in `x` or wholly in `y`. */
  lemma MatchAroundNewline(lit: string, x: string, y: string, i: int)
    requires LiteralShape(lit) && 0 <= i
    ensures MatchesAt(lit, x + "\n" + y, i) ==> MatchesAt(lit, x, i) || MatchesAt(lit, y, i - |x| - 1)
  {
    var s := x + "\n" + y;
    var n := |lit|;
    assert s[|x|] == '\n';
    assert i <= |x| < i + n && i + n <= |s| ==> s[i..i + n][|x| - i] == '\n';
    if MatchesAt(lit, s, i) && i + n < |x| {
      assert s[i..i + n] == x[i..i + n];
      assert s[i + n] == x[i + n];
    } else if MatchesAt(lit, s, i) && i > |x| {
      assert s == (x + "\n") + y;
      MatchesAtShift(lit, x + "\n", y, i - |x| - 1);
    }
  }

  /** Joining two texts with a newline neither creates nor removes a match. */
  lemma NoMatchAroundNewline(lit: string, x: string, y: string)
    requires LiteralShape(lit)
    ensures NoMatch(lit, x + "\n" + y) <==> NoMatch(lit, x) && NoMatch(lit, y)
  {
    var s := x + "\n" + y;
    if NoMatch(lit, s) {
      assert s[0..|x|] == x && s[|x| + 1..|s|] == y;
      NoMatchSlice(lit, s, 0, |x|);
      NoMatchSlice(lit, s, |x| + 1, |s|);
    }
    if NoMatch(lit, x) && NoMatch(lit, y) {
      forall i | 0 <= i < |s| ensures !MatchesAt(lit, s, i) {
        MatchAroundNewline(lit, x, y, i);
        assert !MatchesAt(lit, x, i);
        assert !MatchesAt(lit, y, i - |x| - 1);
      }
    }
  }

  /** Every line of the list is free of matches. */
  predicate AllNoMatch(lit: string, lines: seq<string>) {
    forall i :: 0 <= i < |lines| ==> NoMatch(lit, lines[i])
  }

  /** A list with a first line is free of matches when that line and the rest are. */
  lemma AllNoMatchCons(lit: string, line: string, lines: seq<string>)
    ensures AllNoMatch(lit, [line] + lines) <==> NoMatch(lit, line) && AllNoMatch(lit, lines)
  {
    var r := [line] + lines;
    assert r[0] == line;
    assert forall i :: 0 <= i < |lines| ==> r[i + 1] == lines[i];
  }

  /** A joined text is free of matches exactly when each of its lines is. */
  lemma {:induction false} JoinNoMatch(lit: string, lines: seq<string>)
    requires LiteralShape(lit)
    ensures NoMatch(lit, Join(lines)) <==> AllNoMatch(lit, lines)
    decreases |lines|
  {
    if |lines| > 1 {
      var t := lines[1..];
      JoinNoMatch(lit, t);
      NoMatchAroundNewline(lit, lines[0], Join(t));
      assert forall i :: 1 <= i < |lines| ==> lines[i] == t[i - 1];
    }
  }

  // ---------------------------------------------------------------------
  // The derived import line brings no match.

  /**
   * The facts about the text that replaces the import marker: it holds no
   * uppercase letter and holds an underscore, which the literal lacks.
   */
  predicate MarkerShape(rep: string) {
    (exists j :: 0 <= j < |rep| && rep[j] == '_')
    && forall i :: 0 <= i < |rep| ==> !IsUpper(rep[i])
  }

  /** `app_spacing` has that shape. */
  lemma NewMarkerShape()
    ensures MarkerShape(NEW_MARKER)
  {
    assert NEW_MARKER[3] == '_';
  }

  /**
   * A replacement at the start of `ReplaceAll`'s output cannot finish the
   * literal and the uppercase letter after it: it has no uppercase letter,
   * and its underscore does not occur in the literal.
   */
  lemma ReplacedHeadBlocks(lit: string, pat: string, rep: string, u: string, k: nat)
    requires LiteralShape(lit) && pat != [] && MarkerShape(rep) && k < |lit|
    requires OccursAt(u, pat, 0)
    requires k < |ReplaceAll(u, pat, rep)| && ReplaceAll(u, pat, rep)[..k] == lit[|lit| - k..]
    ensures !IsUpper(ReplaceAll(u, pat, rep)[k])
  {
    var n := |lit|;
    var r := ReplaceAll(u, pat, rep);
    assert r == rep + ReplaceAll(u[|pat|..], pat, rep);
    assert forall m :: 0 <= m < k && m < |rep| ==> lit[n - k + m] == rep[m];
    assert k < |rep| ==> r[k] == rep[k];
  }

  /**
   * If `ReplaceAll`'s output starts with the tail `lit[|lit| - k..]` and an
   * uppercase letter, so does its input: those characters were copied.
   */
  lemma {:induction false} ReplaceStartsLikeInput(lit: string, pat: string, rep: string, u: string, k: nat)
    requires LiteralShape(lit) && pat != [] && MarkerShape(rep) && k < |lit|
    requires k < |ReplaceAll(u, pat, rep)| && ReplaceAll(u, pat, rep)[..k] == lit[|lit| - k..]
    requires IsUpper(ReplaceAll(u, pat, rep)[k])
    ensures k < |u| && u[..k] == lit[|lit| - k..] && IsUpper(u[k])
    decreases |u|
  {
    var n := |lit|;
    if OccursAt(u, pat, 0) {
      ReplacedHeadBlocks(lit, pat, rep, u, k);
      assert false;
    } else if k > 0 {
      var v := u[1..];
      assert ReplaceAll(u, pat, rep) == [u[0]] + ReplaceAll(v, pat, rep);
      TailOfCons(u[0], ReplaceAll(v, pat, rep), lit[n - k..]);
      assert lit[n - (k - 1)..] == lit[n - k..][1..];
      ReplaceStartsLikeInput(lit, pat, rep, v, k - 1);
      ConsOfTail(u, lit[n - k..]);
    }
  }

  /** No match starts at index `q` of `ReplaceAll`'s output of a text free of matches. */
  lemma {:induction false} ReplaceNoMatchAt(lit: string, pat: string, rep: string, s: string, q: int)
    requires LiteralShape(lit) && pat != [] && MarkerShape(rep) && NoMatch(lit, s) && 0 <= q
    ensures !MatchesAt(lit, ReplaceAll(s, pat, rep), q)
    decreases |s|, 2
  {
    if s == [] {
    } else if OccursAt(s, pat, 0) {
      NoMatchAfterMarker(lit, pat, rep, s, q);
    } else {
      NoMatchAfterKept(lit, pat, rep, s, q);
    }
  }

  /** `ReplaceNoMatchAt` when the pattern occurs at the start of the text. */
  lemma {:induction false} NoMatchAfterMarker(lit: string, pat: string, rep: string, s: string, q: int)
    requires LiteralShape(lit) && pat != [] && MarkerShape(rep) && NoMatch(lit, s) && 0 <= q
    requires OccursAt(s, pat, 0)
    ensures !MatchesAt(lit, ReplaceAll(s, pat, rep), q)
    decreases |s|, 0
  {
    var r := ReplaceAll(s, pat, rep);
    var rest := s[|pat|..];
    assert r == rep + ReplaceAll(rest, pat, rep);
    assert q < |rep| ==> r[q] == rep[q];
    if q >= |rep| {
      NoMatchSuffix(lit, s, |pat|);
      ReplaceNoMatchAt(lit, pat, rep, rest, q - |rep|);
      MatchesAtShift(lit, rep, ReplaceAll(rest, pat, rep), q - |rep|);
    }
  }

  /** `ReplaceNoMatchAt` when the first character of the text is kept. */
  lemma {:induction false} NoMatchAfterKept(lit: string, pat: string, rep: string, s: string, q: int)
    requires LiteralShape(lit) && pat != [] && MarkerShape(rep) && NoMatch(lit, s) && 0 <= q
    requires s != [] && !OccursAt(s, pat, 0)
    ensures !MatchesAt(lit, ReplaceAll(s, pat, rep), q)
    decreases |s|, 1
  {
    assert ReplaceAll(s, pat, rep) == [s[0]] + ReplaceAll(s[1..], pat, rep);
    if q > 0 {
      NoMatchPastKept(lit, pat, rep, s, q);
    } else if MatchesAt(lit, ReplaceAll(s, pat, rep), 0) {
      KeptMatchBack(lit, pat, rep, s);
      assert false;
    }
  }

  /** `NoMatchAfterKept` at an index past the kept character. */
  lemma {:induction false} NoMatchPastKept(lit: string, pat: string, rep: string, s: string, q: int)
    requires LiteralShape(lit) && pat != [] && MarkerShape(rep) && NoMatch(lit, s) && 0 < q
    requires s != [] && ReplaceAll(s, pat, rep) == [s[0]] + ReplaceAll(s[1..], pat, rep)
    ensures !MatchesAt(lit, ReplaceAll(s, pat, rep), q)
    decreases |s|, 0
  {
    var v := s[1..];
    NoMatchSuffix(lit, s, 1);
    ReplaceNoMatchAt(lit, pat, rep, v, q - 1);
    MatchesAtShift(lit, [s[0]], ReplaceAll(v, pat, rep), q - 1);
  }

  /** A match at the start of the output after a kept character was already a match of the input. */
  lemma KeptMatchBack(lit: string, pat: string, rep: string, s: string)
    requires LiteralShape(lit) && pat != [] && MarkerShape(rep)
    requires s != [] && ReplaceAll(s, pat, rep) == [s[0]] + ReplaceAll(s[1..], pat, rep)
    requires MatchesAt(lit, ReplaceAll(s, pat, rep), 0)
    ensures MatchesAt(lit, s, 0)
  {
    var v := s[1..];
    MatchAfterChar(lit, s[0], ReplaceAll(v, pat, rep));
    ReplaceStartsLikeInput(lit, pat, rep, v, |lit| - 1);
    MatchAfterChar(lit, s[0], v);
    assert [s[0]] + v == s;
  }

  /** Replacing text by a marker-shaped text keeps a text free of matches. */
  lemma ReplaceAllKeepsNoMatch(lit: string, pat: string, rep: string, s: string)
    requires LiteralShape(lit) && pat != [] && MarkerShape(rep) && NoMatch(lit, s)
    ensures NoMatch(lit, ReplaceAll(s, pat, rep))
  {
    forall q | 0 <= q < |ReplaceAll(s, pat, rep)| ensures !MatchesAt(lit, ReplaceAll(s, pat, rep), q) {
      ReplaceNoMatchAt(lit, pat, rep, s, q);
    }
  }

  /** The derived import line of a line free of matches is free of matches. */
  lemma RetargetKeepsNoMatch(lit: string, line: string)
    requires LiteralShape(lit) && NoMatch(lit, line)
    ensures NoMatch(lit, Retarget(line))
  {
    NewMarkerShape();
    ReplaceAllKeepsNoMatch(lit, OLD_MARKER, NEW_MARKER, line);
  }

  // ---------------------------------------------------------------------
  // The import step neither creates nor removes a match.

  /** Inserting the derived import line keeps every line free of matches, and only then. */
  lemma {:induction false} InsertKeepsNoMatch(lit: string, lines: seq<string>)
    requires LiteralShape(lit)
    ensures AllNoMatch(lit, InsertImport(lines)) <==> AllNoMatch(lit, lines)
    decreases |lines|, 1
  {
    if lines != [] {
      assert lines == [lines[0]] + lines[1..];
      AllNoMatchCons(lit, lines[0], lines[1..]);
      if MentionsOld(lines[0]) {
        InsertAtHeadKeepsNoMatch(lit, lines[0], lines[1..]);
      } else {
        InsertLaterKeepsNoMatch(lit, lines[0], lines[1..]);
      }
    }
  }

  /** Sequence bookkeeping for `InsertAtHeadKeepsNoMatch`. */
  lemma PairCons(a: string, b: string, rest: seq<string>)
    ensures [a, b] + rest == [a] + ([b] + rest)
  {
  }

  /** `InsertKeepsNoMatch` when the first line mentions the old marker. */
  lemma InsertAtHeadKeepsNoMatch(lit: string, line: string, rest: seq<string>)
    requires LiteralShape(lit) && MentionsOld(line)
    ensures AllNoMatch(lit, InsertImport([line] + rest)) <==> NoMatch(lit, line) && AllNoMatch(lit, rest)
  {
    InsertImportCons(line, rest);
    AllNoMatchCons(lit, Retarget(line), rest);
    AllNoMatchCons(lit, line, [Retarget(line)] + rest);
    PairCons(line, Retarget(line), rest);
    if NoMatch(lit, line) {
      RetargetKeepsNoMatch(lit, line);
    }
  }

  /** `InsertKeepsNoMatch` when the first line does not mention the old marker. */
  lemma {:induction false} InsertLaterKeepsNoMatch(lit: string, line: string, rest: seq<string>)
    requires LiteralShape(lit) && !MentionsOld(line)
    ensures AllNoMatch(lit, InsertImport([line] + rest)) <==> NoMatch(lit, line) && AllNoMatch(lit, rest)
    decreases |rest| + 1, 0
  {
    InsertImportCons(line, rest);
    InsertKeepsNoMatch(lit, rest);
    AllNoMatchCons(lit, line, InsertImport(rest));
  }

  /** The import step neither creates nor removes a match of the pattern. */
  lemma NormalizeKeepsNoMatch(lit: string, content: string)
    requires LiteralShape(lit)
    ensures NoMatch(lit, NormalizeImports(content)) <==> NoMatch(lit, content)
  {
    if !Contains(content, NEW_MARKER) {
      var lines := Split(content);
      JoinSplit(content);
      JoinNoMatch(lit, lines);
      JoinNoMatch(lit, InsertImport(lines));
      InsertKeepsNoMatch(lit, lines);
    }
  }

  // ---------------------------------------------------------------------
  // The per-file decision.

  /**
   * A file is written exactly when its original text holds a match of the
   * pattern: the import step alone never causes a write.
   */
  lemma WritesIffMatch(content: string)
    ensures ProcessFile(content).shouldWrite <==> HasMatch(OLD_PREFIX, content)
  {
    OldPrefixShape();
    SpacingMapShape();
    if Contains(content, OLD_PREFIX) {
      var imported := NormalizeImports(content);
      RewriteChangesIff(OLD_PREFIX, SPACING_MAP, imported);
      NormalizeKeepsNoMatch(OLD_PREFIX, content);
    } else if HasMatch(OLD_PREFIX, content) {
      MatchHasLiteral(OLD_PREFIX, content);
    }
  }

  /**
   * A written file holds the rewrite of its post-import text, and no match
   * of the pattern is left in it.
   */
  lemma WrittenHasNoMatch(content: string)
    requires ProcessFile(content).shouldWrite
    ensures ProcessFile(content).newContent == Rewrite(OLD_PREFIX, SPACING_MAP, NormalizeImports(content))
    ensures NoMatch(OLD_PREFIX, ProcessFile(content).newContent)
  {
    OldPrefixShape();
    SpacingMapShape();
    RewriteNoMatch(OLD_PREFIX, SPACING_MAP, NormalizeImports(content));
  }

  /** Running the codemod on its own output writes nothing and changes nothing. */
  lemma ProcessFileIdempotent(content: string)
    ensures !ProcessFile(ProcessFile(content).newContent).shouldWrite
    ensures ProcessFile(ProcessFile(content).newContent).newContent == ProcessFile(content).newContent
  {
    var o := ProcessFile(content);
    WritesIffMatch(content);
    WritesIffMatch(o.newContent);
    if o.shouldWrite {
      WrittenHasNoMatch(content);
    }
  }
}
