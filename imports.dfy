/**
 * The import normaliser: when a file does not yet mention `app_spacing`, a
 * copy of its first line that mentions `app_constants` is inserted right
 * after that line, with `app_constants` replaced by `app_spacing`.
 */
module Imports {
  import opened Text

  /** The module marker of the old constant holder's import. */
  const OLD_MARKER := "app_constants"

  /** The module marker of the new holder's import. */
  const NEW_MARKER := "app_spacing"

  /** `'app_constants' in line`. */
  predicate MentionsOld(line: string) {
    Contains(line, OLD_MARKER)
  }

  /** `line.replace('app_constants', 'app_spacing')`: the derived import line. */
  function Retarget(line: string): string {
    ReplaceAll(line, OLD_MARKER, NEW_MARKER)
  }

  /** The derived line of a line that mentions the old marker mentions the new one. */
  lemma RetargetMentionsNew(line: string)
    requires MentionsOld(line)
    ensures Contains(Retarget(line), NEW_MARKER)
  {
    ReplaceAllIntroduces(line, OLD_MARKER, NEW_MARKER);
  }

  /** The derived line of a single line is a single line. */
  lemma RetargetKeepsLine(line: string)
    requires '\n' !in line
    ensures '\n' !in Retarget(line)
  {
    ReplaceAllAvoids(line, OLD_MARKER, NEW_MARKER, '\n');
  }

  /**
   * The list that the loop of the normaliser builds: every line in order,
   * and after the first line that mentions the old marker, its derived
   * line (see `InsertAfterFirst` and `InsertWithoutOldLine`).
   */
  function InsertImport(lines: seq<string>): seq<string>
    decreases |lines|
  {
    if lines == [] then []
    else if MentionsOld(lines[0]) then [lines[0], Retarget(lines[0])] + lines[1..]
    else [lines[0]] + InsertImport(lines[1..])
  }

  /** One step of `InsertImport`, for the loop of `EnsureImport`. */
  lemma InsertImportCons(line: string, rest: seq<string>)
    ensures InsertImport([line] + rest)
         == if MentionsOld(line) then [line, Retarget(line)] + rest else [line] + InsertImport(rest)
  {
  }

  /**
   * The text after the import step: unchanged when it already mentions the
   * new marker; otherwise split into lines, given the derived import line,
   * and joined again.
   */
  function NormalizeImports(content: string): string {
    if Contains(content, NEW_MARKER) then content
    else Join(InsertImport(Split(content)))
  }

  /**
   * The import step as the codemod runs it: a pass over the lines that
   * appends each one and, once, the derived line.
   */
  method EnsureImport(content: string) returns (result: string)
    ensures result == NormalizeImports(content)
  {
    result := content;
    if !Contains(content, NEW_MARKER) {
      var lines := Split(content);
      var newLines: seq<string> := [];
      var added := false;
      for i := 0 to |lines|
        invariant !added ==> newLines + InsertImport(lines[i..]) == InsertImport(lines)
        invariant added ==> newLines + lines[i..] == InsertImport(lines)
      {
        var line := lines[i];
        assert lines[i..] == [line] + lines[i + 1..];
        if !added {
          LoopStep(newLines, line, lines[i + 1..], InsertImport(lines));
        } else {
          CopyStep(newLines, line, lines[i + 1..], InsertImport(lines));
        }
        newLines := newLines + [line];
        if !added && MentionsOld(line) {
          newLines := newLines + [Retarget(line)];
          added := true;
        }
      }
      assert lines[|lines|..] == [];
      assert newLines == InsertImport(lines);
      result := Join(newLines);
      assert result == Join(InsertImport(Split(content)));
    } else {
      assert result == content;
    }
  }

  /** One pass of the loop before the derived line is added. */
  lemma LoopStep(done: seq<string>, line: string, rest: seq<string>, whole: seq<string>)
    requires done + InsertImport([line] + rest) == whole
    ensures MentionsOld(line) ==> done + [line] + [Retarget(line)] + rest == whole
    ensures !MentionsOld(line) ==> done + [line] + InsertImport(rest) == whole
  {
  }

  /** One pass of the loop after the derived line was added. */
  lemma CopyStep(done: seq<string>, line: string, rest: seq<string>, whole: seq<string>)
    requires done + ([line] + rest) == whole
    ensures done + [line] + rest == whole
  {
  }

  /**
   * Exactly one line is inserted, directly after the first line `k` that
   * mentions the old marker; every other line keeps its place.
   */
  lemma {:induction false} InsertAfterFirst(lines: seq<string>, k: nat)
    requires k < |lines| && MentionsOld(lines[k])
    requires forall j :: 0 <= j < k ==> !MentionsOld(lines[j])
    ensures InsertImport(lines) == lines[..k + 1] + [Retarget(lines[k])] + lines[k + 1..]
    decreases k
  {
    if k > 0 {
      var t := lines[1..];
      InsertAfterFirst(t, k - 1);
      assert t[..k] == lines[1..k + 1] && t[k..] == lines[k + 1..];
      assert lines[..k + 1] == [lines[0]] + t[..k];
    }
  }

  /** A list none of whose lines mentions the old marker is returned as it is. */
  lemma {:induction false} InsertWithoutOldLine(lines: seq<string>)
    requires forall i :: 0 <= i < |lines| ==> !MentionsOld(lines[i])
    ensures InsertImport(lines) == lines
    decreases |lines|
  {
    if lines != [] {
      assert !MentionsOld(lines[0]);
      InsertWithoutOldLine(lines[1..]);
      assert [lines[0]] + lines[1..] == lines;
    }
  }

  /**
   * A text none of whose lines mentions the old marker comes back
   * unchanged from the import step: splitting and joining is the identity.
   */
  lemma NormalizeWithoutOldLine(content: string)
    requires forall i :: 0 <= i < |Split(content)| ==> !MentionsOld(Split(content)[i])
    ensures NormalizeImports(content) == content
  {
    InsertWithoutOldLine(Split(content));
    JoinSplit(content);
  }

  /** Some line of the list built by `InsertImport` mentions the new marker, when one was inserted. */
  lemma {:induction false} InsertImportMentionsNew(lines: seq<string>, k: nat)
    requires k < |lines| && MentionsOld(lines[k])
    ensures Contains(Join(InsertImport(lines)), NEW_MARKER)
    decreases k
  {
    if MentionsOld(lines[0]) {
      var r := InsertImport(lines);
      assert r[1] == Retarget(lines[0]);
      RetargetMentionsNew(lines[0]);
      JoinContainsLine(r, 1, NEW_MARKER);
    } else {
      var r := InsertImport(lines);
      var t := lines[1..];
      assert t[k - 1] == lines[k];
      InsertImportMentionsNew(t, k - 1);
      assert r == [lines[0]] + InsertImport(t);
      assert forall i :: 0 <= i < |t| ==> t[i] == lines[i + 1];
      assert |InsertImport(t)| >= 1 && r[1..] == InsertImport(t);
      ContainsAfterPrepend(lines[0] + "\n", Join(InsertImport(t)), NEW_MARKER);
    }
  }

  /** Running the import step twice is the same as running it once. */
  lemma NormalizeIdempotent(content: string)
    ensures NormalizeImports(NormalizeImports(content)) == NormalizeImports(content)
  {
    var lines := Split(content);
    if !Contains(content, NEW_MARKER) && exists k :: 0 <= k < |lines| && MentionsOld(lines[k]) {
      var k :| 0 <= k < |lines| && MentionsOld(lines[k]);
      InsertImportMentionsNew(lines, k);
    } else if !Contains(content, NEW_MARKER) {
      NormalizeWithoutOldLine(content);
    }
  }

  /**
   * The lines of the normalised text: when the new marker is absent and `k`
   * is the first line that mentions the old one, the derived line follows
   * line `k` and nothing else changes.
   */
  lemma NormalizeLines(content: string, k: nat)
    requires !Contains(content, NEW_MARKER)
    requires k < |Split(content)| && MentionsOld(Split(content)[k])
    requires forall j :: 0 <= j < k ==> !MentionsOld(Split(content)[j])
    ensures Split(NormalizeImports(content))
         == Split(content)[..k + 1] + [Retarget(Split(content)[k])] + Split(content)[k + 1..]
  {
    var lines := Split(content);
    InsertAfterFirst(lines, k);
    var r := InsertImport(lines);
    RetargetKeepsLine(lines[k]);
    assert forall i :: 0 <= i < |r| ==> '\n' !in r[i] by {
      forall i | 0 <= i < |r| ensures '\n' !in r[i] {
        if i > k + 1 {
          assert r[i] == lines[i - 1];
        } else if i < k + 1 {
          assert r[i] == lines[i];
        }
      }
    }
    SplitJoin(r);
  }
}
