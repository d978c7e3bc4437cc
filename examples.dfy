/**
 * The renamer on concrete references, as the codemod's pattern and table
 * treat them.
 */
module Examples {
  import opened Renamer

  /**
   * `spacingXL` captures only `X` (the `L` is not lowercase), which falls
   * back to `x`; the `L` is copied: the table's `XL` entry is never used.
   */
  lemma SpacingXL()
    ensures Rewrite(OLD_PREFIX, SPACING_MAP, "AppConstants.spacingXL") == "AppSpacing.xL"
  {
    var s := "AppConstants.spacingXL";
    assert MatchesAt(OLD_PREFIX, s, 0);
    assert MatchEnd(OLD_PREFIX, s, 0) == 21;
    assert CaptureAt(OLD_PREFIX, s, 0) == "X";
    assert MapSuffix(SPACING_MAP, "X") == "x";
    assert s[21..] == "L";
    assert Rewrite(OLD_PREFIX, SPACING_MAP, "L") == "L";
  }

  /** A suffix that is a key of the table takes the table's identifier. */
  lemma SpacingXl()
    ensures Rewrite(OLD_PREFIX, SPACING_MAP, "AppConstants.spacingXl") == "AppSpacing.xxl"
  {
    var s := "AppConstants.spacingXl";
    assert MatchesAt(OLD_PREFIX, s, 0);
    assert MatchEnd(OLD_PREFIX, s, 0) == 22;
    assert CaptureAt(OLD_PREFIX, s, 0) == "Xl";
    assert MapSuffix(SPACING_MAP, "Xl") == "xxl";
    assert s[22..] == "";
  }

  /** A suffix outside the table is lower-cased. */
  lemma SpacingHuge()
    ensures Rewrite(OLD_PREFIX, SPACING_MAP, "AppConstants.spacingHuge") == "AppSpacing.huge"
  {
    var s := "AppConstants.spacingHuge";
    assert MatchesAt(OLD_PREFIX, s, 0);
    assert LowerRunEnd(s, 24) == 24;
    assert IsLower(s[23]) && LowerRunEnd(s, 23) == 24;
    assert IsLower(s[22]) && LowerRunEnd(s, 22) == 24;
    assert IsLower(s[21]) && LowerRunEnd(s, 21) == 24;
    assert MatchEnd(OLD_PREFIX, s, 0) == 24;
    assert CaptureAt(OLD_PREFIX, s, 0) == "Huge";
    assert MapSuffix(SPACING_MAP, "Huge") == "huge";
    assert s[24..] == "";
  }

  /** A single reference with the suffix `M`. */
  lemma SpacingM()
    ensures Rewrite(OLD_PREFIX, SPACING_MAP, "AppConstants.spacingM") == "AppSpacing.md"
  {
    var s := "AppConstants.spacingM";
    assert MatchesAt(OLD_PREFIX, s, 0);
    assert MatchEnd(OLD_PREFIX, s, 0) == 21;
    assert CaptureAt(OLD_PREFIX, s, 0) == "M";
    assert MapSuffix(SPACING_MAP, "M") == "md";
    assert s[21..] == "";
  }

  /** The suffix `L` takes the table's `lg`. */
  lemma SpacingL()
    ensures Rewrite(OLD_PREFIX, SPACING_MAP, "AppConstants.spacingL") == "AppSpacing.lg"
  {
    var s := "AppConstants.spacingL";
    assert MatchesAt(OLD_PREFIX, s, 0);
    assert MatchEnd(OLD_PREFIX, s, 0) == 21;
    assert CaptureAt(OLD_PREFIX, s, 0) == "L";
    assert MapSuffix(SPACING_MAP, "L") == "lg";
    assert s[21..] == "";
  }

  /** The suffix `S` takes the table's `sm`. */
  lemma SpacingS()
    ensures Rewrite(OLD_PREFIX, SPACING_MAP, "AppConstants.spacingS") == "AppSpacing.sm"
  {
    var s := "AppConstants.spacingS";
    assert MatchesAt(OLD_PREFIX, s, 0);
    assert MatchEnd(OLD_PREFIX, s, 0) == 21;
    assert CaptureAt(OLD_PREFIX, s, 0) == "S";
    assert MapSuffix(SPACING_MAP, "S") == "sm";
    assert s[21..] == "";
  }

  /** The suffix `Xs` takes the table's `xs`. */
  lemma SpacingXs()
    ensures Rewrite(OLD_PREFIX, SPACING_MAP, "AppConstants.spacingXs") == "AppSpacing.xs"
  {
    var s := "AppConstants.spacingXs";
    assert MatchesAt(OLD_PREFIX, s, 0);
    assert MatchEnd(OLD_PREFIX, s, 0) == 22;
    assert CaptureAt(OLD_PREFIX, s, 0) == "Xs";
    assert MapSuffix(SPACING_MAP, "Xs") == "xs";
    assert s[22..] == "";
  }
}
