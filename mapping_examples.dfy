/**
 * The mapping worked out on three concrete sentences: two runs of different lengths,
 * leading whitespace, and no whitespace at all.
 */
module MappingExamples {
  import opened WhitespacePattern
  import opened StanfordParser
  import opened MappingProperties

  /** "The  quick   fox" has a run of two spaces at offset 3 and one of three at offset 10. */
  lemma QuickFoxRuns()
    ensures Runs("The  quick   fox") == [Run(3, 5), Run(10, 13)]
  {
    var s := "The  quick   fox";
    QuickFoxFinds();
    assert RunsFrom(s, 13) == [];
    assert RunsFrom(s, 5) == [Run(10, 13)];
  }

  /** The three calls of `find()` on "The  quick   fox". */
  lemma QuickFoxFinds()
    ensures NextRun("The  quick   fox", 0) == Some(Run(3, 5))
    ensures NextRun("The  quick   fox", 5) == Some(Run(10, 13))
    ensures NextRun("The  quick   fox", 13) == None
  {
    var s := "The  quick   fox";
    NextRunIsLeftmostRun(s, 0, 3, 5);
    NextRunIsLeftmostRun(s, 5, 10, 13);
    NextRunNoneIff(s, 13);
  }

  /** Whitespace seen before the run boundaries of "The  quick   fox". */
  lemma QuickFoxCounts()
    ensures WhitespaceBefore("The  quick   fox", 3) == 0
    ensures WhitespaceBefore("The  quick   fox", 5) == 2
    ensures WhitespaceBefore("The  quick   fox", 10) == 2
    ensures WhitespaceBefore("The  quick   fox", 13) == 5
    ensures WhitespaceBefore("The  quick   fox", 16) == 5
  {
    var s := "The  quick   fox";
    CountOverText(s, 0, 3);
    CountOverRun(s, 3, 5);
    CountOverText(s, 5, 10);
    CountOverRun(s, 10, 13);
    CountOverText(s, 13, 16);
  }

  /**
   * In "Thequickfox", offsets 0-2 map to themselves, offsets 3-7 ("quick") are shifted
   * by 2 and offsets 8-10 ("fox") by 5.
   */
  lemma QuickFoxMapping()
    ensures Mapping("The  quick   fox") == [DeltaRangeMap(3, 8, 2), DeltaRangeMap(8, 11, 5)]
  {
    var s := "The  quick   fox";
    QuickFoxRuns();
    QuickFoxCounts();
    var rs := Runs(s);
    assert GapEnd(s, rs, 0) == 10 && GapEnd(s, rs, 1) == 16;
    assert Interval(s, 0) == DeltaRangeMap(3, 8, 2);
    assert Interval(s, 1) == DeltaRangeMap(8, 11, 5);
    assert Mapping(s)[0] == Interval(s, 0);
    assert Mapping(s)[1] == Interval(s, 1);
  }

  /** "  leading" has a single run: the two spaces at its start. */
  lemma LeadingRuns()
    ensures Runs("  leading") == [Run(0, 2)]
  {
    var s := "  leading";
    LeadingFinds();
    assert RunsFrom(s, 2) == [];
  }

  /** The two calls of `find()` on "  leading". */
  lemma LeadingFinds()
    ensures NextRun("  leading", 0) == Some(Run(0, 2))
    ensures NextRun("  leading", 2) == None
  {
    var s := "  leading";
    NextRunIsLeftmostRun(s, 0, 0, 2);
    NextRunNoneIff(s, 2);
  }

  /** With two leading spaces, the single range map shifts all of "leading" by 2. */
  lemma LeadingMapping()
    ensures Mapping("  leading") == [DeltaRangeMap(0, 7, 2)]
  {
    var s := "  leading";
    LeadingRuns();
    CountOverRun(s, 0, 2);
    CountOverText(s, 2, 9);
    assert Interval(s, 0) == DeltaRangeMap(0, 7, 2);
    assert Mapping(s)[0] == Interval(s, 0);
  }

  /** Without whitespace the mapping is empty and the depleted sentence is the sentence. */
  lemma NoSpacesMapping()
    ensures Mapping("NoSpacesHere") == []
    ensures Deplete("NoSpacesHere") == "NoSpacesHere"
  {
    var s := "NoSpacesHere";
    assert NoWhitespaceIn(s, 0, |s|);
    MappingEmptyIff(s);
  }
}
