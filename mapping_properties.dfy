/**
 * What the mapping built by createMapping promises its users: its shape (one range
 * map per whitespace run, contiguous, growing deltas, ending at the depleted length)
 * and the character-level round trip between the depleted sentence and the sentence.
 */
module MappingProperties {
  import opened WhitespacePattern
  import opened StanfordParser

  /**
   * A sentence without whitespace (the empty sentence among them) gets the empty
   * mapping, and the empty mapping means the identity: the depleted copy is the sentence.
   */
  lemma MappingEmptyIff(s: string)
    ensures Mapping(s) == [] <==> NoWhitespaceIn(s, 0, |s|)
    ensures Mapping(s) == [] ==> Deplete(s) == s
  {
    RunsEmptyIff(s);
    if Mapping(s) == [] {
      DepletedPrefixIdentity(s, |s|);
    }
  }

  /** The first range map begins at the first run's start and its delta is that run's length. */
  lemma MappingFirst(s: string)
    requires Mapping(s) != []
    ensures Mapping(s)[0].begin == Runs(s)[0].start
    ensures Mapping(s)[0].delta == Runs(s)[0].end - Runs(s)[0].start
  {
    FirstInterval(s);
  }

  /** Range maps are contiguous: each begins where the previous one ends. */
  lemma MappingContiguous(s: string)
    ensures forall i, j :: 0 <= i && j == i + 1 && j < |Mapping(s)| ==>
      Mapping(s)[j].begin == Mapping(s)[i].end
  {
  }

  /**
   * Deltas grow strictly: each is the previous one plus the length of its own run, so
   * the last one is the number of whitespace characters in the sentence.
   */
  lemma MappingDeltas(s: string)
    ensures forall i, j :: 0 <= i && j == i + 1 && j < |Mapping(s)| ==>
      && Mapping(s)[j].delta == Mapping(s)[i].delta + (Runs(s)[j].end - Runs(s)[j].start)
      && Mapping(s)[i].delta < Mapping(s)[j].delta
    ensures Mapping(s) != [] ==> Mapping(s)[|Mapping(s)| - 1].delta == WhitespaceBefore(s, |s|) == |s| - |Deplete(s)|
  {
    forall i, j | 0 <= i && j == i + 1 && j < |Mapping(s)|
      ensures Mapping(s)[j].delta == Mapping(s)[i].delta + (Runs(s)[j].end - Runs(s)[j].start)
    {
      NextInterval(s, i);
    }
    if Mapping(s) != [] {
      LastInterval(s);
    }
  }

  /**
   * Every range map but the last ends at the next run's start minus its delta and is
   * non-empty; the last ends at the length of the depleted sentence, the sentence's
   * length minus its delta, and is possibly empty.
   */
  lemma MappingEnds(s: string)
    ensures forall k :: 0 <= k < |Mapping(s)| - 1 ==>
      && Mapping(s)[k].end == Runs(s)[k + 1].start - Mapping(s)[k].delta
      && Mapping(s)[k].begin < Mapping(s)[k].end
    ensures Mapping(s) != [] ==>
      var last := Mapping(s)[|Mapping(s)| - 1];
      && last.end == |s| - last.delta == |Deplete(s)|
      && last.begin <= last.end
  {
    forall k | 0 <= k < |Mapping(s)| - 1
      ensures Mapping(s)[k].end == Runs(s)[k + 1].start - Mapping(s)[k].delta
      ensures Mapping(s)[k].begin < Mapping(s)[k].end
    {
      NextInterval(s, k);
    }
    if Mapping(s) != [] {
      LastInterval(s);
    }
  }

  /**
   * Round trip: inside a range map, offset d of the depleted sentence is the place
   * where the non-whitespace character at offset d + delta of the sentence lands, so
   * both hold the same character.
   */
  lemma MappingRoundTrip(s: string, k: nat, d: int)
    requires k < |Mapping(s)| && Mapping(s)[k].begin <= d < Mapping(s)[k].end
    ensures 0 <= d < |Deplete(s)| && d + Mapping(s)[k].delta < |s|
    ensures !IsWhitespace(s[d + Mapping(s)[k].delta])
    ensures d + Mapping(s)[k].delta - WhitespaceBefore(s, d + Mapping(s)[k].delta) == d
    ensures Deplete(s)[d] == s[d + Mapping(s)[k].delta]
  {
    var rs := Runs(s);
    RunsShape(s);
    var r := rs[k];
    var g := GapEnd(s, rs, k);
    if k + 1 < |rs| {
      assert rs[k + 1 - 1] == r;
    }
    assert NoWhitespaceIn(s, r.end, g);
    var delta := Mapping(s)[k].delta;
    CountOverRun(s, r.start, r.end);
    CountOverText(s, r.end, g);
    var p := d + delta;
    assert r.end <= p < g;
    CountOverText(s, r.end, p);
    DepleteAt(s, p);
  }

  /**
   * Offsets of the depleted sentence below the first range map (all of them when the
   * mapping is empty) map to themselves.
   */
  lemma MappingIdentityBelow(s: string, d: int)
    requires 0 <= d < |Deplete(s)|
    requires Mapping(s) == [] || d < Mapping(s)[0].begin
    ensures d < |s| && Deplete(s)[d] == s[d]
  {
    if Mapping(s) == [] {
      MappingEmptyIff(s);
    } else {
      FirstInterval(s);
      RunsShape(s);
      var start := Runs(s)[0].start;
      CountOverText(s, 0, d);
      DepleteAt(s, d);
    }
  }

  /** Range maps do not overlap: a later one begins no earlier than an earlier one ends. */
  lemma MappingDisjoint(s: string, i: nat, j: nat)
    requires i < j < |Mapping(s)|
    ensures Mapping(s)[i].end <= Mapping(s)[j].begin
  {
    var m := Mapping(s);
    MappingContiguous(s);
    MappingEnds(s);
    var k := i + 1;
    while k < j
      invariant i < k <= j
      invariant m[i].end <= m[k].begin
    {
      k := k + 1;
    }
  }

  /**
   * Coverage: from the first range map's begin up to the depleted length, every
   * offset of the depleted sentence lies in some range map.
   */
  lemma MappingCoverage(s: string, d: int)
    requires Mapping(s) != [] && Mapping(s)[0].begin <= d < |Deplete(s)|
    ensures exists k :: 0 <= k < |Mapping(s)| && Mapping(s)[k].begin <= d < Mapping(s)[k].end
  {
    var m := Mapping(s);
    MappingContiguous(s);
    MappingEnds(s);
    var k := 0;
    while m[k].end <= d
      invariant 0 <= k < |m| && m[k].begin <= d
      decreases |m| - k
    {
      k := k + 1;
    }
  }
}
