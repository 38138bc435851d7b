/**
 * The offset mapping of the Stanford parser wrapper: for a sentence, an ordered list
 * of range maps that translate character offsets in the whitespace-depleted sentence
 * back to offsets in the sentence itself.
 */
module StanfordParser {
  import opened WhitespacePattern

  /**
   * One range map: offsets d with begin <= d < end of the depleted sentence
   * correspond to offset d + delta of the sentence.
   */
  datatype DeltaRangeMap = DeltaRangeMap(begin: int, end: int, delta: int)

  /** Where the stretch of text after run k stops: the next run's start, or the end of s. */
  function GapEnd(s: string, rs: seq<Run>, k: nat): nat
    requires k < |rs|
  {
    if k + 1 < |rs| then rs[k + 1].start else |s|
  }

  /**
   * The range map that belongs to the k-th whitespace run of s, described by what its
   * numbers mean rather than by how the loop reaches them: it begins at the run's start
   * less the whitespace before it (where the run's start lands in the depleted
   * sentence), ends likewise at the next run's start (or the end of s), and its delta
   * is the number of whitespace characters up to the end of the run.
   */
  function Interval(s: string, k: nat): DeltaRangeMap
    requires k < |Runs(s)|
  {
    var rs := Runs(s);
    var g := GapEnd(s, rs, k);
    DeltaRangeMap(rs[k].start - WhitespaceBefore(s, rs[k].start),
                  g - WhitespaceBefore(s, g),
                  WhitespaceBefore(s, rs[k].end))
  }

  /** The mapping of s: one range map per whitespace run, in the order of the runs. */
  function Mapping(s: string): seq<DeltaRangeMap>
  {
    seq(|Runs(s)|, k requires 0 <= k < |Runs(s)| => Interval(s, k))
  }

  /** The first range map begins where the first run begins and its delta is that run's length. */
  lemma FirstInterval(s: string)
    requires Runs(s) != []
    ensures Interval(s, 0).begin == Runs(s)[0].start
    ensures Interval(s, 0).delta == Runs(s)[0].end - Runs(s)[0].start
  {
    var r := Runs(s)[0];
    RunsShape(s);
    CountOverText(s, 0, r.start);
    CountOverRun(s, r.start, r.end);
  }

  /**
   * A range map that is followed by another ends at the next run's start minus its
   * own delta, is non-empty, and the next one begins where it ends with a delta
   * larger by the next run's length.
   */
  lemma NextInterval(s: string, k: nat)
    requires k + 1 < |Runs(s)|
    ensures Interval(s, k).end == Runs(s)[k + 1].start - Interval(s, k).delta
    ensures Interval(s, k).begin < Interval(s, k).end
    ensures Interval(s, k + 1).begin == Interval(s, k).end
    ensures Interval(s, k + 1).delta == Interval(s, k).delta + (Runs(s)[k + 1].end - Runs(s)[k + 1].start)
  {
    var rs := Runs(s);
    RunsShape(s);
    var r, n := rs[k], rs[k + 1];
    assert rs[k + 1 - 1] == r;
    CountOverText(s, r.end, n.start);
    CountOverRun(s, n.start, n.end);
    CountOverRun(s, r.start, r.end);
  }

  /**
   * The last range map ends at the length of the depleted sentence, which is the
   * sentence's length minus the last delta; that delta is the number of whitespace
   * characters in the whole sentence.
   */
  lemma LastInterval(s: string)
    requires Runs(s) != []
    ensures Interval(s, |Runs(s)| - 1).end == |s| - Interval(s, |Runs(s)| - 1).delta
    ensures Interval(s, |Runs(s)| - 1).end == |Deplete(s)|
    ensures Interval(s, |Runs(s)| - 1).delta == WhitespaceBefore(s, |s|)
    ensures Interval(s, |Runs(s)| - 1).begin <= Interval(s, |Runs(s)| - 1).end
  {
    var rs := Runs(s);
    var k := |rs| - 1;
    RunsShape(s);
    var r := rs[k];
    CountOverText(s, r.end, |s|);
    CountOverRun(s, r.start, r.end);
  }

  /** A list with the range map of every run, in order, is the mapping. */
  lemma MappingByIntervals(s: string, m: seq<DeltaRangeMap>)
    requires |m| == |Runs(s)|
    requires forall k :: 0 <= k < |m| ==> m[k] == Interval(s, k)
    ensures m == Mapping(s)
  {
  }

  /**
   * createMapping: scans the sentence for successive matches of `\s+`, keeps one open
   * range map whose end is not yet known, closes it when the next match is found and
   * opens the next one, and finally closes the trailing one at the depleted length.
   */
  method CreateMapping(sentence: string) returns (mapping: seq<DeltaRangeMap>)
    ensures mapping == Mapping(sentence)
  {
    ghost var rs := Runs(sentence);
    mapping := [];
    var open: Option<DeltaRangeMap> := None;
    var pos: nat := 0;
    ghost var n: nat := 0;
    RunsResume(sentence, 0);
    var found := NextRun(sentence, pos);
    while found.Some?
      invariant n <= |rs| && pos == ResumeAt(sentence, n)
      invariant found == if n < |rs| then Some(rs[n]) else None
      invariant open.None? <==> n == 0
      invariant open.None? ==> mapping == []
      invariant open.Some? ==>
        && |mapping| == n - 1
        && open.value.begin == Interval(sentence, n - 1).begin
        && open.value.delta == Interval(sentence, n - 1).delta
      invariant forall k :: 0 <= k < |mapping| ==> mapping[k] == Interval(sentence, k)
      decreases |rs| - n
    {
      var start, end := found.value.start, found.value.end;
      var length := end - start;
      if open.None? {
        FirstInterval(sentence);
        open := Some(DeltaRangeMap(start, 0, length));
      } else {
        NextInterval(sentence, n - 1);
        var closed := open.value.(end := start - open.value.delta);
        mapping := mapping + [closed];
        open := Some(DeltaRangeMap(closed.end, 0, closed.delta + length));
      }
      pos := end;
      n := n + 1;
      RunsResume(sentence, n);
      found := NextRun(sentence, pos);
    }
    if open.Some? {
      LastInterval(sentence);
      mapping := mapping + [open.value.(end := |sentence| - open.value.delta)];
    }
    MappingByIntervals(sentence, mapping);
  }
}
