/**
 * The regular expression `\s+` as Java's java.util.regex understands it, and the
 * successive matches a `Matcher.find()` loop reports over a sentence, together with
 * the "whitespace-depleted" copy of a sentence (every whitespace character removed).
 */
module WhitespacePattern {

  datatype Option<T> = None | Some(value: T)

  /**
   * Java's predefined class `\s` (without UNICODE_CHARACTER_CLASS): [ \t\n\x0B\f\r].
   * It is ASCII only: the space and the control characters from tab to carriage return.
   */
  predicate IsWhitespace(c: char): (b: bool)
    ensures b <==> c == ' ' || '\t' <= c <= '\r'
  {
    c == ' ' || c == '\t' || c == '\n' || c == '\U{000B}' || c == '\U{000C}' || c == '\r'
  }

  /** No whitespace character in s[i..j]. */
  predicate NoWhitespaceIn(s: string, i: nat, j: nat)
    requires i <= j <= |s|
  {
    forall k :: i <= k < j ==> !IsWhitespace(s[k])
  }

  /** Every character in s[i..j] is whitespace. */
  predicate AllWhitespaceIn(s: string, i: nat, j: nat)
    requires i <= j <= |s|
  {
    forall k :: i <= k < j ==> IsWhitespace(s[k])
  }

  /** The number of whitespace characters among the first i characters of s. */
  function WhitespaceBefore(s: string, i: nat): (n: nat)
    requires i <= |s|
    ensures n <= i
  {
    if i == 0 then 0
    else WhitespaceBefore(s, i - 1) + (if IsWhitespace(s[i - 1]) then 1 else 0)
  }

  /** The first i characters of s with every whitespace character removed. */
  function DepletedPrefix(s: string, i: nat): string
    requires i <= |s|
  {
    if i == 0 then []
    else DepletedPrefix(s, i - 1) + (if IsWhitespace(s[i - 1]) then [] else [s[i - 1]])
  }

  /**
   * The whitespace-depleted copy of s: s with every whitespace character removed. It
   * holds no whitespace, and it is shorter than s by exactly the whitespace count of s.
   */
  function Deplete(s: string): (d: string)
    ensures |d| + WhitespaceBefore(s, |s|) == |s|
    ensures forall k :: 0 <= k < |d| ==> !IsWhitespace(d[k])
  {
    DepletedPrefixLength(s, |s|);
    DepletedPrefixHasNoWhitespace(s, |s|);
    DepletedPrefix(s, |s|)
  }

  /** Removing whitespace shortens a prefix by exactly the number of whitespace characters in it. */
  lemma {:induction false} DepletedPrefixLength(s: string, i: nat)
    requires i <= |s|
    ensures |DepletedPrefix(s, i)| == i - WhitespaceBefore(s, i)
  {
    if i > 0 {
      DepletedPrefixLength(s, i - 1);
    }
  }

  /** The depleted copy contains no whitespace at all. */
  lemma {:induction false} DepletedPrefixHasNoWhitespace(s: string, i: nat)
    requires i <= |s|
    ensures forall k :: 0 <= k < |DepletedPrefix(s, i)| ==> !IsWhitespace(DepletedPrefix(s, i)[k])
  {
    if i > 0 {
      DepletedPrefixHasNoWhitespace(s, i - 1);
    }
  }

  /** A prefix without whitespace is its own depleted copy. */
  lemma {:induction false} DepletedPrefixIdentity(s: string, i: nat)
    requires i <= |s| && NoWhitespaceIn(s, 0, i)
    ensures DepletedPrefix(s, i) == s[..i]
  {
    if i > 0 {
      DepletedPrefixIdentity(s, i - 1);
      assert s[..i - 1] + [s[i - 1]] == s[..i];
    }
  }

  /** Depleting a shorter prefix gives a prefix of depleting a longer one. */
  lemma {:induction false} DepletedPrefixGrows(s: string, i: nat, j: nat)
    requires i <= j <= |s|
    ensures DepletedPrefix(s, i) <= DepletedPrefix(s, j)
    decreases j - i
  {
    if i < j {
      DepletedPrefixGrows(s, i, j - 1);
    }
  }

  /**
   * A non-whitespace character at offset p of s sits, in the depleted copy, at offset
   * p less the number of whitespace characters before it.
   */
  lemma DepleteAt(s: string, p: nat)
    requires p < |s| && !IsWhitespace(s[p])
    ensures p - WhitespaceBefore(s, p) < |Deplete(s)|
    ensures Deplete(s)[p - WhitespaceBefore(s, p)] == s[p]
  {
    DepletedPrefixLength(s, p);
    assert DepletedPrefix(s, p + 1) == DepletedPrefix(s, p) + [s[p]];
    DepletedPrefixGrows(s, p + 1, |s|);
  }

  /** A stretch without whitespace adds nothing to the whitespace count. */
  lemma {:induction false} CountOverText(s: string, i: nat, j: nat)
    requires i <= j <= |s| && NoWhitespaceIn(s, i, j)
    ensures WhitespaceBefore(s, j) == WhitespaceBefore(s, i)
    decreases j - i
  {
    if i < j {
      CountOverText(s, i, j - 1);
    }
  }

  /** A stretch of whitespace adds its length to the whitespace count. */
  lemma {:induction false} CountOverRun(s: string, i: nat, j: nat)
    requires i <= j <= |s| && AllWhitespaceIn(s, i, j)
    ensures WhitespaceBefore(s, j) == WhitespaceBefore(s, i) + (j - i)
    decreases j - i
  {
    if i < j {
      CountOverRun(s, i, j - 1);
    }
  }

  /** One match of `\s+`: the half-open character range [start, end) of the sentence. */
  datatype Run = Run(start: nat, end: nat)

  /** A maximal run of whitespace: non-empty, all whitespace, and not extendable on either side. */
  predicate IsMaximalRun(s: string, r: Run) {
    && r.start < r.end <= |s|
    && AllWhitespaceIn(s, r.start, r.end)
    && (r.start == 0 || !IsWhitespace(s[r.start - 1]))
    && (r.end == |s| || !IsWhitespace(s[r.end]))
  }

  /** Where the greedy `\s+` match that begins at offset i stops. */
  function RunEnd(s: string, i: nat): (e: nat)
    requires i <= |s|
    ensures i <= e <= |s|
    ensures AllWhitespaceIn(s, i, e)
    ensures e == |s| || !IsWhitespace(s[e])
    decreases |s| - i
  {
    if i < |s| && IsWhitespace(s[i]) then RunEnd(s, i + 1) else i
  }

  /**
   * `Matcher.find()` for `\s+` resumed at offset `from`: the leftmost match at or
   * after `from`, extended greedily, or None when no whitespace remains.
   */
  function NextRun(s: string, from: nat): (r: Option<Run>)
    requires from <= |s|
    ensures r.None? ==> NoWhitespaceIn(s, from, |s|)
    ensures r.Some? ==>
      && from <= r.value.start < r.value.end <= |s|
      && NoWhitespaceIn(s, from, r.value.start)
      && AllWhitespaceIn(s, r.value.start, r.value.end)
      && (r.value.end == |s| || !IsWhitespace(s[r.value.end]))
    decreases |s| - from
  {
    if from == |s| then None
    else if IsWhitespace(s[from]) then Some(Run(from, RunEnd(s, from)))
    else NextRun(s, from + 1)
  }

  /**
   * `find()` is determined by what it promises: if [a, b) is the leftmost maximal
   * run at or after `from`, that is the match it reports.
   */
  lemma {:induction false} NextRunIsLeftmostRun(s: string, from: nat, a: nat, b: nat)
    requires from <= a < b <= |s|
    requires NoWhitespaceIn(s, from, a) && AllWhitespaceIn(s, a, b)
    requires b == |s| || !IsWhitespace(s[b])
    ensures NextRun(s, from) == Some(Run(a, b))
    decreases a - from
  {
    if from < a {
      NextRunIsLeftmostRun(s, from + 1, a, b);
    } else {
      RunEndIsRunEnd(s, a, b);
    }
  }

  /** The greedy match that begins at a stops at the first non-whitespace character after it. */
  lemma {:induction false} RunEndIsRunEnd(s: string, a: nat, b: nat)
    requires a <= b <= |s| && AllWhitespaceIn(s, a, b)
    requires b == |s| || !IsWhitespace(s[b])
    ensures RunEnd(s, a) == b
    decreases b - a
  {
    if a < b {
      RunEndIsRunEnd(s, a + 1, b);
    }
  }

  /** `find()` reports nothing exactly when no whitespace is left after `from`. */
  lemma NextRunNoneIff(s: string, from: nat)
    requires from <= |s|
    ensures NextRun(s, from).None? <==> NoWhitespaceIn(s, from, |s|)
  {
    if NextRun(s, from).Some? {
      assert IsWhitespace(s[NextRun(s, from).value.start]);
    }
  }

  /** The matches a `while (matcher.find())` loop reports when resumed at `from`. */
  function RunsFrom(s: string, from: nat): (rs: seq<Run>)
    requires from <= |s|
    ensures forall k :: 0 <= k < |rs| ==> from <= rs[k].start < rs[k].end <= |s|
    decreases |s| - from
  {
    match NextRun(s, from)
    case None => []
    case Some(r) => [r] + RunsFrom(s, r.end)
  }

  /**
   * All matches of `\s+` in s, left to right: each one is a non-empty range of
   * offsets of s, and none begins before the previous one ends.
   */
  function Runs(s: string): (rs: seq<Run>)
    ensures forall k :: 0 <= k < |rs| ==> rs[k].start < rs[k].end <= |s|
    ensures forall i, j :: 0 <= i && j == i + 1 && j < |rs| ==> rs[i].end <= rs[j].start
  {
    RunsFromGaps(s, 0);
    RunsFrom(s, 0)
  }

  /**
   * Resuming the matcher where the n-th match found from `from` ended (at `from` itself
   * when n is 0) reports the next match, or nothing after the last one.
   */
  lemma {:induction false} RunsFromResume(s: string, from: nat, n: nat)
    requires from <= |s| && n <= |RunsFrom(s, from)|
    ensures var at := if n == 0 then from else RunsFrom(s, from)[n - 1].end;
      at <= |s| &&
      NextRun(s, at) == if n < |RunsFrom(s, from)| then Some(RunsFrom(s, from)[n]) else None
    decreases |s| - from
  {
    match NextRun(s, from)
    case None =>
    case Some(r) =>
      var tail := RunsFrom(s, r.end);
      assert RunsFrom(s, from) == [r] + tail;
      if n > 0 {
        RunsFromResume(s, r.end, n - 1);
      }
  }

  /** Where the matcher stands after reporting n matches of `\s+` in s. */
  function ResumeAt(s: string, n: nat): (at: nat)
    requires n <= |Runs(s)|
    ensures at <= |s|
  {
    if n == 0 then 0 else Runs(s)[n - 1].end
  }

  /** After n matches, `find()` reports match n, or nothing once every match has been reported. */
  lemma RunsResume(s: string, n: nat)
    requires n <= |Runs(s)|
    ensures NextRun(s, ResumeAt(s, n)) == if n < |Runs(s)| then Some(Runs(s)[n]) else None
  {
    RunsFromResume(s, 0, n);
  }

  /** `from` is a place where a maximal run can not continue from the left. */
  predicate AtBoundary(s: string, from: nat)
    requires from <= |s|
  {
    from == 0 || from == |s| || !IsWhitespace(s[from])
  }

  /**
   * Matches found from a boundary leave no whitespace before the first one (or none
   * at all when there is no match) and none after the last one.
   */
  lemma {:induction false} RunsFromEdges(s: string, from: nat)
    requires from <= |s| && AtBoundary(s, from)
    ensures var rs := RunsFrom(s, from);
      && (rs == [] ==> NoWhitespaceIn(s, from, |s|))
      && (rs != [] ==> from <= rs[0].start <= |s| && NoWhitespaceIn(s, from, rs[0].start))
      && (rs != [] ==> rs[|rs| - 1].end <= |s| && NoWhitespaceIn(s, rs[|rs| - 1].end, |s|))
    decreases |s| - from
  {
    match NextRun(s, from)
    case None =>
    case Some(r) =>
      var tail := RunsFrom(s, r.end);
      assert RunsFrom(s, from) == [r] + tail;
      RunsFromEdges(s, r.end);
  }

  /** Every match found from a boundary is a maximal run lying at or after `from`. */
  lemma {:induction false} RunsFromMaximal(s: string, from: nat)
    requires from <= |s| && AtBoundary(s, from)
    ensures forall k :: 0 <= k < |RunsFrom(s, from)| ==>
      from <= RunsFrom(s, from)[k].start && IsMaximalRun(s, RunsFrom(s, from)[k])
    decreases |s| - from
  {
    match NextRun(s, from)
    case None =>
    case Some(r) =>
      var rs := RunsFrom(s, from);
      var tail := RunsFrom(s, r.end);
      assert rs == [r] + tail;
      RunsFromMaximal(s, r.end);
      assert r.start == from ==> from == 0;
      assert IsMaximalRun(s, r);
      forall k | 0 < k < |rs| ensures from <= rs[k].start && IsMaximalRun(s, rs[k]) {
        assert rs[k] == tail[k - 1];
      }
  }

  /** Matches found from a boundary come in strictly increasing order. */
  lemma {:induction false} RunsFromOrdered(s: string, from: nat)
    requires from <= |s| && AtBoundary(s, from)
    ensures forall i, j :: 0 <= i < j < |RunsFrom(s, from)| ==>
      RunsFrom(s, from)[i].end < RunsFrom(s, from)[j].start
    decreases |s| - from
  {
    match NextRun(s, from)
    case None =>
      assert RunsFrom(s, from) == [];
    case Some(r) =>
      var rs := RunsFrom(s, from);
      var tail := RunsFrom(s, r.end);
      assert rs == [r] + tail;
      RunsFromOrdered(s, r.end);
      RunsFromMaximal(s, r.end);
      forall i, j | 0 <= i < j < |rs| ensures rs[i].end < rs[j].start {
        assert rs[j] == tail[j - 1];
        if 0 < i {
          assert rs[i] == tail[i - 1];
        } else {
          assert IsWhitespace(s[tail[j - 1].start]);
        }
      }
  }

  /** Between two consecutive matches found from a boundary there is no whitespace. */
  lemma {:induction false} RunsFromGaps(s: string, from: nat)
    requires from <= |s| && AtBoundary(s, from)
    ensures forall i, j :: 0 <= i && j == i + 1 && j < |RunsFrom(s, from)| ==>
      && RunsFrom(s, from)[i].end <= RunsFrom(s, from)[j].start <= |s|
      && NoWhitespaceIn(s, RunsFrom(s, from)[i].end, RunsFrom(s, from)[j].start)
    decreases |s| - from
  {
    match NextRun(s, from)
    case None =>
      assert RunsFrom(s, from) == [];
    case Some(r) =>
      var rs := RunsFrom(s, from);
      var tail := RunsFrom(s, r.end);
      assert rs == [r] + tail;
      RunsFromGaps(s, r.end);
      RunsFromEdges(s, r.end);
      forall i, j | 0 <= i && j == i + 1 && j < |rs|
        ensures rs[i].end <= rs[j].start <= |s| && NoWhitespaceIn(s, rs[i].end, rs[j].start)
      {
        assert rs[j] == tail[j - 1];
        if 0 < i {
          assert rs[i] == tail[i - 1];
        }
      }
  }

  /** The whole shape of the matches of `\s+` in s, for the lemmas about the mapping. */
  lemma RunsShape(s: string)
    ensures Runs(s) == [] ==> NoWhitespaceIn(s, 0, |s|)
    ensures Runs(s) != [] ==> Runs(s)[0].start <= |s| && NoWhitespaceIn(s, 0, Runs(s)[0].start)
    ensures Runs(s) != [] ==>
      Runs(s)[|Runs(s)| - 1].end <= |s| && NoWhitespaceIn(s, Runs(s)[|Runs(s)| - 1].end, |s|)
    ensures forall k :: 0 <= k < |Runs(s)| ==> IsMaximalRun(s, Runs(s)[k])
    ensures forall i, j :: 0 <= i && j == i + 1 && j < |Runs(s)| ==>
      && Runs(s)[i].end <= Runs(s)[j].start <= |s|
      && NoWhitespaceIn(s, Runs(s)[i].end, Runs(s)[j].start)
  {
    RunsFromEdges(s, 0);
    RunsFromMaximal(s, 0);
    RunsFromGaps(s, 0);
  }

  /** Every match of `\s+` in s is a maximal whitespace run, and they come in strictly increasing order. */
  lemma RunsAreMaximal(s: string)
    ensures forall k :: 0 <= k < |Runs(s)| ==> IsMaximalRun(s, Runs(s)[k])
    ensures forall i, j :: 0 <= i < j < |Runs(s)| ==> Runs(s)[i].end < Runs(s)[j].start
  {
    RunsFromMaximal(s, 0);
    RunsFromOrdered(s, 0);
  }

  /** Every whitespace character of s lies inside one of the matches: no maximal run is missed. */
  lemma RunsCoverWhitespace(s: string, p: nat)
    requires p < |s| && IsWhitespace(s[p])
    ensures exists k :: 0 <= k < |Runs(s)| && Runs(s)[k].start <= p < Runs(s)[k].end
  {
    var rs := Runs(s);
    RunsFromEdges(s, 0);
    RunsFromGaps(s, 0);
    assert rs != [];
    var k := 0;
    while rs[k].end <= p
      invariant 0 <= k < |rs| && rs[k].start <= p
      decreases |rs| - k
    {
      if k + 1 == |rs| {
        assert false;
      }
      k := k + 1;
    }
  }

  /** Conversely, every maximal whitespace run of s is one of the matches. */
  lemma EveryMaximalRunIsAMatch(s: string, r: Run)
    requires IsMaximalRun(s, r)
    ensures exists k :: 0 <= k < |Runs(s)| && Runs(s)[k] == r
  {
    assert IsWhitespace(s[r.start]);
    RunsCoverWhitespace(s, r.start);
    RunsAreMaximal(s);
    var k :| 0 <= k < |Runs(s)| && Runs(s)[k].start <= r.start < Runs(s)[k].end;
    var m := Runs(s)[k];
    assert m.start == r.start;
    assert m.end == r.end;
  }

  /** s has no match at all exactly when it contains no whitespace character. */
  lemma RunsEmptyIff(s: string)
    ensures Runs(s) == [] <==> NoWhitespaceIn(s, 0, |s|)
  {
    RunsFromEdges(s, 0);
    RunsFromMaximal(s, 0);
    if Runs(s) != [] {
      assert IsWhitespace(s[Runs(s)[0].start]);
    }
  }
}
