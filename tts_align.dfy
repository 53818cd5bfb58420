/**
 * The alignment step of the dataset builder (tts_align.py): a subtitle line
 * is merged into the current group while the `.seconds` reading of the time
 * from the group's start to the line's end is below `threshold` (any
 * whole-seconds reading can be given; SubRip.SecondsField is the one the
 * script uses), then every merged entry is turned into an audio slice and a
 * pair of output file names. Reading the .srt file, decoding, slicing and
 * exporting audio, and writing the text files are not modelled; only the
 * values handed to them are.
 */
module TtsAlign {
  import opened Outcomes
  import opened SubRip

  // ---------------------------------------------------------------------------
  // _datetime_to_seconds
  // ---------------------------------------------------------------------------

  /** Whole seconds since midnight of a time of day; the microseconds are dropped. */
  function DatetimeToSeconds(t: Time): (seconds: int)
    ensures ValidTime(t) ==> 0 <= seconds < 24 * 3600
  {
    t.hour * 3600 + t.minute * 60 + t.second
  }

  /** Reading a subtitle time through to_time and back gives its ordinal truncated to whole seconds. */
  lemma DatetimeToSecondsOfOrdinal(ordinal: int)
    requires 0 <= ordinal < MillisPerDay
    ensures ToTime(ordinal).Some?
    ensures DatetimeToSeconds(ToTime(ordinal).value) == ordinal / MillisPerSecond
  {
    var hour, inHour := ordinal / 3600000, ordinal % 3600000;
    var minute, inMinute := inHour / 60000, inHour % 60000;
    var second, millis := inMinute / 1000, inMinute % 1000;
    assert ordinal == 60000 * (60 * hour + minute) + inMinute;
    assert ordinal % 60000 == inMinute;
    assert ordinal == 1000 * (hour * 3600 + minute * 60 + second) + millis;
    assert ordinal / 1000 == hour * 3600 + minute * 60 + second;
  }

  /** Two valid times give the same number of seconds exactly when their hour, minute and second agree. */
  lemma DatetimeToSecondsInjective(a: Time, b: Time)
    requires ValidTime(a) && ValidTime(b)
    ensures DatetimeToSeconds(a) == DatetimeToSeconds(b)
        <==> a.hour == b.hour && a.minute == b.minute && a.second == b.second
  {
  }

  // ---------------------------------------------------------------------------
  // merge_lines, as a specification over values
  // ---------------------------------------------------------------------------

  /** An entry of merge_lines' result: the index of the input line that opened it, and its value. */
  datatype Group = Group(opener: nat, line: Line)

  /**
   * Line `next` is absorbed into the group whose current value is `g`: the
   * whole-seconds reading `seconds` of the time from the group's start to
   * the line's end is below `threshold`. In the source that reading is
   * pysrt's `.seconds` attribute of the difference (SubRip.SecondsField).
   */
  predicate Joins(g: Line, next: Line, threshold: int, seconds: int -> int)
  {
    Duration(g.start, next.end, seconds) < threshold
  }

  /** `duration` in merge_lines: the reading `seconds` of the time from `start` to `end`. */
  function Duration(start: int, end: int, seconds: int -> int): int
  {
    seconds(end - start)
  }

  /** Line `next` absorbed into group value `g`: its text follows after one space and it ends the group. */
  function Absorb(g: Line, next: Line): Line
  {
    Line(g.start, next.end, g.text + " " + next.text)
  }

  /**
   * The groups merge_lines forms from `lines`, scanning left to right: the
   * first line opens a group, and every later line is absorbed into the last
   * group or opens a new one.
   */
  function Groups(lines: seq<Line>, threshold: int, seconds: int -> int): (gs: seq<Group>)
    requires |lines| > 0
    ensures 1 <= |gs| <= |lines|
    decreases |lines|
  {
    if |lines| == 1 then [Group(0, lines[0])]
    else Feed(Groups(lines[..|lines| - 1], threshold, seconds), |lines| - 1, lines[|lines| - 1], threshold, seconds)
  }

  /**
   * One iteration of merge_lines on values: line `next`, at index `index`,
   * is absorbed into the last group or opens a new one.
   */
  function Feed(before: seq<Group>, index: nat, next: Line, threshold: int, seconds: int -> int): (gs: seq<Group>)
    requires |before| > 0
    ensures |gs| == |before| || |gs| == |before| + 1
  {
    var current := before[|before| - 1];
    if Joins(current.line, next, threshold, seconds) then
      before[..|before| - 1] + [Group(current.opener, Absorb(current.line, next))]
    else
      before + [Group(index, next)]
  }

  /** The values of a list of groups. */
  function Lines(gs: seq<Group>): seq<Line>
  {
    seq(|gs|, k requires 0 <= k < |gs| => gs[k].line)
  }

  /**
   * `" ".join(line.text for line in lines)`, the same join as
   * TextCleaners.Join, recursing from the right end as the merge loop appends.
   */
  function JoinText(lines: seq<Line>): string
  {
    if |lines| == 0 then ""
    else if |lines| == 1 then lines[0].text
    else JoinText(lines[..|lines| - 1]) + " " + lines[|lines| - 1].text
  }

  /** Index one past the last input line of group k. */
  function GroupEnd(gs: seq<Group>, k: nat, n: nat): nat
    requires k < |gs|
  {
    if k + 1 < |gs| then gs[k + 1].opener else n
  }

  /** The value a run of consecutive lines merges into. */
  function Combine(run: seq<Line>): Line
    requires |run| > 0
  {
    Line(run[0].start, run[|run| - 1].end, JoinText(run))
  }

  /** Group k is the run of lines from its opener up to the next group's opener. */
  ghost predicate IsRun(lines: seq<Line>, gs: seq<Group>, k: nat)
    requires k < |gs|
  {
    && gs[k].opener < GroupEnd(gs, k, |lines|) <= |lines|
    && gs[k].line == Combine(lines[gs[k].opener..GroupEnd(gs, k, |lines|)])
  }

  /**
   * Group k was formed by the merge rule: every later line in it joined the
   * group's opening line, and its own opening line did not join the group
   * before it.
   */
  ghost predicate IsDecided(lines: seq<Line>, gs: seq<Group>, k: nat, threshold: int, seconds: int -> int)
    requires k < |gs|
  {
    && gs[k].opener < GroupEnd(gs, k, |lines|) <= |lines|
    && (forall j :: gs[k].opener < j < GroupEnd(gs, k, |lines|) ==>
          Joins(lines[gs[k].opener], lines[j], threshold, seconds))
    && (0 < k ==> gs[k - 1].opener < |lines| &&
                  !Joins(lines[gs[k - 1].opener], lines[gs[k].opener], threshold, seconds))
  }

  /** Every group of `gs` is decided. */
  ghost predicate AllDecided(lines: seq<Line>, gs: seq<Group>, threshold: int, seconds: int -> int)
  {
    forall k :: 0 <= k < |gs| ==> IsDecided(lines, gs, k, threshold, seconds)
  }

  /**
   * The first group is opened by the first line, every group is opened by a
   * line of the input, and groups appear in the order of their opening lines.
   */
  ghost predicate OpenersOrdered(gs: seq<Group>, n: nat)
  {
    && |gs| > 0
    && gs[0].opener == 0
    && (forall k :: 0 <= k < |gs| ==> gs[k].opener < n)
    && (forall k, l :: 0 <= k < l < |gs| ==> gs[k].opener < gs[l].opener)
  }

  lemma JoinTextSnoc(s: seq<Line>, x: Line)
    requires |s| > 0
    ensures JoinText(s + [x]) == JoinText(s) + " " + x.text
  {
    assert (s + [x])[..|s|] == s;
  }

  /** Absorbing a line into the last entry appends its text to the joined text. */
  lemma JoinTextAbsorb(s: seq<Line>, g: Line, next: Line)
    ensures JoinText(s + [Absorb(g, next)]) == JoinText(s + [g]) + " " + next.text
  {
    if |s| > 0 {
      JoinTextSnoc(s, g);
      JoinTextSnoc(s, Absorb(g, next));
    }
  }

  lemma LinesSnoc(gs: seq<Group>, g: Group)
    ensures Lines(gs + [g]) == Lines(gs) + [g.line]
  {
  }

  lemma SliceOfPrefix(lines: seq<Line>, prefix: seq<Line>, a: nat, b: nat)
    requires |prefix| <= |lines| && prefix == lines[..|prefix|] && a <= b <= |prefix|
    ensures prefix[a..b] == lines[a..b]
  {
  }

  /** Appending a line to a run and merging equals merging the run and absorbing the line. */
  lemma CombineSnoc(run: seq<Line>, next: Line)
    requires |run| > 0
    ensures Combine(run + [next]) == Absorb(Combine(run), next)
  {
    JoinTextSnoc(run, next);
  }

  /** One step of Groups when the last line is absorbed into the last group. */
  lemma GroupsAbsorbs(lines: seq<Line>, threshold: int, seconds: int -> int)
    requires |lines| > 1
    requires var before := Groups(lines[..|lines| - 1], threshold, seconds);
             Joins(before[|before| - 1].line, lines[|lines| - 1], threshold, seconds)
    ensures var before := Groups(lines[..|lines| - 1], threshold, seconds);
            var current := before[|before| - 1];
            Groups(lines, threshold, seconds)
              == before[..|before| - 1] + [Group(current.opener, Absorb(current.line, lines[|lines| - 1]))]
  {
  }

  /** One step of Groups when the last line opens a new group. */
  lemma GroupsOpens(lines: seq<Line>, threshold: int, seconds: int -> int)
    requires |lines| > 1
    requires var before := Groups(lines[..|lines| - 1], threshold, seconds);
             !Joins(before[|before| - 1].line, lines[|lines| - 1], threshold, seconds)
    ensures Groups(lines, threshold, seconds)
              == Groups(lines[..|lines| - 1], threshold, seconds) + [Group(|lines| - 1, lines[|lines| - 1])]
  {
  }

  /** Groups opens its first group with the first line and keeps openers in input order. */
  lemma {:induction false} GroupsOpeners(lines: seq<Line>, threshold: int, seconds: int -> int)
    requires |lines| > 0
    ensures OpenersOrdered(Groups(lines, threshold, seconds), |lines|)
    decreases |lines|
  {
    var n := |lines|;
    if n > 1 {
      var before := Groups(lines[..n - 1], threshold, seconds);
      GroupsOpeners(lines[..n - 1], threshold, seconds);
      if Joins(before[|before| - 1].line, lines[n - 1], threshold, seconds) {
        GroupsAbsorbs(lines, threshold, seconds);
        OpenersAfterAbsorb(Groups(lines[..n - 1], threshold, seconds), Groups(lines, threshold, seconds), n - 1, lines[n - 1]);
      } else {
        GroupsOpens(lines, threshold, seconds);
        OpenersAfterOpen(Groups(lines[..n - 1], threshold, seconds), Groups(lines, threshold, seconds), n - 1, lines[n - 1]);
      }
    }
  }

  lemma OpenersAfterOpen(before: seq<Group>, gs: seq<Group>, n: nat, next: Line)
    requires OpenersOrdered(before, n)
    requires gs == before + [Group(n, next)]
    ensures OpenersOrdered(gs, n + 1)
  {
  }

  lemma OpenersAfterAbsorb(before: seq<Group>, gs: seq<Group>, n: nat, next: Line)
    requires |before| > 0 && OpenersOrdered(before, n)
    requires var current := before[|before| - 1];
             gs == before[..|before| - 1] + [Group(current.opener, Absorb(current.line, next))]
    ensures OpenersOrdered(gs, n + 1)
  {
    assert forall k :: 0 <= k < |gs| ==> gs[k].opener == before[k].opener;
  }

  /**
   * Joining the merged texts with single spaces gives the same string as
   * joining the input texts: no text is lost, duplicated or reordered.
   */
  lemma {:induction false} MergeKeepsText(lines: seq<Line>, threshold: int, seconds: int -> int)
    requires |lines| > 0
    ensures JoinText(Lines(Groups(lines, threshold, seconds))) == JoinText(lines)
    decreases |lines|
  {
    var n := |lines|;
    if n > 1 {
      var prefix := lines[..n - 1];
      var next := lines[n - 1];
      MergeKeepsText(prefix, threshold, seconds);
      assert lines == prefix + [next];
      JoinTextSnoc(prefix, next);
      var before := Groups(prefix, threshold, seconds);
      var current := before[|before| - 1];
      if Joins(current.line, next, threshold, seconds) {
        GroupsAbsorbs(lines, threshold, seconds);
        MergeTextAbsorbs(before, next);
      } else {
        GroupsOpens(lines, threshold, seconds);
        LinesSnoc(before, Group(n - 1, next));
        JoinTextSnoc(Lines(before), next);
      }
    }
  }

  lemma MergeTextAbsorbs(before: seq<Group>, next: Line)
    requires |before| > 0
    ensures var current := before[|before| - 1];
            JoinText(Lines(before[..|before| - 1] + [Group(current.opener, Absorb(current.line, next))]))
              == JoinText(Lines(before)) + " " + next.text
  {
    var current := before[|before| - 1];
    var earlier := before[..|before| - 1];
    assert before == earlier + [current];
    LinesSnoc(earlier, current);
    LinesSnoc(earlier, Group(current.opener, Absorb(current.line, next)));
    JoinTextAbsorb(Lines(earlier), current.line, next);
  }

  /**
   * Every merged entry is the run of input lines from its opening line up to
   * the next entry's opening line: it starts where its opening line starts,
   * ends where the last line absorbed into it ends, and its text joins the
   * run's texts with single spaces.
   */
  lemma {:induction false} GroupsAreRuns(lines: seq<Line>, threshold: int, seconds: int -> int)
    requires |lines| > 0
    ensures var gs := Groups(lines, threshold, seconds);
            forall k :: 0 <= k < |gs| ==> IsRun(lines, gs, k)
    decreases |lines|
  {
    var n := |lines|;
    if n == 1 {
      assert lines[0..1] == lines;
    } else {
      var prefix := lines[..n - 1];
      GroupsAreRuns(prefix, threshold, seconds);
      var before := Groups(prefix, threshold, seconds);
      if Joins(before[|before| - 1].line, lines[n - 1], threshold, seconds) {
        GroupsAbsorbs(lines, threshold, seconds);
        RunsAfterAbsorb(lines, prefix, Groups(prefix, threshold, seconds), Groups(lines, threshold, seconds));
      } else {
        GroupsOpens(lines, threshold, seconds);
        RunsAfterOpen(lines, prefix, Groups(prefix, threshold, seconds), Groups(lines, threshold, seconds));
      }
    }
  }

  lemma RunsAfterAbsorb(lines: seq<Line>, prefix: seq<Line>, before: seq<Group>, gs: seq<Group>)
    requires |lines| > 1 && |before| > 0 && prefix == lines[..|lines| - 1]
    requires forall k :: 0 <= k < |before| ==> IsRun(prefix, before, k)
    requires var current := before[|before| - 1];
             gs == before[..|before| - 1] + [Group(current.opener, Absorb(current.line, lines[|lines| - 1]))]
    ensures forall k :: 0 <= k < |gs| ==> IsRun(lines, gs, k)
  {
    var n, m := |lines|, |before|;
    var next, current := lines[n - 1], before[m - 1];
    assert IsRun(prefix, before, m - 1);
    assert lines[current.opener..n] == prefix[current.opener..n - 1] + [next];
    CombineSnoc(prefix[current.opener..n - 1], next);
    forall k | 0 <= k < m
      ensures IsRun(lines, gs, k)
    {
      assert IsRun(prefix, before, k);
      if k < m - 1 {
        var end := GroupEnd(before, k, n - 1);
        assert gs[k] == before[k] && GroupEnd(gs, k, n) == end <= n - 1;
        SliceOfPrefix(lines, prefix, before[k].opener, end);
      }
    }
  }

  lemma RunsAfterOpen(lines: seq<Line>, prefix: seq<Line>, before: seq<Group>, gs: seq<Group>)
    requires |lines| > 1 && |before| > 0 && prefix == lines[..|lines| - 1]
    requires forall k :: 0 <= k < |before| ==> IsRun(prefix, before, k)
    requires gs == before + [Group(|lines| - 1, lines[|lines| - 1])]
    ensures forall k :: 0 <= k < |gs| ==> IsRun(lines, gs, k)
  {
    var n, m := |lines|, |before|;
    forall k | 0 <= k < m + 1
      ensures IsRun(lines, gs, k)
    {
      if k < m {
        assert IsRun(prefix, before, k);
        assert gs[k] == before[k] && GroupEnd(gs, k, n) == GroupEnd(before, k, n - 1);
        SliceOfPrefix(lines, prefix, gs[k].opener, GroupEnd(gs, k, n));
      } else {
        assert lines[n - 1..n] == [lines[n - 1]];
      }
    }
  }

  /**
   * The merge decision, group by group: a line was absorbed into a group
   * exactly when it joins the group's opening line; otherwise it opened the
   * next group.
   */
  lemma {:induction false} GroupsDecisions(lines: seq<Line>, threshold: int, seconds: int -> int)
    requires |lines| > 0
    ensures var gs := Groups(lines, threshold, seconds);
            AllDecided(lines, gs, threshold, seconds)
    decreases |lines|
  {
    var n := |lines|;
    if n > 1 {
      var prefix := lines[..n - 1];
      GroupsDecisions(prefix, threshold, seconds);
      GroupsAreRuns(prefix, threshold, seconds);
      var before := Groups(prefix, threshold, seconds);
      assert IsRun(prefix, Groups(prefix, threshold, seconds), |before| - 1);
      if Joins(before[|before| - 1].line, lines[n - 1], threshold, seconds) {
        GroupsAbsorbs(lines, threshold, seconds);
        DecisionsAfterAbsorb(lines, prefix, Groups(prefix, threshold, seconds), Groups(lines, threshold, seconds), threshold, seconds);
      } else {
        GroupsOpens(lines, threshold, seconds);
        DecisionsAfterOpen(lines, prefix, Groups(prefix, threshold, seconds), Groups(lines, threshold, seconds), threshold, seconds);
      }
    }
  }

  lemma DecisionsAfterAbsorb(lines: seq<Line>, prefix: seq<Line>, before: seq<Group>, gs: seq<Group>, threshold: int, seconds: int -> int)
    requires |lines| > 1 && |before| > 0 && prefix == lines[..|lines| - 1]
    requires AllDecided(prefix, before, threshold, seconds)
    requires var current := before[|before| - 1];
             && current.opener < |lines| - 1
             && current.line.start == lines[current.opener].start
             && Joins(current.line, lines[|lines| - 1], threshold, seconds)
             && gs == before[..|before| - 1] + [Group(current.opener, Absorb(current.line, lines[|lines| - 1]))]
    ensures AllDecided(lines, gs, threshold, seconds)
  {
    var n, m := |lines|, |before|;
    forall k | 0 <= k < m
      ensures IsDecided(lines, gs, k, threshold, seconds)
    {
      assert IsDecided(prefix, before, k, threshold, seconds);
      assert gs[k].opener == before[k].opener;
      assert 0 < k ==> gs[k - 1].opener == before[k - 1].opener;
      if k < m - 1 {
        assert GroupEnd(gs, k, n) == GroupEnd(before, k, n - 1);
      } else {
        assert GroupEnd(before, k, n - 1) == n - 1;
      }
    }
  }

  lemma DecisionsAfterOpen(lines: seq<Line>, prefix: seq<Line>, before: seq<Group>, gs: seq<Group>, threshold: int, seconds: int -> int)
    requires |lines| > 1 && |before| > 0 && prefix == lines[..|lines| - 1]
    requires AllDecided(prefix, before, threshold, seconds)
    requires var current := before[|before| - 1];
             && current.opener < |lines| - 1
             && current.line.start == lines[current.opener].start
             && !Joins(current.line, lines[|lines| - 1], threshold, seconds)
             && gs == before + [Group(|lines| - 1, lines[|lines| - 1])]
    ensures AllDecided(lines, gs, threshold, seconds)
  {
    var n, m := |lines|, |before|;
    forall k | 0 <= k < m + 1
      ensures IsDecided(lines, gs, k, threshold, seconds)
    {
      if k < m {
        assert IsDecided(prefix, before, k, threshold, seconds);
        assert GroupEnd(gs, k, n) == GroupEnd(before, k, n - 1);
      }
    }
  }

  /**
   * With a threshold of zero or less and a reading that is never negative,
   * nothing is merged: the result is the input, one entry per line.
   */
  lemma {:induction false} NoMergeWithoutPositiveThreshold(lines: seq<Line>, threshold: int, seconds: int -> int)
    requires |lines| > 0
    requires threshold <= 0
    requires forall d :: 0 <= seconds(d)
    ensures Groups(lines, threshold, seconds)
            == seq(|lines|, k requires 0 <= k < |lines| => Group(k, lines[k]))
    ensures Lines(Groups(lines, threshold, seconds)) == lines
    decreases |lines|
  {
    var n := |lines|;
    if n > 1 {
      NoMergeWithoutPositiveThreshold(lines[..n - 1], threshold, seconds);
      GroupsOpens(lines, threshold, seconds);
    }
  }

  // ---------------------------------------------------------------------------
  // The duration reading: as written and as intended
  // ---------------------------------------------------------------------------

  /**
   * The whole number of seconds in a time difference of `difference`
   * milliseconds, rounded down: the reading merge_lines evidently intends
   * ("convert duration to seconds").
   */
  function TotalSeconds(difference: int): (s: int)
    ensures s * MillisPerSecond <= difference < (s + 1) * MillisPerSecond
  {
    difference / MillisPerSecond
  }

  /**
   * As written, a group can last far longer than the threshold: a line from
   * 0 s to 30 s and one from 30 s to 65 s merge under a 10 s threshold,
   * because the seconds component of 65 s is 5.
   */
  lemma SecondsFieldMergesLongSpan()
    ensures var gs := Groups([Line(0, 30000, "a"), Line(30000, 65000, "b")], 10, SecondsField);
            && gs == [Group(0, Line(0, 65000, "a b"))]
            && gs[0].line.end - gs[0].line.start >= 10 * MillisPerSecond
  {
    var lines := [Line(0, 30000, "a"), Line(30000, 65000, "b")];
    assert lines[..1] == [lines[0]];
    assert Groups(lines[..1], 10, SecondsField) == [Group(0, lines[0])];
    assert SecondsField(65000 - 0) == 5;
    GroupsAbsorbs(lines, 10, SecondsField);
    assert "a" + " " + "b" == "a b";
  }

  /**
   * As written, a threshold of 60 or more merges the whole file into one
   * entry, because the seconds component of a time is at most 59.
   */
  lemma {:induction false} SecondsFieldMergesEverything(lines: seq<Line>, threshold: int)
    requires |lines| > 0 && threshold >= 60
    ensures |Groups(lines, threshold, SecondsField)| == 1
    decreases |lines|
  {
    if |lines| > 1 {
      SecondsFieldMergesEverything(lines[..|lines| - 1], threshold);
      GroupsAbsorbs(lines, threshold, SecondsField);
    }
  }

  /**
   * With the total-seconds reading, every entry that absorbed at least one
   * line lasts less than `threshold` seconds from its start to its end.
   */
  lemma TotalSecondsKeepsGroupsShort(lines: seq<Line>, threshold: int)
    requires |lines| > 0
    ensures var gs := Groups(lines, threshold, TotalSeconds);
            forall k :: 0 <= k < |gs| && gs[k].opener + 1 < GroupEnd(gs, k, |lines|) ==>
              gs[k].line.end - gs[k].line.start < threshold * MillisPerSecond
  {
    GroupsAreRuns(lines, threshold, TotalSeconds);
    GroupsDecisions(lines, threshold, TotalSeconds);
    forall k | 0 <= k < |Groups(lines, threshold, TotalSeconds)|
                && Groups(lines, threshold, TotalSeconds)[k].opener + 1
                   < GroupEnd(Groups(lines, threshold, TotalSeconds), k, |lines|)
      ensures var g := Groups(lines, threshold, TotalSeconds)[k];
              g.line.end - g.line.start < threshold * MillisPerSecond
    {
      assert IsRun(lines, Groups(lines, threshold, TotalSeconds), k);
      assert IsDecided(lines, Groups(lines, threshold, TotalSeconds), k, threshold, TotalSeconds);
      var gs := Groups(lines, threshold, TotalSeconds);
      var last := GroupEnd(gs, k, |lines|) - 1;
      assert Joins(lines[gs[k].opener], lines[last], threshold, TotalSeconds);
      var s := TotalSeconds(lines[last].end - lines[gs[k].opener].start);
      assert s + 1 <= threshold;
    }
  }

  // ---------------------------------------------------------------------------
  // merge_lines, on the subtitle objects
  // ---------------------------------------------------------------------------

  /**
   * Every group ends after the ones before it has opened, and all openers lie
   * below `n`: what merge_lines needs to know of its groups after n lines.
   */
  ghost predicate OpenersBelow(gs: seq<Group>, n: nat)
  {
    && |gs| > 0
    && (forall k :: 0 <= k < |gs| ==> gs[k].opener < n)
    && (forall k :: 0 <= k < |gs| - 1 ==> gs[k].opener < gs[|gs| - 1].opener)
  }

  /** Entry i + 1 of `table` is entry i fed with line i. */
  ghost predicate Advances(table: seq<seq<Group>>, lines: seq<Line>, i: nat, threshold: int, seconds: int -> int)
    requires 1 <= i < |lines| && |table| == |lines| + 1
  {
    |table[i]| > 0 && table[i + 1] == Feed(table[i], i, lines[i], threshold, seconds)
  }

  /**
   * The groups of every non-empty prefix of `lines`, each obtained from the
   * one before by a single Feed: the states that merge_lines passes through.
   */
  lemma {:induction false} GroupsTable(lines: seq<Line>, threshold: int, seconds: int -> int)
    returns (table: seq<seq<Group>>)
    requires |lines| > 0
    ensures |table| == |lines| + 1
    ensures table[1] == [Group(0, lines[0])]
    ensures table[|lines|] == Groups(lines, threshold, seconds)
    ensures forall i :: 1 <= i <= |lines| ==> OpenersBelow(table[i], i)
    ensures forall i :: 1 <= i < |lines| ==> Advances(table, lines, i, threshold, seconds)
    decreases |lines|
  {
    var n := |lines|;
    GroupsOpeners(lines, threshold, seconds);
    if n == 1 {
      table := [[], [Group(0, lines[0])]];
    } else {
      var prefix := lines[..n - 1];
      var t := GroupsTable(prefix, threshold, seconds);
      table := t + [Groups(lines, threshold, seconds)];
      forall i | 1 <= i < n
        ensures Advances(table, lines, i, threshold, seconds)
      {
        if i < n - 1 {
          assert Advances(t, prefix, i, threshold, seconds);
        }
      }
    }
  }

  /** Feed leaves every group but the last as it was, and keeps the last group's opener. */
  lemma FeedKeepsEarlierGroups(groups: seq<Group>, i: nat, next: Line, threshold: int, seconds: int -> int)
    requires |groups| > 0
    ensures var gs := Feed(groups, i, next, threshold, seconds);
            && |groups| <= |gs|
            && gs[|groups| - 1].opener == groups[|groups| - 1].opener
            && forall k :: 0 <= k < |groups| - 1 ==> gs[k] == groups[k]
  {
  }

  /**
   * The values of the entries once the value of each group, in order, has
   * been written to the entry that opened it.
   */
  ghost function ModelOf(lines: seq<Line>, groups: seq<Group>): (model: seq<Line>)
    ensures |model| == |lines|
  {
    if groups == [] then lines
    else
      var last := groups[|groups| - 1];
      var before := ModelOf(lines, groups[..|groups| - 1]);
      if last.opener < |lines| then before[last.opener := last.line] else before
  }

  /** An entry that opened no group keeps its input value. */
  lemma {:induction false} ModelOfNonOpener(lines: seq<Line>, groups: seq<Group>, j: nat)
    requires j < |lines|
    requires forall k :: 0 <= k < |groups| ==> groups[k].opener != j
    ensures ModelOf(lines, groups)[j] == lines[j]
    decreases |groups|
  {
    if groups != [] {
      ModelOfNonOpener(lines, groups[..|groups| - 1], j);
    }
  }

  /** With strictly increasing openers, each opener holds its own group's value. */
  lemma {:induction false} ModelOfOpener(lines: seq<Line>, groups: seq<Group>, k: nat)
    requires OpenersOrdered(groups, |lines|) && k < |groups|
    ensures ModelOf(lines, groups)[groups[k].opener] == groups[k].line
    decreases |groups|
  {
    var n := |groups| - 1;
    if k < n {
      var before := groups[..n];
      if n == 1 {
        assert before == [groups[0]];
        ModelOfNonOpener(lines, [], groups[0].opener);
      } else {
        assert OpenersOrdered(before, |lines|);
        ModelOfOpener(lines, before, k);
      }
    }
  }

  /** Absorbing line i changes the modelled value of the last opener only. */
  lemma ModelAfterAbsorb(lines: seq<Line>, groups: seq<Group>, i: nat, threshold: int, seconds: int -> int)
    requires |groups| > 0 && i < |lines| && groups[|groups| - 1].opener < |lines|
    requires Joins(groups[|groups| - 1].line, lines[i], threshold, seconds)
    ensures var current := groups[|groups| - 1];
            ModelOf(lines, Feed(groups, i, lines[i], threshold, seconds))
              == ModelOf(lines, groups)[current.opener := Absorb(current.line, lines[i])]
  {
    var n := |groups| - 1;
    var current := groups[n];
    var absorbed := Group(current.opener, Absorb(current.line, lines[i]));
    assert groups == groups[..n] + [current];
    ModelOfSnoc(lines, groups[..n], current);
    ModelOfSnoc(lines, groups[..n], absorbed);
  }

  /** Appending a group writes its value to its opener. */
  lemma ModelOfSnoc(lines: seq<Line>, groups: seq<Group>, g: Group)
    requires g.opener < |lines|
    ensures ModelOf(lines, groups + [g]) == ModelOf(lines, groups)[g.opener := g.line]
  {
    assert (groups + [g])[..|groups|] == groups;
  }

  /** Opening a group at line i, beyond every opener so far, changes no modelled value. */
  lemma ModelAfterOpen(lines: seq<Line>, groups: seq<Group>, i: nat, threshold: int, seconds: int -> int)
    requires |groups| > 0 && i < |lines| && OpenersBelow(groups, i)
    requires !Joins(groups[|groups| - 1].line, lines[i], threshold, seconds)
    ensures ModelOf(lines, Feed(groups, i, lines[i], threshold, seconds)) == ModelOf(lines, groups)
  {
    var next := Feed(groups, i, lines[i], threshold, seconds);
    assert next[..|groups|] == groups;
    ModelOfNonOpener(lines, groups, i);
  }

  /** The body of the absorb branch: the opener takes on the line's text and end. */
  method AppendLine(currLine: SubRipItem, line: SubRipItem)
    requires currLine != line
    modifies currLine
    ensures currLine.Value() == Absorb(old(currLine.Value()), line.Value())
  {
    currLine.text := currLine.text + " " + line.text;
    currLine.end := line.end;
  }

  /**
   * The body of the other branch, where the line becomes the new opener and
   * its start and end are assigned from itself, which changes nothing.
   */
  method Reopen(currLine: SubRipItem, line: SubRipItem)
    requires currLine == line
    modifies currLine
    ensures currLine.Value() == old(line.Value())
  {
    currLine.start := line.start;
    currLine.end := line.end;
  }

  /**
   * The state of merge_lines after the first `i` lines against the groups of
   * those lines: `newSrt` holds the openers of the closed groups, `currLine`
   * the opener of the last one, and the entries hold ModelOf(lines, groups).
   */
  ghost predicate Merging(srt: seq<SubRipItem>, lines: seq<Line>, groups: seq<Group>, i: nat,
                          newSrt: seq<SubRipItem>, currLine: SubRipItem)
    reads srt
  {
    && 1 <= i <= |srt| == |lines|
    && OpenersBelow(groups, i)
    && |newSrt| + 1 == |groups|
    && (forall k :: 0 <= k < |newSrt| ==> newSrt[k] == srt[groups[k].opener])
    && currLine == srt[groups[|groups| - 1].opener]
    && (forall j :: 0 <= j < |srt| ==> srt[j].Value() == ModelOf(lines, groups)[j])
  }

  /**
   * One iteration of the loop of merge_lines, for line i: the line is
   * absorbed into the current opener, or is kept in place and becomes the
   * current opener while the previous one joins the result.
   */
  method MergeStep(srt: seq<SubRipItem>, i: nat, threshold: int, seconds: int -> int,
                   newSrt: seq<SubRipItem>, currLine: SubRipItem, ghost lines: seq<Line>, ghost groups: seq<Group>)
    returns (newSrt': seq<SubRipItem>, currLine': SubRipItem)
    requires Distinct(srt) && i < |srt|
    requires Merging(srt, lines, groups, i, newSrt, currLine)
    modifies srt
    ensures Merging(srt, lines, Feed(groups, i, lines[i], threshold, seconds), i + 1, newSrt', currLine')
  {
    var line := srt[i];
    ghost var current := groups[|groups| - 1];
    ghost var model := ModelOf(lines, groups);
    assert currLine != line by {
      assert current.opener < i;
    }
    assert line.Value() == lines[i] by {
      ModelOfNonOpener(lines, groups, i);
    }
    assert currLine.Value() == current.line;
    var duration := Duration(currLine.start, line.end, seconds);
    assert duration < threshold <==> Joins(current.line, lines[i], threshold, seconds);
    FeedKeepsEarlierGroups(groups, i, lines[i], threshold, seconds);
    if duration < threshold {
      ModelAfterAbsorb(lines, groups, i, threshold, seconds);
      AppendLine(currLine, line);
      newSrt', currLine' := newSrt, currLine;
    } else {
      ModelAfterOpen(lines, groups, i, threshold, seconds);
      assert Feed(groups, i, lines[i], threshold, seconds)[|groups|] == Group(i, lines[i]);
      newSrt' := newSrt + [currLine];
      currLine' := line;
      Reopen(currLine', line);
    }
  }

  /**
   * The loop of merge_lines over lines 1 to |srt| - 1, from the state in
   * which line 0 is the current opener; `table` lists the groups it passes
   * through.
   */
  method MergeLoop(srt: seq<SubRipItem>, threshold: int, seconds: int -> int,
                   ghost lines: seq<Line>, ghost table: seq<seq<Group>>)
    returns (newSrt: seq<SubRipItem>, currLine: SubRipItem, ghost groups: seq<Group>)
    requires Distinct(srt) && |srt| == |lines| > 0
    requires Merging(srt, lines, [Group(0, lines[0])], 1, [], srt[0])
    requires |table| == |lines| + 1 && table[1] == [Group(0, lines[0])]
    requires forall i :: 1 <= i < |lines| ==> Advances(table, lines, i, threshold, seconds)
    modifies srt
    ensures Merging(srt, lines, groups, |srt|, newSrt, currLine)
    ensures groups == table[|srt|]
  {
    newSrt, currLine, groups := [], srt[0], table[1];
    var i := 1;
    while i < |srt|
      invariant i <= |srt|
      invariant Merging(srt, lines, groups, i, newSrt, currLine)
      invariant groups == table[i]
    {
      assert Advances(table, lines, i, threshold, seconds);
      newSrt, currLine := MergeStep(srt, i, threshold, seconds, newSrt, currLine, lines, groups);
      groups := table[i + 1];
      i := i + 1;
    }
  }

  /** Before the loop of merge_lines, line 0 is the current opener and nothing has changed. */
  lemma MergingStarts(srt: seq<SubRipItem>, lines: seq<Line>)
    requires |srt| > 0 && lines == Values(srt)
    ensures Merging(srt, lines, [Group(0, lines[0])], 1, [], srt[0])
  {
    assert ModelOf(lines, [Group(0, lines[0])]) == lines[0 := lines[0]] == lines by {
      assert [Group(0, lines[0])][..0] == [];
    }
  }

  /**
   * After the loop, the result is `newSrt` followed by the current opener:
   * each entry of it holds its group's value, and every other entry holds its
   * input value.
   */
  lemma MergingEnds(srt: seq<SubRipItem>, lines: seq<Line>, groups: seq<Group>,
                    newSrt: seq<SubRipItem>, currLine: SubRipItem)
    requires Merging(srt, lines, groups, |srt|, newSrt, currLine) && OpenersOrdered(groups, |srt|)
    requires Distinct(srt)
    ensures var result := newSrt + [currLine];
            && |result| == |groups|
            && (forall k :: 0 <= k < |result| ==>
                  result[k] == srt[groups[k].opener] && result[k].Value() == groups[k].line)
            && (forall j :: 0 <= j < |srt| && srt[j] !in result ==> srt[j].Value() == lines[j])
  {
    var result := newSrt + [currLine];
    assert forall k :: 0 <= k < |result| ==> result[k] == srt[groups[k].opener];
    forall k | 0 <= k < |result|
      ensures result[k].Value() == groups[k].line
    {
      ModelOfOpener(lines, groups, k);
    }
    forall j | 0 <= j < |srt| && srt[j] !in result
      ensures srt[j].Value() == lines[j]
    {
      forall k | 0 <= k < |groups|
        ensures groups[k].opener != j
      {
        assert result[k] == srt[groups[k].opener];
      }
      ModelOfNonOpener(lines, groups, j);
    }
  }

  /**
   * merge_lines: one pass over the entries that appends each absorbed
   * entry's text and end to the entry that opened its group, and returns the
   * opening entries in order. The entries are updated in place, so the
   * result shares its objects with `srt`. `groups` describes the result in
   * terms of the entries' values on entry.
   */
  method MergeLines(srt: seq<SubRipItem>, threshold: int, seconds: int -> int)
    returns (newSrt: seq<SubRipItem>, ghost groups: seq<Group>)
    requires |srt| > 0
    requires Distinct(srt)
    modifies srt
    ensures groups == Groups(old(Values(srt)), threshold, seconds)
    ensures OpenersOrdered(groups, |srt|) && |newSrt| == |groups|
    ensures forall k :: 0 <= k < |newSrt| ==>
              newSrt[k] == srt[groups[k].opener] && newSrt[k].Value() == groups[k].line
    ensures forall j :: 0 <= j < |srt| && srt[j] !in newSrt ==> srt[j].Value() == old(srt[j].Value())
  {
    ghost var lines := Values(srt);
    ghost var table := GroupsTable(lines, threshold, seconds);
    MergingStarts(srt, lines);
    var currLine;
    newSrt, currLine, groups := MergeLoop(srt, threshold, seconds, lines, table);
    GroupsOpeners(lines, threshold, seconds);
    MergingEnds(srt, lines, groups, newSrt, currLine);
    newSrt := newSrt + [currLine];
  }

  // ---------------------------------------------------------------------------
  // align: slice bounds and file names of each merged entry
  // ---------------------------------------------------------------------------

  /** The character of decimal digit d. */
  function DigitChar(d: nat): (c: char)
    requires d < 10
    ensures '0' <= c <= '9' && c as int - '0' as int == d
  {
    ('0' as int + d) as char
  }

  predicate IsDecimal(s: string)
  {
    forall i :: 0 <= i < |s| ==> '0' <= s[i] <= '9'
  }

  /** The decimal digits of n, as Python's f"{n}" formats a non-negative int. */
  function NatToString(n: nat): (s: string)
    ensures |s| > 0 && IsDecimal(s)
    decreases n
  {
    if n < 10 then [DigitChar(n)] else NatToString(n / 10) + [DigitChar(n % 10)]
  }

  /** The number a string of decimal digits denotes. */
  function DecimalValue(s: string): nat
    requires IsDecimal(s)
  {
    if s == [] then 0 else 10 * DecimalValue(s[..|s| - 1]) + (s[|s| - 1] as int - '0' as int)
  }

  /** Reading the digits back gives the number formatted. */
  lemma {:induction false} DecimalValueOfNatToString(n: nat)
    ensures DecimalValue(NatToString(n)) == n
    decreases n
  {
    if n >= 10 {
      DecimalValueOfNatToString(n / 10);
      var s := NatToString(n);
      assert s[..|s| - 1] == NatToString(n / 10);
    }
  }

  /** Distinct indices are formatted differently. */
  lemma NatToStringInjective(a: nat, b: nat)
    ensures NatToString(a) == NatToString(b) <==> a == b
  {
    DecimalValueOfNatToString(a);
    DecimalValueOfNatToString(b);
  }

  /** A file name with a fixed extension determines the index it was made from. */
  lemma FileNameInjective(a: nat, b: nat, extension: string)
    ensures NatToString(a) + extension == NatToString(b) + extension <==> a == b
  {
    var sa, sb := NatToString(a), NatToString(b);
    if sa + extension == sb + extension {
      assert |sa| == |sb|;
      assert sa == (sa + extension)[..|sa|];
      assert sb == (sb + extension)[..|sb|];
    }
    NatToStringInjective(a, b);
  }

  /**
   * What align does with the i-th merged entry: the slice of the audio, in
   * milliseconds, that it exports as "i.wav", and the text it writes to "i.txt".
   */
  datatype Export = Export(wavName: string, txtName: string, sliceStart: int, sliceEnd: int, text: string)

  /**
   * The exports align completes, in order, and the index of the entry at which
   * it stopped with the ValueError of to_time, if it did.
   */
  datatype AlignOutcome = AlignOutcome(exports: seq<Export>, failedAt: Option<nat>)

  /** The export of the i-th merged entry, or None when one of its times is not a time of day. */
  function ExportOf(i: nat, line: Line): (r: Option<Export>)
    ensures r.Some? <==> line.start < MillisPerDay && line.end < MillisPerDay
    ensures r.Some? ==> r.value == Export(NatToString(i) + ".wav", NatToString(i) + ".txt",
                                          line.start - line.start % MillisPerSecond,
                                          line.end - line.end % MillisPerSecond,
                                          line.text)
  {
    var start, end := ToTime(line.start), ToTime(line.end);
    if start.Some? && end.Some? then
      DatetimeToSecondsOfOrdinal(line.start);
      DatetimeToSecondsOfOrdinal(line.end);
      Some(Export(NatToString(i) + ".wav", NatToString(i) + ".txt",
                  DatetimeToSeconds(start.value) * 1000, DatetimeToSeconds(end.value) * 1000,
                  line.text))
    else
      None
  }

  /**
   * The loop of align over the merged entries, in order: entry i is exported
   * unless an earlier entry already stopped the loop or one of its own times
   * is rejected.
   */
  function Exports(merged: seq<Line>): (r: AlignOutcome)
    ensures |r.exports| <= |merged|
    ensures r.failedAt.None? <==> |r.exports| == |merged|
    ensures r.failedAt.Some? ==> r.failedAt.value == |r.exports|
    ensures forall k :: 0 <= k < |r.exports| ==> ExportOf(k, merged[k]) == Some(r.exports[k])
    ensures r.failedAt.Some? ==> ExportOf(|r.exports|, merged[|r.exports|]).None?
  {
    if merged == [] then AlignOutcome([], None)
    else
      var n := |merged| - 1;
      var before := Exports(merged[..n]);
      if before.failedAt.Some? then before
      else match ExportOf(n, merged[n])
        case None => AlignOutcome(before.exports, Some(n))
        case Some(e) => AlignOutcome(before.exports + [e], None)
  }

  /** No two exports of one run of align write to the same file. */
  lemma ExportNamesDistinct(merged: seq<Line>)
    ensures var r := Exports(merged);
            forall k, l :: 0 <= k < |r.exports| && 0 <= l < |r.exports| && k != l ==>
              r.exports[k].wavName != r.exports[l].wavName && r.exports[k].txtName != r.exports[l].txtName
  {
    var r := Exports(merged);
    forall k, l | 0 <= k < |r.exports| && 0 <= l < |r.exports| && k != l
      ensures r.exports[k].wavName != r.exports[l].wavName && r.exports[k].txtName != r.exports[l].txtName
    {
      assert ExportOf(k, merged[k]) == Some(r.exports[k]);
      assert ExportOf(l, merged[l]) == Some(r.exports[l]);
      FileNameInjective(k, l, ".wav");
      FileNameInjective(k, l, ".txt");
    }
  }

  /**
   * align: merges the subtitle entries with the reading `seconds` of a time
   * difference, then exports every merged entry in order. The outcome is a
   * Failure exactly on an empty file: the IndexError of `srt[0]` in
   * merge_lines, raised before anything is exported. Otherwise it carries
   * Exports of the merged values; when to_time raises its ValueError on an
   * entry at or past 24 hours, align also raises, and that appears here as
   * `failedAt` after the exports already written, not as a Failure. With
   * `seconds` = SubRip.SecondsField this is align as written.
   */
  method Align(srt: seq<SubRipItem>, threshold: int, seconds: int -> int) returns (outcome: Result<AlignOutcome>)
    requires Distinct(srt)
    modifies srt
    ensures outcome.Failure? <==> |srt| == 0
    ensures outcome.Success? ==>
              |srt| > 0 && outcome.value == Exports(Lines(Groups(old(Values(srt)), threshold, seconds)))
  {
    if |srt| == 0 {
      return Failure("IndexError: list index out of range");
    }
    var merged, groups := MergeLines(srt, threshold, seconds);
    assert Values(merged) == Lines(groups);
    return Success(Exports(Values(merged)));
  }

  /** A single merged entry within one day is exported as entry 0. */
  lemma ExportsOfOne(only: Line)
    requires only.start < MillisPerDay && only.end < MillisPerDay
    ensures Exports([only]) == AlignOutcome([ExportOf(0, only).value], None)
  {
    assert [only][..0] == [];
  }

  /** Two merged entries within one day are exported as entries 0 and 1. */
  lemma ExportsOfTwo(first: Line, second: Line)
    requires first.start < MillisPerDay && first.end < MillisPerDay
    requires second.start < MillisPerDay && second.end < MillisPerDay
    ensures Exports([first, second]) == AlignOutcome([ExportOf(0, first).value, ExportOf(1, second).value], None)
  {
    assert [first, second][..1] == [first];
    ExportsOfOne(first);
  }

  /** The export of entry `i` < 10 whose times are whole seconds within one day. */
  lemma ExportOfWholeSeconds(i: nat, line: Line, wav: string, txt: string)
    requires i < 10 && line.start < MillisPerDay && line.end < MillisPerDay
    requires line.start % MillisPerSecond == 0 && line.end % MillisPerSecond == 0
    requires wav == [DigitChar(i)] + ".wav" && txt == [DigitChar(i)] + ".txt"
    ensures ExportOf(i, line) == Some(Export(wav, txt, line.start, line.end, line.text))
  {
  }

  /**
   * align as written on the example of the finding about `.seconds`: the
   * lines 0-30 s and 30-65 s under threshold 10 are exported as ONE entry,
   * 0.wav, slicing 65 seconds of audio.
   */
  lemma AlignSecondsFieldExample(lines: seq<Line>)
    requires lines == [Line(0, 30000, "a"), Line(30000, 65000, "b")]
    ensures Exports(Lines(Groups(lines, 10, SecondsField)))
              == AlignOutcome([Export("0.wav", "0.txt", 0, 65000, "a b")], None)
  {
    SecondsFieldMergesLongSpan();
    var merged := Line(0, 65000, "a b");
    assert Lines([Group(0, merged)]) == [merged];
    ExportsOfOne(merged);
    ExportOfWholeSeconds(0, merged, "0.wav", "0.txt");
  }

  /**
   * align with the total-seconds reading on the same example: the lines stay
   * apart and are exported as 0.wav and 1.wav.
   */
  lemma AlignTotalSecondsExample(lines: seq<Line>)
    requires lines == [Line(0, 30000, "a"), Line(30000, 65000, "b")]
    ensures Exports(Lines(Groups(lines, 10, TotalSeconds)))
              == AlignOutcome([Export("0.wav", "0.txt", 0, 30000, "a"), Export("1.wav", "1.txt", 30000, 65000, "b")], None)
  {
    TotalSecondsKeepsApart(lines);
    assert Lines([Group(0, lines[0]), Group(1, lines[1])]) == lines;
    ExportsOfTwo(lines[0], lines[1]);
    ExportOfWholeSeconds(0, lines[0], "0.wav", "0.txt");
    ExportOfWholeSeconds(1, lines[1], "1.wav", "1.txt");
  }

  /** With the total-seconds reading the example's second line, 65 s after the first starts, opens a group. */
  lemma TotalSecondsKeepsApart(lines: seq<Line>)
    requires lines == [Line(0, 30000, "a"), Line(30000, 65000, "b")]
    ensures Groups(lines, 10, TotalSeconds) == [Group(0, lines[0]), Group(1, lines[1])]
  {
    assert lines[..1] == [lines[0]];
    assert Groups(lines[..1], 10, TotalSeconds) == [Group(0, lines[0])];
    assert TotalSeconds(65000 - 0) == 65;
    GroupsOpens(lines, 10, TotalSeconds);
  }
}
