/** Grouping of adjacent transcript utterances into sentence-like groups
    (lib/utterance-grouper.ts). The source is a left fold that keeps one open
    group and either merges the next utterance into it or closes it. The model
    gives that fold (GroupUtterances) and an independent description of its
    result: the input cut into maximal runs in which every neighbouring pair
    would be grouped (Runs), each run merged into one utterance (MergeAll). */
module Grouper {
  import opened Wrappers
  import opened Text
  import opened Types

  /** Largest gap (seconds, exclusive) between two utterances that may be grouped. */
  const MaxGap: real := 1.0

  /** `/[.!?]$/` on a single final character. */
  predicate EndsSentence(c: char) {
    c == '.' || c == '!' || c == '?'
  }

  /** `/^[A-Z]/` on a single first character. */
  predicate IsCapital(c: char) {
    'A' <= c <= 'Z'
  }

  /** `shouldGroupWithPrevious`: both trimmed texts non-empty, a gap under one
      second, no sentence-ending mark at the end of the previous text and no
      capital at the start of the current one. The trimmed texts are read
      through their shape (MergeDecision restates the rule on `Trim`). */
  predicate ShouldGroupWithPrevious(previous: Utterance, current: Utterance)
  {
    var p := Shape(previous.text);
    var c := Shape(current.text);
    && p != Blank && c != Blank
    && current.start - previous.end < MaxGap
    && !EndsSentence(p.last)
    && !IsCapital(c.first)
  }

  /** The merge decision on the trimmed texts, as the source writes it. */
  lemma MergeDecision(previous: Utterance, current: Utterance)
    ensures ShouldGroupWithPrevious(previous, current) <==>
      var p := Trim(previous.text);
      var c := Trim(current.text);
      && p != [] && c != []
      && current.start - previous.end < 1.0
      && p[|p| - 1] !in {'.', '!', '?'}
      && !('A' <= c[0] <= 'Z')
  {
    ShapeOfTrim(previous.text);
    ShapeOfTrim(current.text);
  }

  /** `mergeUtterances`: joined text, outer time bounds, the lower confidence,
      the first speaker and legacy translation, and no `translations`. */
  function MergeUtterances(first: Utterance, second: Utterance): (r: Utterance)
    ensures r.confidence <= first.confidence && r.confidence <= second.confidence
    ensures r.confidence == first.confidence || r.confidence == second.confidence
  {
    Utterance(
      text := first.text + " " + second.text,
      start := first.start,
      end := second.end,
      confidence := if first.confidence <= second.confidence then first.confidence else second.confidence,
      speaker := first.speaker,
      words := first.words + second.words,
      translations := None,
      translation := first.translation)
  }

  /** The loop of `groupUtterances` from some point on: `current` is the open
      group, `grouped` the groups already closed, and `joins` the rule that
      decides whether the next utterance joins the open group. */
  function GroupFrom(rest: seq<Utterance>, current: Utterance, grouped: seq<Utterance>,
                     joins: (Utterance, Utterance) -> bool): seq<Utterance>
    decreases |rest|
  {
    if rest == [] then grouped + [current]
    else if joins(current, rest[0]) then
      GroupFrom(rest[1..], MergeUtterances(current, rest[0]), grouped, joins)
    else
      GroupFrom(rest[1..], rest[0], grouped + [current], joins)
  }

  /** `groupUtterances`: the empty input comes back as it is; otherwise the
      first utterance opens the first group. */
  function GroupUtterances(utterances: seq<Utterance>): seq<Utterance>
  {
    if |utterances| == 0 then utterances
    else GroupFrom(utterances[1..], utterances[0], [], ShouldGroupWithPrevious)
  }

  // ---------------------------------------------------------------------------
  // The reference description: maximal runs, each merged.

  /** Every neighbouring pair of `run` would be grouped by `joins`. The run
      machinery below takes the grouping rule as a parameter; the fold's rule
      is ShouldGroupWithPrevious. */
  predicate Chain(run: seq<Utterance>, joins: (Utterance, Utterance) -> bool) {
    forall i :: 0 < i < |run| ==> joins(run[i - 1], run[i])
  }

  /** A run merged left to right, the way the fold merges it. */
  function MergeAll(run: seq<Utterance>): Utterance
    requires |run| >= 1
    decreases |run|
  {
    if |run| == 1 then run[0]
    else MergeUtterances(MergeAll(run[..|run| - 1]), run[|run| - 1])
  }

  /** A merged run spans from the first start to the last end and takes the
      first speaker and legacy translation; it keeps `translations` only when
      nothing was merged, and a run of one is that utterance, unchanged. */
  lemma {:induction false} MergeAllBounds(run: seq<Utterance>)
    requires |run| >= 1
    ensures var r := MergeAll(run);
      && r.start == run[0].start && r.end == run[|run| - 1].end
      && r.speaker == run[0].speaker && r.translation == run[0].translation
      && r.translations == (if |run| == 1 then run[0].translations else None)
      && (|run| == 1 ==> r == run[0])
    decreases |run|
  {
    if |run| > 1 {
      var init := run[..|run| - 1];
      MergeAllBounds(init);
      assert init[0] == run[0];
    }
  }

  /** A merged run carries the words of its members, in order. */
  lemma {:induction false} MergeAllWords(run: seq<Utterance>)
    requires |run| >= 1
    ensures MergeAll(run).words == AllWords(run)
    decreases |run|
  {
    var last := run[|run| - 1];
    assert AllWords([last]) == last.words + AllWords([]);
    if |run| == 1 {
      assert run == [last];
    } else {
      var init := run[..|run| - 1];
      MergeAllWords(init);
      assert run == init + [last];
      AllWordsAppend(init, [last]);
    }
  }

  /** A merged run's text is its members' texts joined by single spaces. */
  lemma {:induction false} MergeAllText(run: seq<Utterance>)
    requires |run| >= 1
    ensures MergeAll(run).text == Join(Texts(run), ' ')
    decreases |run|
  {
    if |run| > 1 {
      var init := run[..|run| - 1];
      var last := run[|run| - 1];
      MergeAllText(init);
      assert Texts(run) == Texts(init) + [last.text];
      JoinSnoc(Texts(init), last.text, ' ');
    }
  }

  /** A merged run's confidence is the lowest of its members'. */
  lemma {:induction false} MergeAllConfidence(run: seq<Utterance>)
    requires |run| >= 1
    ensures forall i :: 0 <= i < |run| ==> MergeAll(run).confidence <= run[i].confidence
    ensures exists i :: 0 <= i < |run| && MergeAll(run).confidence == run[i].confidence
    decreases |run|
  {
    if |run| == 1 {
      assert MergeAll(run).confidence == run[0].confidence;
    } else {
      var init := run[..|run| - 1];
      var last := run[|run| - 1];
      MergeAllConfidence(init);
      var m := MergeAll(init);
      assert forall i :: 0 <= i < |init| ==> run[i] == init[i];
      var i :| 0 <= i < |init| && m.confidence == init[i].confidence;
      var r := MergeAll(run);
      if r.confidence == m.confidence {
        assert r.confidence == run[i].confidence;
      } else {
        assert r.confidence == run[|run| - 1].confidence;
      }
    }
  }

  /** Every neighbouring pair of `us[lo..hi]` would be grouped by `joins`. */
  predicate ChainBetween(us: seq<Utterance>, lo: nat, hi: nat, joins: (Utterance, Utterance) -> bool)
    requires lo <= hi <= |us|
  {
    forall m :: lo < m < hi ==> joins(us[m - 1], us[m])
  }

  lemma ChainSlice(us: seq<Utterance>, lo: nat, hi: nat, joins: (Utterance, Utterance) -> bool)
    requires lo <= hi <= |us| && ChainBetween(us, lo, hi, joins)
    ensures Chain(us[lo..hi], joins)
  {
    assert forall m :: 0 <= m < hi - lo ==> us[lo..hi][m] == us[lo + m];
  }

  /** Where the maximal chain of `us` that starts at `lo` ends (exclusive). */
  function RunEnd(us: seq<Utterance>, lo: nat, joins: (Utterance, Utterance) -> bool): (hi: nat)
    requires lo < |us|
    ensures lo < hi <= |us|
    ensures ChainBetween(us, lo, hi, joins)
    ensures hi < |us| ==> !joins(us[hi - 1], us[hi])
    decreases |us| - lo
  {
    if lo + 1 == |us| || !joins(us[lo], us[lo + 1]) then lo + 1
    else RunEnd(us, lo + 1, joins)
  }

  /** A chain that the next utterance does not join is a whole run. */
  lemma RunEndOfChain(us: seq<Utterance>, lo: nat, hi: nat, joins: (Utterance, Utterance) -> bool)
    requires lo < hi <= |us| && ChainBetween(us, lo, hi, joins)
    requires hi < |us| ==> !joins(us[hi - 1], us[hi])
    ensures RunEnd(us, lo, joins) == hi
  {
  }

  function Flatten<T>(xss: seq<seq<T>>): seq<T>
  {
    if xss == [] then [] else xss[0] + Flatten(xss[1..])
  }

  /** `us[lo..]` cut into its maximal chains, in order. */
  function RunsFrom(us: seq<Utterance>, lo: nat, joins: (Utterance, Utterance) -> bool): (rs: seq<seq<Utterance>>)
    requires lo <= |us|
    ensures forall k :: 0 <= k < |rs| ==> |rs[k]| >= 1
    decreases |us| - lo
  {
    if lo == |us| then []
    else
      var hi := RunEnd(us, lo, joins);
      [us[lo..hi]] + RunsFrom(us, hi, joins)
  }

  /** The runs of `us[lo..]`, concatenated, give `us[lo..]` back. */
  lemma {:induction false} RunsFromFlatten(us: seq<Utterance>, lo: nat, joins: (Utterance, Utterance) -> bool)
    requires lo <= |us|
    ensures Flatten(RunsFrom(us, lo, joins)) == us[lo..]
    decreases |us| - lo
  {
    if lo < |us| {
      var hi := RunEnd(us, lo, joins);
      RunsFromFlatten(us, hi, joins);
      var tail := RunsFrom(us, hi, joins);
      var rs := RunsFrom(us, lo, joins);
      assert rs == [us[lo..hi]] + tail;
      assert rs[1..] == tail;
      assert us[lo..] == us[lo..hi] + us[hi..];
    }
  }

  /** Every run of `us[lo..]` is a chain, and there are at most as many runs
      as utterances, and at least one when there is an utterance. */
  lemma {:induction false} RunsFromChains(us: seq<Utterance>, lo: nat, joins: (Utterance, Utterance) -> bool)
    requires lo <= |us|
    ensures var rs := RunsFrom(us, lo, joins);
      && (forall k :: 0 <= k < |rs| ==> Chain(rs[k], joins))
      && |rs| <= |us| - lo
      && (lo < |us| ==> |rs| >= 1)
    decreases |us| - lo
  {
    if lo < |us| {
      var hi := RunEnd(us, lo, joins);
      ChainSlice(us, lo, hi, joins);
      RunsFromChains(us, hi, joins);
      var tail := RunsFrom(us, hi, joins);
      var rs := RunsFrom(us, lo, joins);
      assert rs == [us[lo..hi]] + tail;
      assert forall j :: 1 <= j < |rs| ==> rs[j] == tail[j - 1];
    }
  }

  /** No two neighbouring runs of `us[lo..]` could be grouped across their border. */
  lemma RunsFromBorders(us: seq<Utterance>, lo: nat, joins: (Utterance, Utterance) -> bool)
    requires lo <= |us|
    ensures var rs := RunsFrom(us, lo, joins);
      forall k :: 0 < k < |rs| ==> !joins(rs[k - 1][|rs[k - 1]| - 1], rs[k][0])
  {
    var rs := RunsFrom(us, lo, joins);
    forall k | 0 < k < |rs|
      ensures !joins(rs[k - 1][|rs[k - 1]| - 1], rs[k][0])
    {
      RunsFromBorder(us, lo, joins, k);
    }
  }

  /** The last utterance of a non-empty run. */
  function Last(run: seq<Utterance>): Utterance
    requires run != []
  {
    run[|run| - 1]
  }

  /** The border in front of run `k` of `us[lo..]`. */
  lemma {:induction false} RunsFromBorder(us: seq<Utterance>, lo: nat, joins: (Utterance, Utterance) -> bool, k: nat)
    requires lo <= |us| && 0 < k < |RunsFrom(us, lo, joins)|
    ensures !joins(Last(RunsFrom(us, lo, joins)[k - 1]), RunsFrom(us, lo, joins)[k][0])
    decreases |us| - lo
  {
    if k == 1 {
      RunsFromFirstBorder(us, lo, joins);
    } else {
      var hi := RunEnd(us, lo, joins);
      RunsFromShift(us, lo, joins, k);
      RunsFromShift(us, lo, joins, k - 1);
      RunsFromBorder(us, hi, joins, k - 1);
    }
  }

  /** The border between the first two runs of `us[lo..]`. */
  lemma RunsFromFirstBorder(us: seq<Utterance>, lo: nat, joins: (Utterance, Utterance) -> bool)
    requires lo <= |us| && 1 < |RunsFrom(us, lo, joins)|
    ensures !joins(Last(RunsFrom(us, lo, joins)[0]), RunsFrom(us, lo, joins)[1][0])
  {
    var hi := RunEnd(us, lo, joins);
    var tail := RunsFrom(us, hi, joins);
    assert RunsFrom(us, lo, joins) == [us[lo..hi]] + tail;
    assert hi < |us|;
    RunsFromHead(us, hi, joins);
    ConsIndex(us[lo..hi], tail, 1);
  }

  /** Run `k` of `us[lo..]`, for `k >= 1`, is run `k - 1` after the first run. */
  lemma RunsFromShift(us: seq<Utterance>, lo: nat, joins: (Utterance, Utterance) -> bool, k: nat)
    requires lo <= |us| && 0 < k < |RunsFrom(us, lo, joins)|
    ensures var hi := RunEnd(us, lo, joins);
      k - 1 < |RunsFrom(us, hi, joins)| && RunsFrom(us, lo, joins)[k] == RunsFrom(us, hi, joins)[k - 1]
  {
    var hi := RunEnd(us, lo, joins);
    var tail := RunsFrom(us, hi, joins);
    assert RunsFrom(us, lo, joins) == [us[lo..hi]] + tail;
    ConsIndex(us[lo..hi], tail, k);
  }

  /** Indexing past the head of `[x] + tail`. */
  lemma ConsIndex<T>(x: T, tail: seq<T>, k: nat)
    requires 0 < k <= |tail|
    ensures ([x] + tail)[k] == tail[k - 1]
  {
  }

  lemma RunsFromHead(us: seq<Utterance>, lo: nat, joins: (Utterance, Utterance) -> bool)
    requires lo < |us|
    ensures |RunsFrom(us, lo, joins)| >= 1 && RunsFrom(us, lo, joins)[0][0] == us[lo]
  {
  }

  /** The input cut into its maximal chains. */
  function Runs(us: seq<Utterance>): (rs: seq<seq<Utterance>>)
    ensures forall k :: 0 <= k < |rs| ==> |rs[k]| >= 1
  {
    RunsFrom(us, 0, ShouldGroupWithPrevious)
  }

  /** The runs of `us` partition it into non-empty chains, and no two
      neighbouring runs could be grouped across their border. */
  lemma RunsPartition(us: seq<Utterance>)
    ensures var rs := Runs(us);
      && Flatten(rs) == us
      && (forall k :: 0 <= k < |rs| ==> |rs[k]| >= 1 && Chain(rs[k], ShouldGroupWithPrevious))
      && (forall k :: 0 < k < |rs| ==> !ShouldGroupWithPrevious(rs[k - 1][|rs[k - 1]| - 1], rs[k][0]))
      && |rs| <= |us|
      && (us != [] ==> |rs| >= 1)
  {
    RunsFromFlatten(us, 0, ShouldGroupWithPrevious);
    RunsFromChains(us, 0, ShouldGroupWithPrevious);
    RunsFromBorders(us, 0, ShouldGroupWithPrevious);
    assert us[0..] == us;
  }

  function MergeRuns(rs: seq<seq<Utterance>>): (r: seq<Utterance>)
    requires forall k :: 0 <= k < |rs| ==> |rs[k]| >= 1
    ensures |r| == |rs| && forall k :: 0 <= k < |rs| ==> r[k] == MergeAll(rs[k])
  {
    if rs == [] then []
    else
      var tail := MergeRuns(rs[1..]);
      assert forall k :: 1 <= k < |rs| ==> rs[k] == rs[1..][k - 1];
      [MergeAll(rs[0])] + tail
  }

  // ---------------------------------------------------------------------------
  // The fold computes the reference.

  /** A merged chain's trimmed text is blank exactly when its last member's
      is, and otherwise ends in the same character. */
  lemma {:induction false} MergedTextEnd(run: seq<Utterance>)
    requires |run| >= 1 && Chain(run, ShouldGroupWithPrevious)
    ensures var t := Shape(MergeAll(run).text); var l := Shape(run[|run| - 1].text);
      (t == Blank <==> l == Blank) && (t != Blank ==> t.last == l.last)
    decreases |run|
  {
    if |run| > 1 {
      var init := run[..|run| - 1];
      assert Chain(init, ShouldGroupWithPrevious) by {
        assert forall i :: 0 <= i < |init| ==> init[i] == run[i];
      }
      MergedTextEnd(init);
      assert ShouldGroupWithPrevious(run[|run| - 2], run[|run| - 1]);
      assert init[|init| - 1] == run[|run| - 2];
      ShapeJoin(MergeAll(init).text, run[|run| - 1].text);
    }
  }

  /** A grouping rule under which a merged chain decides the next merge
      exactly as its last member would. */
  ghost predicate DecidesLikeLast(joins: (Utterance, Utterance) -> bool) {
    forall run: seq<Utterance>, next: Utterance ::
      |run| >= 1 && Chain(run, joins) ==> joins(MergeAll(run), next) == joins(run[|run| - 1], next)
  }

  /** The source's rule is such a rule: a merged chain ends where its last
      member ends and its trimmed text ends like the last member's. */
  lemma GroupingDecidesLikeLast()
    ensures DecidesLikeLast(ShouldGroupWithPrevious)
  {
    forall run: seq<Utterance>, next: Utterance | |run| >= 1 && Chain(run, ShouldGroupWithPrevious)
      ensures ShouldGroupWithPrevious(MergeAll(run), next) == ShouldGroupWithPrevious(run[|run| - 1], next)
    {
      MergedTextEnd(run);
      MergeAllBounds(run);
    }
  }

  /** The fold's last step: the open chain reaches the end of the input. */
  lemma FoldLastStep(us: seq<Utterance>, lo: nat, grouped: seq<Utterance>, joins: (Utterance, Utterance) -> bool)
    requires lo < |us| && ChainBetween(us, lo, |us|, joins)
    ensures GroupFrom(us[|us|..], MergeAll(us[lo..]), grouped, joins) == grouped + MergeRuns(RunsFrom(us, lo, joins))
  {
    RunEndOfChain(us, lo, |us|, joins);
    assert us[lo..|us|] == us[lo..];
    assert RunsFrom(us, lo, joins) == [us[lo..]] + RunsFrom(us, |us|, joins);
  }

  /** A fold step that merges: the open chain grows by one. */
  lemma FoldMergeStep(us: seq<Utterance>, lo: nat, hi: nat, grouped: seq<Utterance>, joins: (Utterance, Utterance) -> bool)
    requires DecidesLikeLast(joins)
    requires lo < hi < |us| && ChainBetween(us, lo, hi, joins)
    requires joins(MergeAll(us[lo..hi]), us[hi])
    ensures ChainBetween(us, lo, hi + 1, joins)
    ensures GroupFrom(us[hi..], MergeAll(us[lo..hi]), grouped, joins)
         == GroupFrom(us[hi + 1..], MergeAll(us[lo..hi + 1]), grouped, joins)
  {
    var v := us[hi];
    assert us[hi..][0] == v && us[hi..][1..] == us[hi + 1..];
    ChainSlice(us, lo, hi, joins);
    assert us[lo..hi][hi - lo - 1] == us[hi - 1];
    assert joins(us[hi - 1], v);
    var run := us[lo..hi + 1];
    assert run[..|run| - 1] == us[lo..hi] && run[|run| - 1] == v;
  }

  /** A fold step that does not merge: the open chain is closed and the next
      utterance opens a new chain. */
  lemma FoldCloseStep(us: seq<Utterance>, lo: nat, hi: nat, grouped: seq<Utterance>, joins: (Utterance, Utterance) -> bool)
    requires lo < hi < |us|
    requires !joins(MergeAll(us[lo..hi]), us[hi])
    ensures GroupFrom(us[hi..], MergeAll(us[lo..hi]), grouped, joins)
         == GroupFrom(us[hi + 1..], MergeAll(us[hi..hi + 1]), grouped + [MergeAll(us[lo..hi])], joins)
  {
    assert us[hi..][0] == us[hi] && us[hi..][1..] == us[hi + 1..];
    assert MergeAll(us[hi..hi + 1]) == us[hi];
  }

  /** The same step on the runs: the open chain is a whole run, so it is the
      first merged run of `us[lo..]`. */
  lemma CloseRunStep(us: seq<Utterance>, lo: nat, hi: nat, joins: (Utterance, Utterance) -> bool)
    requires DecidesLikeLast(joins)
    requires lo < hi < |us| && ChainBetween(us, lo, hi, joins)
    requires !joins(MergeAll(us[lo..hi]), us[hi])
    ensures MergeRuns(RunsFrom(us, lo, joins)) == [MergeAll(us[lo..hi])] + MergeRuns(RunsFrom(us, hi, joins))
  {
    ChainSlice(us, lo, hi, joins);
    assert us[lo..hi][hi - lo - 1] == us[hi - 1];
    assert !joins(us[hi - 1], us[hi]);
    RunEndOfChain(us, lo, hi, joins);
    var tail := RunsFrom(us, hi, joins);
    assert RunsFrom(us, lo, joins) == [us[lo..hi]] + tail;
    assert ([us[lo..hi]] + tail)[1..] == tail;
  }

  /** The fold, started with the chain `us[lo..hi]` open and `grouped` closed,
      produces `grouped` followed by the merged runs of `us[lo..]`, for any
      rule under which a merged chain decides like its last member. */
  lemma {:induction false} GroupFromRuns(us: seq<Utterance>, lo: nat, hi: nat, grouped: seq<Utterance>,
                                         joins: (Utterance, Utterance) -> bool)
    requires DecidesLikeLast(joins)
    requires lo < hi <= |us| && ChainBetween(us, lo, hi, joins)
    ensures GroupFrom(us[hi..], MergeAll(us[lo..hi]), grouped, joins) == grouped + MergeRuns(RunsFrom(us, lo, joins))
    decreases |us| - hi, 2
  {
    if hi == |us| {
      assert us[lo..hi] == us[lo..];
      FoldLastStep(us, lo, grouped, joins);
    } else if joins(MergeAll(us[lo..hi]), us[hi]) {
      GroupFromRunsMerge(us, lo, hi, grouped, joins);
    } else {
      GroupFromRunsClose(us, lo, hi, grouped, joins);
    }
  }

  /** GroupFromRuns when the next utterance joins the open group. */
  lemma {:induction false} GroupFromRunsMerge(us: seq<Utterance>, lo: nat, hi: nat, grouped: seq<Utterance>,
                                              joins: (Utterance, Utterance) -> bool)
    requires DecidesLikeLast(joins)
    requires lo < hi < |us| && ChainBetween(us, lo, hi, joins)
    requires joins(MergeAll(us[lo..hi]), us[hi])
    ensures GroupFrom(us[hi..], MergeAll(us[lo..hi]), grouped, joins) == grouped + MergeRuns(RunsFrom(us, lo, joins))
    decreases |us| - hi, 1
  {
    FoldMergeStep(us, lo, hi, grouped, joins);
    GroupFromRuns(us, lo, hi + 1, grouped, joins);
  }

  /** GroupFromRuns when the next utterance closes the open group. */
  lemma {:induction false} GroupFromRunsClose(us: seq<Utterance>, lo: nat, hi: nat, grouped: seq<Utterance>,
                                              joins: (Utterance, Utterance) -> bool)
    requires DecidesLikeLast(joins)
    requires lo < hi < |us| && ChainBetween(us, lo, hi, joins)
    requires !joins(MergeAll(us[lo..hi]), us[hi])
    ensures GroupFrom(us[hi..], MergeAll(us[lo..hi]), grouped, joins) == grouped + MergeRuns(RunsFrom(us, lo, joins))
    decreases |us| - hi, 1
  {
    var m := MergeAll(us[lo..hi]);
    FoldCloseStep(us, lo, hi, grouped, joins);
    GroupFromOne(us, hi, grouped + [m], joins);
    CloseRunStep(us, lo, hi, joins);
    AppendAssoc(grouped, [m], MergeRuns(RunsFrom(us, hi, joins)));
  }

  /** GroupFromRuns with a single utterance open: the group `us[hi]` that the
      close step opens. */
  lemma {:induction false} GroupFromOne(us: seq<Utterance>, hi: nat, grouped: seq<Utterance>,
                                        joins: (Utterance, Utterance) -> bool)
    requires DecidesLikeLast(joins)
    requires hi < |us|
    ensures GroupFrom(us[hi + 1..], MergeAll(us[hi..hi + 1]), grouped, joins) == grouped + MergeRuns(RunsFrom(us, hi, joins))
    decreases |us| - hi, 0
  {
    assert ChainBetween(us, hi, hi + 1, joins);
    GroupFromRuns(us, hi, hi + 1, grouped, joins);
  }

  /** `groupUtterances` returns the maximal runs of its input, each merged. */
  lemma GroupIsMergedRuns(us: seq<Utterance>)
    ensures GroupUtterances(us) == MergeRuns(Runs(us))
  {
    if us != [] {
      assert MergeAll(us[0..1]) == us[0];
      GroupingDecidesLikeLast();
      GroupFromRuns(us, 0, 1, [], ShouldGroupWithPrevious);
    }
  }

  // ---------------------------------------------------------------------------
  // Consequences for callers.

  lemma {:induction false} MergeRunsWords(rs: seq<seq<Utterance>>)
    requires forall k :: 0 <= k < |rs| ==> |rs[k]| >= 1
    ensures AllWords(MergeRuns(rs)) == AllWords(Flatten(rs))
  {
    if rs != [] {
      MergeRunsWords(rs[1..]);
      MergeAllWords(rs[0]);
      var r := MergeRuns(rs);
      assert r == [MergeAll(rs[0])] + MergeRuns(rs[1..]);
      AllWordsAppend([MergeAll(rs[0])], MergeRuns(rs[1..]));
      assert AllWords([MergeAll(rs[0])]) == MergeAll(rs[0]).words + AllWords([]);
      AllWordsAppend(rs[0], Flatten(rs[1..]));
    }
  }

  /** Grouping neither drops, duplicates nor reorders words. */
  lemma GroupPreservesWords(us: seq<Utterance>)
    ensures AllWords(GroupUtterances(us)) == AllWords(us)
  {
    GroupIsMergedRuns(us);
    RunsPartition(us);
    MergeRunsWords(Runs(us));
  }

  /** The empty input comes back unchanged; a non-empty one gives at least one
      and at most as many groups as utterances. */
  lemma GroupLength(us: seq<Utterance>)
    ensures us == [] ==> GroupUtterances(us) == []
    ensures us != [] ==> 1 <= |GroupUtterances(us)| <= |us|
  {
    GroupIsMergedRuns(us);
    RunsPartition(us);
  }

  /** Group `k` of the output is run `k` of the input merged: it spans from the
      start of the run's first utterance to the end of its last, its text is
      the run's texts joined by single spaces, its words are the run's words,
      its confidence the lowest in the run, its speaker and legacy translation
      the first member's; `translations` survives only in a group of one, and
      a group of one is its utterance unchanged. */
  lemma GroupMembers(us: seq<Utterance>)
    ensures var g := GroupUtterances(us); var rs := Runs(us);
      && |g| == |rs|
      && forall k :: 0 <= k < |g| ==>
        && g[k].start == rs[k][0].start && g[k].end == rs[k][|rs[k]| - 1].end
        && g[k].text == Join(Texts(rs[k]), ' ')
        && g[k].words == AllWords(rs[k])
        && (forall i :: 0 <= i < |rs[k]| ==> g[k].confidence <= rs[k][i].confidence)
        && (exists i :: 0 <= i < |rs[k]| && g[k].confidence == rs[k][i].confidence)
        && g[k].speaker == rs[k][0].speaker && g[k].translation == rs[k][0].translation
        && g[k].translations == (if |rs[k]| == 1 then rs[k][0].translations else None)
        && (|rs[k]| == 1 ==> g[k] == rs[k][0])
  {
    GroupIsMergedRuns(us);
    var rs := Runs(us);
    forall k | 0 <= k < |rs|
      ensures var m := MergeAll(rs[k]);
        && m.start == rs[k][0].start && m.end == rs[k][|rs[k]| - 1].end
        && m.text == Join(Texts(rs[k]), ' ')
        && m.words == AllWords(rs[k])
        && (forall i :: 0 <= i < |rs[k]| ==> m.confidence <= rs[k][i].confidence)
        && (exists i :: 0 <= i < |rs[k]| && m.confidence == rs[k][i].confidence)
        && m.speaker == rs[k][0].speaker && m.translation == rs[k][0].translation
        && m.translations == (if |rs[k]| == 1 then rs[k][0].translations else None)
        && (|rs[k]| == 1 ==> m == rs[k][0])
    {
      MergeAllBounds(rs[k]);
      MergeAllWords(rs[k]);
      MergeAllText(rs[k]);
      MergeAllConfidence(rs[k]);
    }
  }
}
