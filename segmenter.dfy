/**
 * The series segmenter of the trade-history calculator (`process_deals`).
 *
 * The broker report is a list of deals. The first one is an opening record
 * and is dropped. Every later deal with a profit of zero or less extends the
 * current drawdown series; every deal with a positive profit emits exactly one
 * summary record: either it closes the series (when the drawdown is negative)
 * or it is a standalone win.
 */
module SeriesSegmenter {
  import opened Wrappers

  /** One report row: its time in seconds, the traded volume, the deal's profit and the balance after it. */
  datatype Deal = Deal(time: int, volume: real, profit: real, balance: real)

  /**
   * One summary record, emitted by a winning deal: that deal's time, volume and balance,
   * the balance change since the series began, the drawdown of the series, its length
   * counting the closing deal, and the cumulative drawdown reached at each depth 1, 2, ...
   */
  datatype Series = Series(time: int, volume: real, balance: real, change: real,
                           drawdown: real, length: nat, levels: map<int, real>)

  /** The loop state of the segmenter; `anchor` is the balance the current series started from. */
  datatype RunState = RunState(drawdown: real, length: nat, levels: map<int, real>, anchor: Option<real>)

  const Start := RunState(0.0, 0, map[], None)

  // ---------------------------------------------------------------------------
  // The segmenter as a fold: the reference the loop is proved against
  // ---------------------------------------------------------------------------

  /** What one deal does to the loop state, and the record it emits, if any. */
  function Step(s: RunState, d: Deal): (RunState, Option<Series>)
  {
    // the anchor is taken afresh on every deal while no loss is pending
    var anchor := if s.anchor.None? || s.drawdown == 0.0 then d.balance - d.profit else s.anchor.value;
    var change := d.balance - anchor;
    if d.profit > 0.0 then
      if s.drawdown < 0.0 then
        (RunState(0.0, 0, map[], Some(anchor)),
         Some(Series(d.time, d.volume, d.balance, change, s.drawdown, s.length + 1, s.levels)))
      else
        // a standalone win leaves the length and the levels as they are
        (s.(anchor := Some(anchor)),
         Some(Series(d.time, d.volume, d.balance, change, 0.0, 1, map[])))
    else
      var drawdown := s.drawdown + d.profit;
      (RunState(drawdown, s.length + 1, s.levels[s.length + 1 := drawdown], Some(anchor)), None)
  }

  function Emitted(o: Option<Series>): seq<Series>
  {
    if o.Some? then [o.value] else []
  }

  /** The loop state and the records emitted after the deals `ds`, taken in order. */
  function Run(ds: seq<Deal>): (RunState, seq<Series>)
  {
    if ds == [] then (Start, [])
    else
      var before := Run(ds[..|ds| - 1]);
      var step := Step(before.0, ds[|ds| - 1]);
      (step.0, before.1 + Emitted(step.1))
  }

  /** Unfolds `Run` at the last deal. */
  lemma RunLast(ds: seq<Deal>)
    requires ds != []
    ensures var before := Run(ds[..|ds| - 1]);
            var step := Step(before.0, ds[|ds| - 1]);
            Run(ds) == (step.0, before.1 + Emitted(step.1))
  {
  }

  /** The records emitted for the deals `ds` (the opening record already dropped). */
  function Segment(ds: seq<Deal>): seq<Series>
  {
    Run(ds).1
  }

  // ---------------------------------------------------------------------------
  // process_deals
  // ---------------------------------------------------------------------------

  /**
   * Drops the opening record and segments the rest. An empty report has no
   * record to drop: the source raises there, modelled as `None`.
   */
  method ProcessDeals(deals: seq<Deal>) returns (result: Option<seq<Series>>)
    ensures result.None? <==> deals == []
    ensures deals != [] ==> result == Some(Segment(deals[1..]))
  {
    if |deals| == 0 {
      return None;
    }
    var rest := deals[1..];
    var processed: seq<Series> := [];
    var drawdown: real := 0.0;
    var length: nat := 0;
    var levels: map<int, real> := map[];
    var anchor: Option<real> := None;
    var i := 0;
    while i < |rest|
      invariant 0 <= i <= |rest|
      invariant Run(rest[..i]) == (RunState(drawdown, length, levels, anchor), processed)
    {
      var d := rest[i];
      ghost var s0 := RunState(drawdown, length, levels, anchor);
      ghost var out0 := processed;
      if anchor.None? || drawdown == 0.0 {
        anchor := Some(d.balance - d.profit);
      }
      var change := d.balance - anchor.value;
      if d.profit > 0.0 {
        if drawdown < 0.0 {
          processed := processed + [Series(d.time, d.volume, d.balance, change, drawdown, length + 1, levels)];
          drawdown, length, levels := 0.0, 0, map[];
        } else {
          processed := processed + [Series(d.time, d.volume, d.balance, change, 0.0, 1, map[])];
        }
      } else {
        drawdown := drawdown + d.profit;
        length := length + 1;
        levels := levels[length := drawdown];
      }
      assert rest[..i + 1][..i] == rest[..i];
      assert rest[..i + 1][i] == d;
      assert Step(s0, d).0 == RunState(drawdown, length, levels, anchor);
      assert out0 + Emitted(Step(s0, d).1) == processed;
      i := i + 1;
    }
    assert rest[..|rest|] == rest;
    return Some(processed);
  }

  // ---------------------------------------------------------------------------
  // Independent descriptions of the input
  // ---------------------------------------------------------------------------

  /** The winning deals of `ds`, in order. */
  function Wins(ds: seq<Deal>): (w: seq<Deal>)
    ensures |w| <= |ds|
    ensures forall k :: 0 <= k < |w| ==> w[k].profit > 0.0
  {
    if ds == [] then []
    else Wins(ds[..|ds| - 1]) + (if ds[|ds| - 1].profit > 0.0 then [ds[|ds| - 1]] else [])
  }

  /** The longest suffix of `ds` without a winning deal: the losing run still open at its end. */
  function TrailingRun(ds: seq<Deal>): (t: seq<Deal>)
    ensures |t| <= |ds| && t == ds[|ds| - |t|..]
    ensures forall k :: 0 <= k < |t| ==> t[k].profit <= 0.0
    ensures |t| < |ds| ==> ds[|ds| - |t| - 1].profit > 0.0
  {
    if ds == [] || ds[|ds| - 1].profit > 0.0 then []
    else TrailingRun(ds[..|ds| - 1]) + [ds[|ds| - 1]]
  }

  function ProfitSum(ds: seq<Deal>): real
  {
    if ds == [] then 0.0 else ProfitSum(ds[..|ds| - 1]) + ds[|ds| - 1].profit
  }

  /** No deal of `ds` closed at exactly zero profit. */
  predicate ZeroFree(ds: seq<Deal>)
  {
    forall k :: 0 <= k < |ds| ==> ds[k].profit != 0.0
  }

  /** Every balance is the previous one plus the deal's profit. */
  predicate Consistent(ds: seq<Deal>)
  {
    forall k :: 1 <= k < |ds| ==> ds[k].balance == ds[k - 1].balance + ds[k].profit
  }

  /**
   * A depth map for a series of `n` losing deals ending at `drawdown`: it has exactly
   * the depths 1..n, its values are at most zero and never increase with depth, and
   * the deepest one is the drawdown.
   */
  ghost predicate LevelsOk(m: map<int, real>, n: nat, drawdown: real)
  {
    (forall k :: k in m <==> 1 <= k <= n) &&
    (forall i, j :: 1 <= i <= j <= n ==> m[j] <= m[i] <= 0.0) &&
    (if n == 0 then drawdown == 0.0 else m[n] == drawdown)
  }

  ghost predicate RunOk(s: RunState)
  {
    s.drawdown <= 0.0 && LevelsOk(s.levels, s.length, s.drawdown)
  }

  /** An emitted record is a standalone win or a closed series with its depth map. */
  ghost predicate SeriesOk(r: Series)
  {
    (r.drawdown == 0.0 && r.length == 1 && r.levels == map[]) ||
    (r.drawdown < 0.0 && r.length >= 2 && LevelsOk(r.levels, r.length - 1, r.drawdown))
  }

  /** A record carries its winning deal's time, volume and balance; a standalone win reports that deal's own profit. */
  predicate Summarises(r: Series, d: Deal)
  {
    r.time == d.time && r.volume == d.volume && r.balance == d.balance &&
    (r.drawdown == 0.0 ==> r.change == d.profit)
  }

  // ---------------------------------------------------------------------------
  // Properties of the segmenter
  // ---------------------------------------------------------------------------

  lemma StepKeepsRunOk(s: RunState, d: Deal)
    requires RunOk(s)
    ensures RunOk(Step(s, d).0)
    ensures Step(s, d).1.Some? ==> SeriesOk(Step(s, d).1.value)
  {
    if d.profit <= 0.0 {
      var n := s.length;
      var dd := s.drawdown + d.profit;
      var m := s.levels[n + 1 := dd];
      forall i, j | 1 <= i <= j <= n + 1
        ensures m[j] <= m[i] <= 0.0
      {
        if j == n + 1 && n > 0 {
          assert s.levels[n] <= s.levels[if i == n + 1 then n else i];
        }
      }
    }
  }

  /** The drawdown never becomes positive, and every emitted record is well formed. */
  lemma {:induction false} SegmentWellFormed(ds: seq<Deal>)
    ensures RunOk(Run(ds).0)
    ensures forall k :: 0 <= k < |Segment(ds)| ==> SeriesOk(Segment(ds)[k])
  {
    if ds != [] {
      var pre := ds[..|ds| - 1];
      SegmentWellFormed(pre);
      var step := Step(Run(pre).0, ds[|ds| - 1]);
      StepKeepsRunOk(Run(pre).0, ds[|ds| - 1]);
      RunLast(ds);
      assert Segment(ds) == Segment(pre) + Emitted(step.1);
    }
  }

  /** The running drawdown is never positive. */
  lemma DrawdownNonPositive(ds: seq<Deal>)
    ensures Run(ds).0.drawdown <= 0.0
  {
    SegmentWellFormed(ds);
  }

  /** Exactly one record per winning deal, in order, each summarising its deal. */
  lemma {:induction false} SegmentMatchesWins(ds: seq<Deal>)
    ensures |Segment(ds)| == |Wins(ds)|
    ensures forall k :: 0 <= k < |Wins(ds)| ==> Summarises(Segment(ds)[k], Wins(ds)[k])
  {
    if ds != [] {
      var pre := ds[..|ds| - 1];
      var d := ds[|ds| - 1];
      SegmentMatchesWins(pre);
      SegmentWellFormed(pre);
      RunLast(ds);
      var step := Step(Run(pre).0, d);
      assert Segment(ds) == Segment(pre) + Emitted(step.1);
      assert Wins(ds) == Wins(pre) + (if d.profit > 0.0 then [d] else []);
      assert step.1.Some? <==> d.profit > 0.0;
      assert step.1.Some? ==> Summarises(step.1.value, d);
    }
  }

  /** A losing run that no win closes emits nothing. */
  lemma {:induction false} LossesEmitNothing(ds: seq<Deal>, losses: seq<Deal>)
    requires forall k :: 0 <= k < |losses| ==> losses[k].profit <= 0.0
    ensures Segment(ds + losses) == Segment(ds)
  {
    if losses == [] {
      assert ds + losses == ds;
    } else {
      var pre := losses[..|losses| - 1];
      LossesEmitNothing(ds, pre);
      assert (ds + losses)[..|ds + losses| - 1] == ds + pre;
    }
  }

  /** The pending drawdown is the sum of the profits of the open losing run. */
  lemma {:induction false} DrawdownIsRunSum(ds: seq<Deal>)
    ensures Run(ds).0.drawdown == ProfitSum(TrailingRun(ds))
  {
    if ds != [] {
      var pre := ds[..|ds| - 1];
      DrawdownIsRunSum(pre);
      SegmentWellFormed(pre);
      RunLast(ds);
      if ds[|ds| - 1].profit <= 0.0 {
        var t := TrailingRun(ds);
        assert t == TrailingRun(pre) + [ds[|ds| - 1]];
        assert t[..|t| - 1] == TrailingRun(pre);
      }
    }
  }

  /**
   * A winning deal emits exactly one record after those already emitted. Its drawdown
   * is the sum of the open losing run; closing a series resets the length and the
   * levels, and after any win no loss is pending.
   */
  lemma WinEmitsOne(ds: seq<Deal>, w: Deal)
    requires w.profit > 0.0
    ensures |Segment(ds + [w])| == |Segment(ds)| + 1
    ensures Segment(ds + [w])[..|Segment(ds)|] == Segment(ds)
    ensures Segment(ds + [w])[|Segment(ds)|].drawdown == ProfitSum(TrailingRun(ds))
    ensures Run(ds + [w]).0.drawdown == 0.0
    ensures Segment(ds + [w])[|Segment(ds)|].drawdown < 0.0 ==>
              Run(ds + [w]).0.length == 0 && Run(ds + [w]).0.levels == map[]
  {
    assert (ds + [w])[..|ds + [w]| - 1] == ds;
    DrawdownIsRunSum(ds);
    SegmentWellFormed(ds);
  }

  lemma {:induction false} NegativeRunSum(t: seq<Deal>)
    requires forall k :: 0 <= k < |t| ==> t[k].profit < 0.0
    ensures t == [] <==> ProfitSum(t) == 0.0
    ensures t != [] ==> ProfitSum(t) < 0.0
  {
    if t != [] {
      NegativeRunSum(t[..|t| - 1]);
    }
  }

  /** The depth map of a state whose open run is `t`. */
  ghost predicate LevelsTrack(s: RunState, t: seq<Deal>)
  {
    s.length == |t| &&
    forall k :: 1 <= k <= s.length ==> k in s.levels && s.levels[k] == ProfitSum(t[..k])
  }

  /** Without zero-profit deals every deal of the open losing run lost money. */
  lemma TrailingRunNegative(ds: seq<Deal>)
    requires ZeroFree(ds)
    ensures forall k :: 0 <= k < |TrailingRun(ds)| ==> TrailingRun(ds)[k].profit < 0.0
  {
    var t := TrailingRun(ds);
    forall k | 0 <= k < |t| ensures t[k].profit < 0.0 {
      assert t[k] == ds[|ds| - |t| + k];
    }
  }

  /** Recording the next loss of a run at the next depth keeps the levels the run's prefix sums. */
  lemma ExtendLevels(m: map<int, real>, t: seq<Deal>, d: Deal)
    requires forall k :: 1 <= k <= |t| ==> k in m && m[k] == ProfitSum(t[..k])
    ensures var m' := m[|t| + 1 := ProfitSum(t) + d.profit];
            forall k :: 1 <= k <= |t| + 1 ==> k in m' && m'[k] == ProfitSum((t + [d])[..k])
  {
    var t' := t + [d];
    forall k | 1 <= k <= |t'|
      ensures ProfitSum(t'[..k]) == if k == |t'| then ProfitSum(t) + d.profit else m[k]
    {
      if k == |t'| {
        assert t'[..k] == t';
        assert t'[..k][..k - 1] == t;
      } else {
        assert t'[..k] == t[..k];
      }
    }
  }

  /** A win after a run of losses leaves no run and no levels pending. */
  lemma WinTracksRun(s: RunState, t: seq<Deal>, d: Deal)
    requires LevelsTrack(s, t) && s.drawdown == ProfitSum(t)
    requires forall k :: 0 <= k < |t| ==> t[k].profit < 0.0
    requires d.profit > 0.0
    ensures LevelsTrack(Step(s, d).0, [])
  {
    NegativeRunSum(t);
  }

  /** A loss extends the run, and the levels follow it. */
  lemma LossTracksRun(s: RunState, t: seq<Deal>, d: Deal)
    requires LevelsTrack(s, t) && s.drawdown == ProfitSum(t)
    requires d.profit <= 0.0
    ensures LevelsTrack(Step(s, d).0, t + [d])
  {
    ExtendLevels(s.levels, t, d);
  }

  /**
   * Without zero-profit deals, the pending length is the length of the open losing run
   * and the level at depth k is the sum of its first k profits.
   */
  lemma {:induction false} OpenRunLevels(ds: seq<Deal>)
    requires ZeroFree(ds)
    ensures LevelsTrack(Run(ds).0, TrailingRun(ds))
  {
    if ds != [] {
      var pre := ds[..|ds| - 1];
      var d := ds[|ds| - 1];
      assert ZeroFree(pre);
      OpenRunLevels(pre);
      DrawdownIsRunSum(pre);
      RunLast(ds);
      if d.profit > 0.0 {
        TrailingRunNegative(pre);
        WinTracksRun(Run(pre).0, TrailingRun(pre), d);
      } else {
        LossTracksRun(Run(pre).0, TrailingRun(pre), d);
      }
    }
  }

  /**
   * Without zero-profit deals, the record a win emits closes a series exactly when a
   * losing run is open; it then counts that run plus the win, and its level at depth k
   * is the sum of the run's first k profits.
   */
  lemma ClosedSeriesLevels(ds: seq<Deal>, w: Deal)
    requires ZeroFree(ds) && w.profit > 0.0
    ensures var r := Segment(ds + [w])[|Segment(ds)|];
            && (r.drawdown < 0.0 <==> TrailingRun(ds) != [])
            && r.length == |TrailingRun(ds)| + 1
            && forall k :: 1 <= k < r.length ==>
                 k in r.levels && r.levels[k] == ProfitSum(TrailingRun(ds)[..k])
  {
    WinEmitsOne(ds, w);
    OpenRunLevels(ds);
    NegativeRunSum(TrailingRun(ds));
    assert (ds + [w])[..|ds + [w]| - 1] == ds;
  }

  /** With consistent balances the anchor is the balance before the open run's losses. */
  lemma {:induction false} AnchorBeforeRun(ds: seq<Deal>)
    requires Consistent(ds)
    ensures ds != [] && Run(ds).0.drawdown < 0.0 ==>
              Run(ds).0.anchor == Some(ds[|ds| - 1].balance - Run(ds).0.drawdown)
  {
    if ds != [] {
      var pre := ds[..|ds| - 1];
      AnchorBeforeRun(pre);
      DrawdownNonPositive(pre);
      RunLast(ds);
      if pre != [] {
        assert ds[|ds| - 1].balance == pre[|pre| - 1].balance + ds[|ds| - 1].profit;
      }
    }
  }

  /**
   * With consistent balances a record's change is its series' drawdown plus the
   * closing win's profit.
   */
  lemma {:induction false} SeriesChange(ds: seq<Deal>)
    requires Consistent(ds)
    ensures |Segment(ds)| == |Wins(ds)|
    ensures forall k :: 0 <= k < |Segment(ds)| ==>
              Segment(ds)[k].change == Segment(ds)[k].drawdown + Wins(ds)[k].profit
  {
    SegmentMatchesWins(ds);
    if ds != [] {
      var pre := ds[..|ds| - 1];
      SeriesChange(pre);
      AnchorBeforeRun(pre);
      SegmentMatchesWins(pre);
    }
  }
}
