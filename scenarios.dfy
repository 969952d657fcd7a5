/**
 * Worked runs of the calculator on small concrete histories.
 */
module Scenarios {
  import opened Wrappers
  import opened SeriesSegmenter
  import opened BalanceSimulator

  /** Two losses closed by a win: one record of length 3 with the depth map {1: -10, 2: -30}. */
  lemma TwoLossesThenWin()
    ensures Segment([Deal(1, 1.0, -10.0, 990.0), Deal(2, 1.0, -20.0, 970.0), Deal(3, 1.0, 50.0, 1020.0)])
         == [Series(3, 1.0, 1020.0, 20.0, -30.0, 3, map[1 := -10.0, 2 := -30.0])]
  {
    var ds := [Deal(1, 1.0, -10.0, 990.0), Deal(2, 1.0, -20.0, 970.0), Deal(3, 1.0, 50.0, 1020.0)];
    RunLast(ds[..1]);
    RunLast(ds[..2]);
    RunLast(ds);
    assert ds[..1][..0] == [] && ds[..2][..1] == ds[..1] && ds[..2] == ds[..3][..2];
  }

  /**
   * An opening record, two losses and a win: the opening record is dropped and the rest is
   * one series of length 3 with drawdown -80 and net change +20.
   */
  lemma OpeningRecordDropped()
    ensures Segment([Deal(0, 1.0, 0.0, 500.0), Deal(1, 1.0, -50.0, 450.0),
                     Deal(2, 1.0, -30.0, 420.0), Deal(3, 1.0, 100.0, 520.0)][1..])
         == [Series(3, 1.0, 520.0, 20.0, -80.0, 3, map[1 := -50.0, 2 := -80.0])]
  {
    var raw := [Deal(0, 1.0, 0.0, 500.0), Deal(1, 1.0, -50.0, 450.0),
                Deal(2, 1.0, -30.0, 420.0), Deal(3, 1.0, 100.0, 520.0)];
    var ds := raw[1..];
    assert ds == [Deal(1, 1.0, -50.0, 450.0), Deal(2, 1.0, -30.0, 420.0), Deal(3, 1.0, 100.0, 520.0)];
    RunLast(ds[..1]);
    RunLast(ds[..2]);
    RunLast(ds);
    assert ds[..1][..0] == [] && ds[..2][..1] == ds[..1] && ds[..2] == ds[..3][..2] && ds[..3] == ds;
  }

  /**
   * That series replayed from 500 with a multiplier of 500 and a cap of 8: it is within the
   * cap, so the trade books its net change of +20, not its drawdown; the balance ends at 520
   * and no deposit follows.
   */
  lemma SeriesWithinCapBooksNetChange()
    ensures var c := Config(500.0, 8, None, None, 500.0);
            var rs := [Series(3, 1.0, 520.0, 20.0, -80.0, 3, map[1 := -50.0, 2 := -80.0])];
            && Computable(c, rs)
            && Ledger(c, rs) == [Event(3, 20.0, 520.0, 3, 1, Trade)]
  {
    var c := Config(500.0, 8, None, None, 500.0);
    var rs := [Series(3, 1.0, 520.0, 20.0, -80.0, 3, map[1 := -50.0, 2 := -80.0])];
    SimulateLast(c, rs);
    assert rs[..0] == [];
    assert CapitalRatio(500.0, 500.0) == 1;
  }

  /**
   * The same series with a cap of 1: it is longer than the cap, so the trade books the
   * drawdown after the first loss, -50, and a deposit of 50 restores the balance.
   */
  lemma SeriesBeyondCapBooksCappedLevel()
    ensures var c := Config(500.0, 1, None, None, 500.0);
            var rs := [Series(3, 1.0, 520.0, 20.0, -80.0, 3, map[1 := -50.0, 2 := -80.0])];
            && Computable(c, rs)
            && Ledger(c, rs) == [Event(3, -50.0, 450.0, 3, 1, Trade), Event(8, 50.0, 500.0, 0, 0, Deposit)]
  {
    var c := Config(500.0, 1, None, None, 500.0);
    var rs := [Series(3, 1.0, 520.0, 20.0, -80.0, 3, map[1 := -50.0, 2 := -80.0])];
    SimulateLast(c, rs);
    assert rs[..0] == [];
    assert CapitalRatio(500.0, 500.0) == 1;
  }

  /** A zero-profit deal counts towards the next series even though a standalone win comes between. */
  lemma ZeroProfitCarriesOver()
    ensures Segment([Deal(1, 1.0, 0.0, 100.0), Deal(2, 1.0, 5.0, 105.0),
                     Deal(3, 1.0, -3.0, 102.0), Deal(4, 1.0, 4.0, 106.0)])
         == [Series(2, 1.0, 105.0, 5.0, 0.0, 1, map[]),
             Series(4, 1.0, 106.0, 1.0, -3.0, 3, map[1 := 0.0, 2 := -3.0])]
  {
    var ds := [Deal(1, 1.0, 0.0, 100.0), Deal(2, 1.0, 5.0, 105.0),
               Deal(3, 1.0, -3.0, 102.0), Deal(4, 1.0, 4.0, 106.0)];
    RunLast(ds[..1]);
    RunLast(ds[..2]);
    RunLast(ds[..3]);
    RunLast(ds);
    assert ds[..1][..0] == [] && ds[..2][..1] == ds[..1] && ds[..3][..2] == ds[..2] && ds[..4][..3] == ds[..3];
    assert ds[..4] == ds;
  }

  /**
   * A loss that leaves 420 of 500 is topped up by a deposit of 80 five seconds later; a later
   * win that lifts the balance to 2000 (at least 2 * 500 + 500) withdraws 500, as one deposit
   * is outstanding.
   */
  lemma DepositThenWithdrawal()
    ensures var c := Config(500.0, 8, None, None, 500.0);
            var rs := [Series(10, 1.0, 0.0, -80.0, -80.0, 2, map[1 := -80.0]),
                       Series(20, 1.0, 0.0, 1500.0, 0.0, 1, map[])];
            && Computable(c, rs)
            && Ledger(c, rs) == [Event(10, -80.0, 420.0, 2, 1, Trade),
                                 Event(15, 80.0, 500.0, 0, 0, Deposit),
                                 Event(20, 1500.0, 2000.0, 1, 1, Trade),
                                 Event(25, -500.0, 1500.0, 0, 0, Withdrawal)]
            && Final(c, rs) == Account(1500.0, 1, 1)
  {
    var c := Config(500.0, 8, None, None, 500.0);
    var rs := [Series(10, 1.0, 0.0, -80.0, -80.0, 2, map[1 := -80.0]),
               Series(20, 1.0, 0.0, 1500.0, 0.0, 1, map[])];
    SimulateLast(c, rs[..1]);
    SimulateLast(c, rs);
    assert rs[..1][..0] == [] && rs[..2][..1] == rs[..1] && rs[..2] == rs;
    assert CapitalRatio(500.0, 500.0) == 1;
  }

  /** Both ends of the date window are inclusive; a record one second past the end is skipped. */
  lemma WindowEnds()
    ensures var c := Config(500.0, 8, Some(10), Some(20), 500.0);
            var rs := [Series(10, 1.0, 0.0, 5.0, 0.0, 1, map[]),
                       Series(20, 1.0, 0.0, 5.0, 0.0, 1, map[]),
                       Series(21, 1.0, 0.0, 5.0, 0.0, 1, map[])];
            && Computable(c, rs)
            && Ledger(c, rs) == [Event(10, 5.0, 505.0, 1, 1, Trade), Event(20, 5.0, 510.0, 1, 1, Trade)]
  {
    var c := Config(500.0, 8, Some(10), Some(20), 500.0);
    var rs := [Series(10, 1.0, 0.0, 5.0, 0.0, 1, map[]),
               Series(20, 1.0, 0.0, 5.0, 0.0, 1, map[]),
               Series(21, 1.0, 0.0, 5.0, 0.0, 1, map[])];
    SimulateLast(c, rs[..1]);
    SimulateLast(c, rs[..2]);
    SimulateLast(c, rs);
    assert rs[..1][..0] == [] && rs[..2][..1] == rs[..1] && rs[..3][..2] == rs[..2] && rs[..3] == rs;
    assert CapitalRatio(500.0, 500.0) == 1 && CapitalRatio(505.0, 500.0) == 1;
  }
}
