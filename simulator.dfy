/**
 * The balance simulator of the trade-history calculator (`recalculate_balance`).
 *
 * It replays the segmented records on an account that starts at the initial
 * balance. Each record inside the date window becomes a trade whose result is
 * scaled by the whole number of multipliers the balance holds (at least one).
 * A trade that leaves the balance below the initial balance is followed by a
 * deposit restoring it; a large enough balance is followed by a withdrawal of
 * the initial balance, but never more withdrawals than deposits.
 */
module BalanceSimulator {
  import opened Wrappers
  import opened SeriesSegmenter

  /**
   * The parameters of one run: the initial balance (also the floor that triggers a
   * deposit), the depth at which a series' loss is capped, the optional first and
   * last admitted times (both inclusive) and the capital multiplier.
   */
  datatype Config = Config(initialBalance: real, drawdownLevel: int,
                           startDate: Option<int>, endDate: Option<int>, multiplier: real)

  datatype Kind = Trade | Deposit | Withdrawal

  /** One ledger entry: time, signed change, balance after it, series length and capital ratio (both 0 for a deposit or withdrawal). */
  datatype Event = Event(time: int, change: real, balance: real, length: int, ratio: int, kind: Kind)

  /** The running counters of a simulation. */
  datatype Account = Account(balance: real, deposits: nat, withdrawals: nat)

  /** Seconds between a trade and the deposit or withdrawal it triggers. */
  const SyntheticDelay := 5

  predicate InWindow(c: Config, t: int)
  {
    (c.startDate.None? || c.startDate.value <= t) && (c.endDate.None? || t <= c.endDate.value)
  }

  /** The number of whole multipliers in the balance, but at least one. */
  function CapitalRatio(balance: real, multiplier: real): (r: int)
    requires multiplier != 0.0
    ensures r >= 1
    ensures r > 1 ==> r as real <= balance / multiplier < r as real + 1.0
    ensures r == 1 <==> balance / multiplier < 2.0
  {
    var whole := (balance / multiplier).Floor;
    if whole > 1 then whole else 1
  }

  /** The unscaled result of a record: its change, or its level at the cap depth when the series is longer than the cap. */
  function Loss(c: Config, r: Series): real
  {
    if r.length > c.drawdownLevel then
      if c.drawdownLevel in r.levels then r.levels[c.drawdownLevel] else 0.0
    else
      r.change
  }

  /** The trade a record makes on the account: its result scaled by the capital ratio of the balance before it. */
  function Place(c: Config, a: Account, r: Series): (Account, Event)
    requires c.multiplier != 0.0
  {
    var ratio := CapitalRatio(a.balance, c.multiplier);
    var change := Loss(c, r) * ratio as real;
    (a.(balance := a.balance + change), Event(r.time, change, a.balance + change, r.length, ratio, Trade))
  }

  /** The deposit that tops a balance below the initial balance back up to it, if one is due. */
  function Replenish(c: Config, a: Account, time: int): (p: (Account, seq<Event>))
    ensures p.0.balance >= c.initialBalance && p.0.balance >= a.balance
    ensures p.1 != [] <==> a.balance < c.initialBalance
  {
    if a.balance < c.initialBalance then
      var amount := c.initialBalance - a.balance;
      (Account(a.balance + amount, a.deposits + 1, a.withdrawals),
       [Event(time + SyntheticDelay, amount, a.balance + amount, 0, 0, Deposit)])
    else
      (a, [])
  }

  /** The withdrawal of the initial balance, if the balance is high enough and deposits outnumber withdrawals. */
  function Withdraw(c: Config, a: Account, time: int): (p: (Account, seq<Event>))
    ensures a.withdrawals <= a.deposits ==> p.0.withdrawals <= p.0.deposits
  {
    if a.balance >= c.multiplier * 2.0 + c.initialBalance && a.withdrawals < a.deposits then
      var left := a.balance - c.initialBalance;
      (Account(left, a.deposits, a.withdrawals + 1),
       [Event(time + SyntheticDelay, -c.initialBalance, left, 0, 0, Withdrawal)])
    else
      (a, [])
  }

  /**
   * For a well-formed record longer than the cap, the capped result is the drawdown reached at
   * the cap depth: never below the whole series' drawdown and never positive; a cap below
   * depth 1 finds no level and gives zero.
   */
  lemma CappedLoss(c: Config, r: Series)
    requires SeriesOk(r) && r.length > c.drawdownLevel
    ensures r.drawdown <= Loss(c, r) <= 0.0
    ensures c.drawdownLevel < 1 ==> Loss(c, r) == 0.0
    ensures c.drawdownLevel == r.length - 1 ==> Loss(c, r) == r.drawdown
  {
    if c.drawdownLevel >= 1 {
      assert r.levels[r.length - 1] <= r.levels[c.drawdownLevel] <= 0.0;
    }
  }

  /** The account and the ledger entries after one record: nothing outside the window. */
  function Settle(c: Config, a: Account, r: Series): (Account, seq<Event>)
    requires InWindow(c, r.time) ==> c.multiplier != 0.0
  {
    if !InWindow(c, r.time) then (a, [])
    else
      var traded := Place(c, a, r);
      var topped := Replenish(c, traded.0, r.time);
      var taken := Withdraw(c, topped.0, r.time);
      (taken.0, [traded.1] + topped.1 + taken.1)
  }

  /** No record inside the window would divide by a zero multiplier. */
  predicate Computable(c: Config, rs: seq<Series>)
  {
    c.multiplier != 0.0 || forall k :: 0 <= k < |rs| ==> !InWindow(c, rs[k].time)
  }

  /** The account and the ledger after the records `rs`, taken in order. */
  function Simulate(c: Config, rs: seq<Series>): (Account, seq<Event>)
    requires Computable(c, rs)
  {
    if rs == [] then (Account(c.initialBalance, 0, 0), [])
    else
      var before := Simulate(c, rs[..|rs| - 1]);
      var settled := Settle(c, before.0, rs[|rs| - 1]);
      (settled.0, before.1 + settled.1)
  }

  function Ledger(c: Config, rs: seq<Series>): seq<Event>
    requires Computable(c, rs)
  {
    Simulate(c, rs).1
  }

  function Final(c: Config, rs: seq<Series>): Account
    requires Computable(c, rs)
  {
    Simulate(c, rs).0
  }

  /** Unfolds `Simulate` at the last record. */
  lemma SimulateLast(c: Config, rs: seq<Series>)
    requires rs != [] && Computable(c, rs)
    ensures Computable(c, rs[..|rs| - 1])
    ensures var before := Simulate(c, rs[..|rs| - 1]);
            var settled := Settle(c, before.0, rs[|rs| - 1]);
            Simulate(c, rs) == (settled.0, before.1 + settled.1)
  {
  }

  /** Extends `Simulate` by the next record of `rs`. */
  lemma SimulateNext(c: Config, rs: seq<Series>, i: int)
    requires 0 <= i < |rs| && Computable(c, rs[..i])
    requires InWindow(c, rs[i].time) ==> c.multiplier != 0.0
    ensures Computable(c, rs[..i + 1])
    ensures var before := Simulate(c, rs[..i]);
            var settled := Settle(c, before.0, rs[i]);
            Simulate(c, rs[..i + 1]) == (settled.0, before.1 + settled.1)
  {
    assert rs[..i + 1][..i] == rs[..i];
    SimulateLast(c, rs[..i + 1]);
  }

  // ---------------------------------------------------------------------------
  // recalculate_balance
  // ---------------------------------------------------------------------------

  /**
   * The body of the replay loop for one record inside the window: the trade, then the
   * deposit and the withdrawal when they are due.
   */
  method SettleRecord(c: Config, r: Series, balance: real, deposits: nat, withdrawals: nat)
    returns (balance': real, deposits': nat, withdrawals': nat, entries: seq<Event>)
    requires InWindow(c, r.time) && c.multiplier != 0.0
    ensures (Account(balance', deposits', withdrawals'), entries) == Settle(c, Account(balance, deposits, withdrawals), r)
  {
    ghost var a := Account(balance, deposits, withdrawals);
    balance', deposits', withdrawals' := balance, deposits, withdrawals;

    // the capped or full result of the record, scaled by the capital ratio
    var loss := Loss(c, r);
    var ratio := CapitalRatio(balance', c.multiplier);
    loss := loss * ratio as real;
    balance' := balance' + loss;
    entries := [Event(r.time, loss, balance', r.length, ratio, Trade)];
    ghost var traded := Place(c, a, r);
    assert traded == (Account(balance', deposits', withdrawals'), entries[0]);

    if balance' < c.initialBalance {
      var amount := c.initialBalance - balance';
      balance' := balance' + amount;
      deposits' := deposits' + 1;
      entries := entries + [Event(r.time + SyntheticDelay, amount, balance', 0, 0, Deposit)];
    }
    ghost var topped := Replenish(c, traded.0, r.time);
    assert topped.0 == Account(balance', deposits', withdrawals');
    assert entries == [traded.1] + topped.1;

    if balance' >= c.multiplier * 2.0 + c.initialBalance && withdrawals' < deposits' {
      balance' := balance' - c.initialBalance;
      withdrawals' := withdrawals' + 1;
      entries := entries + [Event(r.time + SyntheticDelay, -c.initialBalance, balance', 0, 0, Withdrawal)];
    }
    ghost var taken := Withdraw(c, topped.0, r.time);
    assert taken.0 == Account(balance', deposits', withdrawals');
    assert entries == [traded.1] + topped.1 + taken.1;
  }

  /**
   * Replays the records. A record inside the window with a zero multiplier makes the
   * source divide by zero and raise: modelled as `None`.
   */
  method RecalculateBalance(records: seq<Series>, c: Config) returns (history: Option<seq<Event>>)
    ensures history.Some? <==> Computable(c, records)
    ensures history.Some? ==> history.value == Ledger(c, records)
  {
    var balance := c.initialBalance;
    var events: seq<Event> := [];
    var withdrawals: nat := 0;
    var deposits: nat := 0;
    for i := 0 to |records|
      invariant Computable(c, records[..i])
      invariant Simulate(c, records[..i]) == (Account(balance, deposits, withdrawals), events)
    {
      var r := records[i];
      ghost var a0 := Account(balance, deposits, withdrawals);
      ghost var events0 := events;
      if c.startDate.Some? && r.time < c.startDate.value {
        SimulateNext(c, records, i);
        assert events0 + [] == events0;
        continue;
      }
      if c.endDate.Some? && r.time > c.endDate.value {
        SimulateNext(c, records, i);
        assert events0 + [] == events0;
        continue;
      }
      if c.multiplier == 0.0 {
        return None;
      }
      SimulateNext(c, records, i);
      var entries;
      balance, deposits, withdrawals, entries := SettleRecord(c, r, balance, deposits, withdrawals);
      events := events + entries;
    }
    assert records[..|records|] == records;
    return Some(events);
  }

  // ---------------------------------------------------------------------------
  // Descriptions of a ledger
  // ---------------------------------------------------------------------------

  /** The balance just before entry k: the initial balance or the previous entry's balance. */
  function Prior(c: Config, evs: seq<Event>, k: int): real
    requires 0 <= k <= |evs|
  {
    if k == 0 then c.initialBalance else evs[k - 1].balance
  }

  /** Every entry moves the balance by exactly its change. */
  ghost predicate Chained(c: Config, evs: seq<Event>)
  {
    forall k :: 0 <= k < |evs| ==> evs[k].balance == Prior(c, evs, k) + evs[k].change
  }

  function Count(evs: seq<Event>, kind: Kind): nat
  {
    if evs == [] then 0
    else Count(evs[..|evs| - 1], kind) + (if evs[|evs| - 1].kind == kind then 1 else 0)
  }

  function TotalChange(evs: seq<Event>): real
  {
    if evs == [] then 0.0 else TotalChange(evs[..|evs| - 1]) + evs[|evs| - 1].change
  }

  /** The trade entries of a ledger, in order. */
  function Trades(evs: seq<Event>): (t: seq<Event>)
    ensures |t| <= |evs|
    ensures forall k :: 0 <= k < |t| ==> t[k].kind == Trade
  {
    if evs == [] then []
    else Trades(evs[..|evs| - 1]) + (if evs[|evs| - 1].kind == Trade then [evs[|evs| - 1]] else [])
  }

  /** The records inside the date window, in order. */
  function Window(c: Config, rs: seq<Series>): (w: seq<Series>)
    ensures |w| <= |rs|
    ensures forall k :: 0 <= k < |w| ==> InWindow(c, w[k].time)
    ensures Computable(c, rs) ==> Computable(c, w)
  {
    if rs == [] then []
    else Window(c, rs[..|rs| - 1]) + (if InWindow(c, rs[|rs| - 1].time) then [rs[|rs| - 1]] else [])
  }

  lemma {:induction false} CountAppend(x: seq<Event>, y: seq<Event>, kind: Kind)
    ensures Count(x + y, kind) == Count(x, kind) + Count(y, kind)
  {
    if y != [] {
      CountAppend(x, y[..|y| - 1], kind);
      assert (x + y)[..|x + y| - 1] == x + y[..|y| - 1];
    } else {
      assert x + y == x;
    }
  }

  /** Appending one entry counts it once if it has the kind. */
  lemma CountSnoc(evs: seq<Event>, e: Event, kind: Kind)
    ensures Count(evs + [e], kind) == Count(evs, kind) + (if e.kind == kind then 1 else 0)
  {
    assert (evs + [e])[..|evs|] == evs;
  }

  /** Appending one entry adds it to the trades if it is one. */
  lemma TradesSnoc(evs: seq<Event>, e: Event)
    ensures Trades(evs + [e]) == Trades(evs) + (if e.kind == Trade then [e] else [])
  {
    assert (evs + [e])[..|evs|] == evs;
  }

  lemma {:induction false} TradesAppend(x: seq<Event>, y: seq<Event>)
    ensures Trades(x + y) == Trades(x) + Trades(y)
  {
    if y != [] {
      TradesAppend(x, y[..|y| - 1]);
      assert (x + y)[..|x + y| - 1] == x + y[..|y| - 1];
    } else {
      assert x + y == x;
    }
  }

  // ---------------------------------------------------------------------------
  // Properties of the simulator
  // ---------------------------------------------------------------------------

  /** An entry that moves the balance by its change extends a chained ledger. */
  lemma ChainSnoc(c: Config, evs: seq<Event>, e: Event)
    requires Chained(c, evs) && e.balance == Prior(c, evs, |evs|) + e.change
    ensures Chained(c, evs + [e])
  {
    forall k | 0 <= k < |evs| + 1
      ensures (evs + [e])[k].balance == Prior(c, evs + [e], k) + (evs + [e])[k].change
    {
      if k < |evs| {
        assert (evs + [e])[k] == evs[k];
      }
    }
  }

  /** The entries one in-window record adds continue the balance chain from the account's balance. */
  lemma SettleChained(c: Config, a: Account, r: Series, evs: seq<Event>)
    requires InWindow(c, r.time) ==> c.multiplier != 0.0
    requires Chained(c, evs) && a.balance == Prior(c, evs, |evs|)
    ensures Chained(c, evs + Settle(c, a, r).1)
    ensures Settle(c, a, r).0.balance == Prior(c, evs + Settle(c, a, r).1, |evs + Settle(c, a, r).1|)
  {
    if InWindow(c, r.time) {
      var traded := Place(c, a, r);
      var topped := Replenish(c, traded.0, r.time);
      var taken := Withdraw(c, topped.0, r.time);
      var with_t := evs + [traded.1];
      ChainSnoc(c, evs, traded.1);
      var with_d := with_t + topped.1;
      if topped.1 != [] {
        ChainSnoc(c, with_t, topped.1[0]);
      } else {
        assert with_d == with_t;
      }
      assert evs + Settle(c, a, r).1 == with_d + taken.1;
      if taken.1 != [] {
        ChainSnoc(c, with_d, taken.1[0]);
      } else {
        assert with_d + taken.1 == with_d;
      }
    } else {
      assert evs + [] == evs;
    }
  }

  /** Every ledger entry moves the balance by its change, and the account ends at the last entry's balance. */
  lemma {:induction false} LedgerChained(c: Config, rs: seq<Series>)
    requires Computable(c, rs)
    ensures Chained(c, Ledger(c, rs))
    ensures Final(c, rs).balance == Prior(c, Ledger(c, rs), |Ledger(c, rs)|)
  {
    if rs != [] {
      var pre := rs[..|rs| - 1];
      SimulateLast(c, rs);
      LedgerChained(c, pre);
      SettleChained(c, Final(c, pre), rs[|rs| - 1], Ledger(c, pre));
    }
  }

  /** In a chained ledger the last balance is the initial balance plus every change. */
  lemma {:induction false} ChainedTotal(c: Config, evs: seq<Event>)
    requires Chained(c, evs)
    ensures Prior(c, evs, |evs|) == c.initialBalance + TotalChange(evs)
  {
    if evs != [] {
      var pre := evs[..|evs| - 1];
      assert Chained(c, pre) by {
        forall k | 0 <= k < |pre| ensures pre[k].balance == Prior(c, pre, k) + pre[k].change {
          assert pre[k] == evs[k];
        }
      }
      ChainedTotal(c, pre);
    }
  }

  /** The final balance is the initial balance plus the sum of all ledger changes. */
  lemma FinalBalance(c: Config, rs: seq<Series>)
    requires Computable(c, rs)
    ensures Final(c, rs).balance == c.initialBalance + TotalChange(Ledger(c, rs))
  {
    LedgerChained(c, rs);
    ChainedTotal(c, Ledger(c, rs));
  }

  /** Trade entry t is record r settled: same time and length, a ratio of at least one, the record's result times the ratio. */
  ghost predicate Settles(c: Config, t: Event, r: Series)
  {
    t.time == r.time && t.length == r.length && t.ratio >= 1 && t.change == Loss(c, r) * t.ratio as real
  }

  /** The deposit and withdrawal checks after a trade add no trade. */
  lemma TradesAfterTrade(c: Config, a: Account, t: Event, time: int)
    requires t.kind == Trade
    ensures var topped := Replenish(c, a, time);
            Trades([t] + topped.1 + Withdraw(c, topped.0, time).1) == [t]
  {
    var topped := Replenish(c, a, time);
    var taken := Withdraw(c, topped.0, time);
    TradesSnoc([], t);
    assert [] + [t] == [t];
    var head := [t] + topped.1;
    if topped.1 != [] {
      TradesSnoc([t], topped.1[0]);
    } else {
      assert head == [t];
    }
    if taken.1 != [] {
      TradesSnoc(head, taken.1[0]);
    } else {
      assert head + taken.1 == head;
    }
  }

  /** The only trade among the entries of one record is the record's own, when it is inside the window. */
  lemma TradesOfSettle(c: Config, a: Account, r: Series)
    requires InWindow(c, r.time) ==> c.multiplier != 0.0
    ensures !InWindow(c, r.time) ==> Trades(Settle(c, a, r).1) == []
    ensures InWindow(c, r.time) ==>
              |Trades(Settle(c, a, r).1)| == 1 && Settles(c, Trades(Settle(c, a, r).1)[0], r)
  {
    if InWindow(c, r.time) {
      var traded := Place(c, a, r);
      var topped := Replenish(c, traded.0, r.time);
      TradesAfterTrade(c, traded.0, traded.1, r.time);
      assert Settle(c, a, r).1 == [traded.1] + topped.1 + Withdraw(c, topped.0, r.time).1;
      assert Settles(c, traded.1, r);
    }
  }

  /** One trade entry per record inside the window, in order, each settling its record. */
  lemma {:induction false} TradesFollowWindow(c: Config, rs: seq<Series>)
    requires Computable(c, rs)
    ensures |Trades(Ledger(c, rs))| == |Window(c, rs)|
    ensures forall k :: 0 <= k < |Window(c, rs)| ==> Settles(c, Trades(Ledger(c, rs))[k], Window(c, rs)[k])
  {
    if rs != [] {
      var pre := rs[..|rs| - 1];
      var r := rs[|rs| - 1];
      var evs := Ledger(c, pre);
      SimulateLast(c, rs);
      TradesFollowWindow(c, pre);
      var block := Settle(c, Final(c, pre), r).1;
      TradesAppend(evs, block);
      TradesOfSettle(c, Final(c, pre), r);
      assert Ledger(c, rs) == evs + block;
    }
  }

  /**
   * Entry k carries the capital ratio of the balance just before it when it is a trade;
   * a deposit or withdrawal carries neither a ratio nor a series length.
   */
  ghost predicate RatioRight(c: Config, evs: seq<Event>, k: int)
    requires 0 <= k < |evs|
  {
    (evs[k].kind == Trade ==>
       c.multiplier != 0.0 && evs[k].ratio == CapitalRatio(Prior(c, evs, k), c.multiplier)) &&
    (evs[k].kind != Trade ==> evs[k].ratio == 0 && evs[k].length == 0)
  }

  /** The entries one record adds carry the right ratios, given the balance the ledger ends at. */
  lemma RatiosOfSettle(c: Config, a: Account, r: Series, evs: seq<Event>)
    requires InWindow(c, r.time) && c.multiplier != 0.0
    requires a.balance == Prior(c, evs, |evs|)
    ensures forall k :: |evs| <= k < |evs + Settle(c, a, r).1| ==> RatioRight(c, evs + Settle(c, a, r).1, k)
  {
    var traded := Place(c, a, r);
    var topped := Replenish(c, traded.0, r.time);
    var taken := Withdraw(c, topped.0, r.time);
    var all := evs + [traded.1] + (topped.1 + taken.1);
    assert evs + Settle(c, a, r).1 == all;
    assert RatioRight(c, all, |evs|);
    forall k | |evs| < k < |all| ensures RatioRight(c, all, k) {
      assert all[k] in topped.1 + taken.1;
    }
  }

  lemma RatioExtends(c: Config, evs: seq<Event>, more: seq<Event>, k: int)
    requires 0 <= k < |evs| && RatioRight(c, evs, k)
    ensures RatioRight(c, evs + more, k)
  {
    assert (evs + more)[k] == evs[k];
    assert k > 0 ==> (evs + more)[k - 1] == evs[k - 1];
  }

  /** The capital ratio of every trade is computed from the balance just before it. */
  lemma {:induction false} TradeRatios(c: Config, rs: seq<Series>)
    requires Computable(c, rs)
    ensures forall k :: 0 <= k < |Ledger(c, rs)| ==> RatioRight(c, Ledger(c, rs), k)
  {
    if rs != [] {
      var pre := rs[..|rs| - 1];
      var r := rs[|rs| - 1];
      var evs := Ledger(c, pre);
      SimulateLast(c, rs);
      TradeRatios(c, pre);
      var block := Settle(c, Final(c, pre), r).1;
      assert Ledger(c, rs) == evs + block;
      if InWindow(c, r.time) {
        LedgerChained(c, pre);
        RatiosOfSettle(c, Final(c, pre), r, evs);
      }
      forall k | 0 <= k < |evs| ensures RatioRight(c, evs + block, k) {
        RatioExtends(c, evs, block, k);
      }
    }
  }

  /** Records outside the window change nothing: the run is the run of the in-window records alone. */
  lemma {:induction false} WindowOnly(c: Config, rs: seq<Series>)
    requires Computable(c, rs)
    ensures Simulate(c, rs) == Simulate(c, Window(c, rs))
  {
    if rs != [] {
      var pre := rs[..|rs| - 1];
      var r := rs[|rs| - 1];
      SimulateLast(c, rs);
      WindowOnly(c, pre);
      if InWindow(c, r.time) {
        var w := Window(c, rs);
        assert w[..|w| - 1] == Window(c, pre);
        SimulateLast(c, w);
      } else {
        assert Ledger(c, pre) + [] == Ledger(c, pre);
        assert Window(c, rs) == Window(c, pre) + [];
        assert Window(c, pre) + [] == Window(c, pre);
      }
    }
  }

  /**
   * If entry k is a trade that left the balance below the initial balance, the next entry is
   * a deposit five seconds later of the missing amount, which restores the initial balance.
   */
  ghost predicate Restored(c: Config, evs: seq<Event>, k: int)
    requires 0 <= k < |evs|
  {
    evs[k].kind == Trade && evs[k].balance < c.initialBalance ==>
      k + 1 < |evs| &&
      evs[k + 1] == Event(evs[k].time + SyntheticDelay, c.initialBalance - evs[k].balance,
                          c.initialBalance, 0, 0, Deposit)
  }

  /** If entry k is a deposit, it follows a trade that left the balance below the initial balance. */
  ghost predicate DepositDue(c: Config, evs: seq<Event>, k: int)
    requires 0 <= k < |evs|
  {
    evs[k].kind == Deposit ==> 0 < k && evs[k - 1].kind == Trade && evs[k - 1].balance < c.initialBalance
  }

  /** The entries one record adds restore the balance when due, and deposit at no other time. */
  lemma DepositsOfSettle(c: Config, a: Account, r: Series, evs: seq<Event>)
    requires InWindow(c, r.time) && c.multiplier != 0.0
    ensures forall k :: |evs| <= k < |evs + Settle(c, a, r).1| ==>
              Restored(c, evs + Settle(c, a, r).1, k) && DepositDue(c, evs + Settle(c, a, r).1, k)
  {
    var traded := Place(c, a, r);
    var topped := Replenish(c, traded.0, r.time);
    var taken := Withdraw(c, topped.0, r.time);
    var t := traded.1;
    if topped.1 == [] {
      var all := evs + [t] + taken.1;
      assert evs + Settle(c, a, r).1 == all;
      assert Restored(c, all, |evs|);
      assert forall k :: |evs| < k < |all| ==> all[k] in taken.1;
    } else {
      var d := topped.1[0];
      var all := evs + [t, d] + taken.1;
      assert evs + Settle(c, a, r).1 == all;
      assert Restored(c, all, |evs|) && Restored(c, all, |evs| + 1) && DepositDue(c, all, |evs| + 1);
      assert forall k :: |evs| + 1 < k < |all| ==> all[k] in taken.1;
    }
  }

  lemma DepositExtends(c: Config, evs: seq<Event>, more: seq<Event>, k: int)
    requires 0 <= k < |evs| && Restored(c, evs, k) && DepositDue(c, evs, k)
    ensures Restored(c, evs + more, k) && DepositDue(c, evs + more, k)
  {
    assert (evs + more)[k] == evs[k];
    assert k + 1 < |evs| ==> (evs + more)[k + 1] == evs[k + 1];
    assert k > 0 ==> (evs + more)[k - 1] == evs[k - 1];
  }

  /**
   * A trade that leaves the balance below the initial balance is immediately followed by a
   * deposit five seconds later of the missing amount, which restores the initial balance;
   * a deposit appears nowhere else.
   */
  lemma {:induction false} DepositsRestore(c: Config, rs: seq<Series>)
    requires Computable(c, rs)
    ensures forall k :: 0 <= k < |Ledger(c, rs)| ==> Restored(c, Ledger(c, rs), k) && DepositDue(c, Ledger(c, rs), k)
  {
    if rs != [] {
      var pre := rs[..|rs| - 1];
      var r := rs[|rs| - 1];
      var evs := Ledger(c, pre);
      SimulateLast(c, rs);
      DepositsRestore(c, pre);
      var block := Settle(c, Final(c, pre), r).1;
      assert Ledger(c, rs) == evs + block;
      if InWindow(c, r.time) {
        DepositsOfSettle(c, Final(c, pre), r, evs);
      }
      forall k | 0 <= k < |evs|
        ensures Restored(c, evs + block, k) && DepositDue(c, evs + block, k)
      {
        DepositExtends(c, evs, block, k);
      }
    }
  }

  /** The counters one record adds are its deposits and withdrawals, and withdrawals stay behind deposits. */
  lemma CountsOfSettle(c: Config, a: Account, r: Series)
    requires InWindow(c, r.time) ==> c.multiplier != 0.0
    requires a.withdrawals <= a.deposits
    ensures Settle(c, a, r).0.deposits == a.deposits + Count(Settle(c, a, r).1, Deposit)
    ensures Settle(c, a, r).0.withdrawals == a.withdrawals + Count(Settle(c, a, r).1, Withdrawal)
    ensures Settle(c, a, r).0.withdrawals <= Settle(c, a, r).0.deposits
  {
    if InWindow(c, r.time) {
      var traded := Place(c, a, r);
      var topped := Replenish(c, traded.0, r.time);
      var taken := Withdraw(c, topped.0, r.time);
      var t := traded.1;
      assert [t][..0] == [];
      var head := [t] + topped.1;
      if topped.1 != [] {
        CountSnoc([t], topped.1[0], Deposit);
        CountSnoc([t], topped.1[0], Withdrawal);
      } else {
        assert head == [t];
      }
      assert Settle(c, a, r).1 == head + taken.1;
      if taken.1 != [] {
        CountSnoc(head, taken.1[0], Deposit);
        CountSnoc(head, taken.1[0], Withdrawal);
      } else {
        assert head + taken.1 == head;
      }
    }
  }

  /** The account's counters count the deposits and withdrawals of the ledger, and withdrawals never outnumber deposits. */
  lemma {:induction false} Counters(c: Config, rs: seq<Series>)
    requires Computable(c, rs)
    ensures Final(c, rs).deposits == Count(Ledger(c, rs), Deposit)
    ensures Final(c, rs).withdrawals == Count(Ledger(c, rs), Withdrawal)
    ensures Final(c, rs).withdrawals <= Final(c, rs).deposits
  {
    if rs != [] {
      var pre := rs[..|rs| - 1];
      var r := rs[|rs| - 1];
      SimulateLast(c, rs);
      Counters(c, pre);
      var block := Settle(c, Final(c, pre), r).1;
      CountAppend(Ledger(c, pre), block, Deposit);
      CountAppend(Ledger(c, pre), block, Withdrawal);
      CountsOfSettle(c, Final(c, pre), r);
    }
  }

  /**
   * Entry k, a withdrawal, takes exactly the initial balance, right after its trade or that
   * trade's deposit, from a balance of at least twice the multiplier plus the initial balance,
   * and only while fewer withdrawals than deposits precede it.
   */
  ghost predicate WithdrawalGuarded(c: Config, evs: seq<Event>, k: int)
    requires 0 <= k < |evs|
  {
    0 < k && evs[k - 1].kind != Withdrawal &&
    evs[k].time == evs[k - 1].time + (if evs[k - 1].kind == Trade then SyntheticDelay else 0) &&
    evs[k].change == -c.initialBalance &&
    Prior(c, evs, k) >= c.multiplier * 2.0 + c.initialBalance &&
    Count(evs[..k], Withdrawal) < Count(evs[..k], Deposit)
  }

  /** A guarded withdrawal stays guarded when entries are appended after it. */
  lemma GuardedExtends(c: Config, evs: seq<Event>, more: seq<Event>, k: int)
    requires 0 <= k < |evs| && WithdrawalGuarded(c, evs, k)
    ensures WithdrawalGuarded(c, evs + more, k)
  {
    assert (evs + more)[..k] == evs[..k];
  }

  /** A withdrawal appended after `evs` is guarded, given the state just before it. */
  lemma GuardedLast(c: Config, evs: seq<Event>, w: Event)
    requires evs != [] && evs[|evs| - 1].kind != Withdrawal
    requires w.time == evs[|evs| - 1].time + (if evs[|evs| - 1].kind == Trade then SyntheticDelay else 0)
    requires w.change == -c.initialBalance
    requires evs[|evs| - 1].balance >= c.multiplier * 2.0 + c.initialBalance
    requires Count(evs, Withdrawal) < Count(evs, Deposit)
    ensures WithdrawalGuarded(c, evs + [w], |evs|)
  {
    assert (evs + [w])[..|evs|] == evs;
  }

  /** The withdrawal one record may add is guarded, given an account that agrees with the ledger so far. */
  lemma WithdrawalOfSettle(c: Config, a: Account, r: Series, evs: seq<Event>)
    requires InWindow(c, r.time) && c.multiplier != 0.0
    requires a.balance == Prior(c, evs, |evs|)
    requires a.deposits == Count(evs, Deposit) && a.withdrawals == Count(evs, Withdrawal)
    ensures forall k :: |evs| <= k < |evs + Settle(c, a, r).1| && (evs + Settle(c, a, r).1)[k].kind == Withdrawal ==>
              WithdrawalGuarded(c, evs + Settle(c, a, r).1, k)
  {
    var traded := Place(c, a, r);
    var topped := Replenish(c, traded.0, r.time);
    var taken := Withdraw(c, topped.0, r.time);
    var t := traded.1;
    CountSnoc(evs, t, Deposit);
    CountSnoc(evs, t, Withdrawal);
    if topped.1 == [] {
      var all := evs + [t] + taken.1;
      assert evs + Settle(c, a, r).1 == all;
      if taken.1 != [] {
        GuardedLast(c, evs + [t], taken.1[0]);
      } else {
        assert all == evs + [t];
      }
    } else {
      var d := topped.1[0];
      CountSnoc(evs + [t], d, Deposit);
      CountSnoc(evs + [t], d, Withdrawal);
      var all := evs + [t, d] + taken.1;
      assert evs + Settle(c, a, r).1 == all;
      assert evs + [t, d] == evs + [t] + [d];
      if taken.1 != [] {
        GuardedLast(c, evs + [t, d], taken.1[0]);
      } else {
        assert all == evs + [t, d];
      }
    }
  }

  /** Every withdrawal of the ledger is guarded as the source demands. */
  lemma {:induction false} WithdrawalsGuarded(c: Config, rs: seq<Series>)
    requires Computable(c, rs)
    ensures forall k :: 0 <= k < |Ledger(c, rs)| && Ledger(c, rs)[k].kind == Withdrawal ==>
              WithdrawalGuarded(c, Ledger(c, rs), k)
  {
    if rs != [] {
      var pre := rs[..|rs| - 1];
      var r := rs[|rs| - 1];
      var evs := Ledger(c, pre);
      SimulateLast(c, rs);
      WithdrawalsGuarded(c, pre);
      var block := Settle(c, Final(c, pre), r).1;
      assert Ledger(c, rs) == evs + block;
      if InWindow(c, r.time) {
        Counters(c, pre);
        LedgerChained(c, pre);
        WithdrawalOfSettle(c, Final(c, pre), r, evs);
      }
      forall k | 0 <= k < |evs| && evs[k].kind == Withdrawal
        ensures WithdrawalGuarded(c, evs + block, k)
      {
        GuardedExtends(c, evs, block, k);
      }
    }
  }

  /**
   * If entry k leaves the balance at least twice the multiplier above the initial balance
   * while fewer withdrawals than deposits have been made, the next entry is a withdrawal,
   * unless entry k is a trade whose deposit comes first. Entry k is a trade with no deposit
   * due, or a deposit.
   */
  ghost predicate WithdrawalFires(c: Config, evs: seq<Event>, k: int)
    requires 0 <= k < |evs|
  {
    evs[k].kind != Withdrawal && !(evs[k].kind == Trade && evs[k].balance < c.initialBalance) &&
    evs[k].balance >= c.multiplier * 2.0 + c.initialBalance &&
    Count(evs[..k + 1], Withdrawal) < Count(evs[..k + 1], Deposit) ==>
      k + 1 < |evs| && evs[k + 1].kind == Withdrawal
  }

  lemma FiresExtends(c: Config, evs: seq<Event>, more: seq<Event>, k: int)
    requires 0 <= k < |evs| && WithdrawalFires(c, evs, k)
    ensures WithdrawalFires(c, evs + more, k)
  {
    assert (evs + more)[..k + 1] == evs[..k + 1];
    assert (evs + more)[k] == evs[k];
    assert k + 1 < |evs| ==> (evs + more)[k + 1] == evs[k + 1];
  }

  /** Entry e, appended after `evs` and followed by `rest`, meets `WithdrawalFires` when `rest` starts as the guard demands. */
  lemma FiresAt(c: Config, evs: seq<Event>, e: Event, rest: seq<Event>)
    requires e.kind != Withdrawal && !(e.kind == Trade && e.balance < c.initialBalance) &&
             e.balance >= c.multiplier * 2.0 + c.initialBalance &&
             Count(evs + [e], Withdrawal) < Count(evs + [e], Deposit) ==>
               rest != [] && rest[0].kind == Withdrawal
    ensures WithdrawalFires(c, evs + [e] + rest, |evs|)
  {
    assert (evs + [e] + rest)[..|evs| + 1] == evs + [e];
  }

  /** After a trade that leaves the account at `a`, the deposit and withdrawal checks withdraw whenever the guard holds. */
  lemma FiresAfterTrade(c: Config, a: Account, t: Event, time: int, evs: seq<Event>)
    requires t.kind == Trade && t.balance == a.balance
    requires a.deposits == Count(evs, Deposit) && a.withdrawals == Count(evs, Withdrawal)
    ensures var topped := Replenish(c, a, time);
            var all := evs + [t] + topped.1 + Withdraw(c, topped.0, time).1;
            forall k :: |evs| <= k < |all| ==> WithdrawalFires(c, all, k)
  {
    var topped := Replenish(c, a, time);
    var taken := Withdraw(c, topped.0, time);
    CountSnoc(evs, t, Deposit);
    CountSnoc(evs, t, Withdrawal);
    var all := evs + [t] + topped.1 + taken.1;
    if topped.1 == [] {
      assert all == evs + [t] + taken.1;
      FiresAt(c, evs, t, taken.1);
    } else {
      var d := topped.1[0];
      CountSnoc(evs + [t], d, Deposit);
      CountSnoc(evs + [t], d, Withdrawal);
      assert all == evs + [t] + ([d] + taken.1);
      assert all == evs + [t] + [d] + taken.1;
      FiresAt(c, evs, t, [d] + taken.1);
      FiresAt(c, evs + [t], d, taken.1);
    }
    assert taken.1 != [] ==> all[|all| - 1].kind == Withdrawal;
  }

  /** A record whose trade or deposit meets the withdrawal guard does withdraw, given counters that agree with the ledger so far. */
  lemma FiresOfSettle(c: Config, a: Account, r: Series, evs: seq<Event>)
    requires InWindow(c, r.time) && c.multiplier != 0.0
    requires a.deposits == Count(evs, Deposit) && a.withdrawals == Count(evs, Withdrawal)
    ensures forall k :: |evs| <= k < |evs + Settle(c, a, r).1| ==> WithdrawalFires(c, evs + Settle(c, a, r).1, k)
  {
    var traded := Place(c, a, r);
    var topped := Replenish(c, traded.0, r.time);
    FiresAfterTrade(c, traded.0, traded.1, r.time, evs);
    assert evs + Settle(c, a, r).1 == evs + [traded.1] + topped.1 + Withdraw(c, topped.0, r.time).1;
  }

  /** Every trade or deposit that meets the withdrawal guard is followed by a withdrawal, as the source demands. */
  lemma {:induction false} WithdrawalsFire(c: Config, rs: seq<Series>)
    requires Computable(c, rs)
    ensures forall k :: 0 <= k < |Ledger(c, rs)| ==> WithdrawalFires(c, Ledger(c, rs), k)
  {
    if rs != [] {
      var pre := rs[..|rs| - 1];
      var r := rs[|rs| - 1];
      var evs := Ledger(c, pre);
      SimulateLast(c, rs);
      WithdrawalsFire(c, pre);
      var block := Settle(c, Final(c, pre), r).1;
      assert Ledger(c, rs) == evs + block;
      if InWindow(c, r.time) {
        Counters(c, pre);
        FiresOfSettle(c, Final(c, pre), r, evs);
      }
      forall k | 0 <= k < |evs| ensures WithdrawalFires(c, evs + block, k) {
        FiresExtends(c, evs, block, k);
      }
    }
  }

  /** With a positive multiplier a deposit is never followed by a withdrawal for the same trade. */
  lemma {:induction false} NoWithdrawalAfterDeposit(c: Config, rs: seq<Series>)
    requires Computable(c, rs) && c.multiplier > 0.0
    ensures forall k :: 0 < k < |Ledger(c, rs)| && Ledger(c, rs)[k - 1].kind == Deposit ==>
              Ledger(c, rs)[k].kind == Trade
  {
    if rs != [] {
      var pre := rs[..|rs| - 1];
      var r := rs[|rs| - 1];
      var evs := Ledger(c, pre);
      SimulateLast(c, rs);
      NoWithdrawalAfterDeposit(c, pre);
      if InWindow(c, r.time) {
        var traded := Place(c, Final(c, pre), r);
        var topped := Replenish(c, traded.0, r.time);
        var taken := Withdraw(c, topped.0, r.time);
        var all := evs + ([traded.1] + topped.1 + taken.1);
        assert Ledger(c, rs) == all;
        assert all[|evs|] == traded.1;
        if topped.1 != [] {
          assert taken.1 == [];
        }
      } else {
        assert Ledger(c, rs) == evs + [];
        assert evs + [] == evs;
      }
    }
  }
}
