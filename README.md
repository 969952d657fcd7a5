# Trade-history calculator: series segmenter and balance simulator

This project models the core of a Forex trade-history calculator, `main_calculator.py`. The core has two sequential stages:

- **`process_deals`: the series segmenter.** It reads the deals of a broker report. It drops the first row, which is an opening record. Each deal with a profit of zero or less extends the current drawdown series. The state of that series is its drawdown, its length, its depth map (depth to cumulative drawdown) and the balance it started from. Each deal with a positive profit emits one summary record:
  - a closed series, when a loss is pending;
  - otherwise a standalone win.
- **`recalculate_balance`: the balance simulator.** It replays those records on an account that starts at the initial balance, and it skips records outside an inclusive date window.
  - A series longer than the cap depth books the drawdown recorded at that depth. Any other series books its net change.
  - That result is scaled by the capital ratio, `max(floor(balance / multiplier), 1)`.
  - A trade that leaves the balance below the initial balance is followed by a deposit that restores it.
  - A balance of at least `2 * multiplier + initial` is followed by a withdrawal of the initial balance. This happens only while withdrawals are fewer than deposits.

Money is `real`, which is an exact idealisation of the source's floats. Times are `int` seconds, so the source's "+5 seconds" is `+ SyntheticDelay`. The source's string-keyed dictionaries become the datatypes `Deal`, `Series`, `Event` and `Config`.

Files:
- `wrappers.dfy`: `Option`.
- `segmenter.dfy` (module `SeriesSegmenter`):
  - the segmenter as a fold (`Step`, `Run`, `Segment`);
  - the method `ProcessDeals`, whose loop is proved equal to that fold;
  - independent descriptions of the input: the winning deals, the open losing run and its profit sum;
  - the lemmas.
- `simulator.dfy` (module `BalanceSimulator`):
  - the simulator as a fold (`Place`, `Replenish`, `Withdraw`, `Settle`, `Simulate`);
  - the method `RecalculateBalance`, whose loop is proved equal to that fold;
  - descriptions of a ledger (balance chain, counts, trades, window);
  - the lemmas.
- `scenarios.dfy` (module `Scenarios`): worked runs on small concrete histories.

## Behaviour worth knowing

- **Date window.** Both ends are inclusive: a record is skipped only when it is strictly before the start or strictly after the end (main_calculator.py:89-92). See `Scenarios.WindowEnds`.
- **Series within the cap.** A series no longer than the cap depth books its net change, not its drawdown (main_calculator.py:96-99). For example, a series of length 3 with drawdown -80 and a cap of 8 books +20, and no deposit follows. See `Scenarios.SeriesWithinCapBooksNetChange`.
- **Resets.** Only a win that closes a series resets the length and the depth map (main_calculator.py:48-61). A standalone win leaves them as they are, so zero-profit deals before it still count towards the next series. See `Scenarios.ZeroProfitCarriesOver`.
- **Multiplier.** A zero multiplier fails only at the first record inside the window, where the balance is divided by it. A negative multiplier is accepted.

## Model

| member | source | states |
|---|---|---|
| SeriesSegmenter.Step | main_calculator.py:31-66 | one iteration of the segmenter loop: the anchor, the balance change, and closing a series, a standalone win or a loss; its properties are stated by `StepKeepsRunOk`, `WinEmitsOne`, `ExtendLevels`, `WinTracksRun` and `LossTracksRun` |
| SeriesSegmenter.Run | main_calculator.py:20-66 | the segmenter loop as a left fold of `Step` from the empty state; `ProcessDeals` is proved equal to it |
| SeriesSegmenter.ProcessDeals | main_calculator.py:19-68 | an empty report gives `None` (the source's `pop(0)` raises); otherwise the records are exactly those of the segmenter run on the report without its first row |
| SeriesSegmenter.SegmentMatchesWins | main_calculator.py:36-61 | exactly one record per deal with a positive profit, in order, carrying that deal's time, volume and balance; a standalone win's change is that deal's own profit |
| SeriesSegmenter.LossesEmitNothing | main_calculator.py:62-66 | appending deals with profit of zero or less emits nothing, so a trailing losing run is never reported |
| SeriesSegmenter.SegmentWellFormed | main_calculator.py:20-66 | the running drawdown is never positive; the depth map has exactly the depths 1..length, its values are at most zero and never increase with depth, and the deepest one is the drawdown; every record is either a standalone win (drawdown 0, length 1, empty map) or a closed series (negative drawdown, length at least 2, depth map of the losses ending at the drawdown) |
| SeriesSegmenter.StepKeepsRunOk | main_calculator.py:36-66 | one deal keeps the drawdown and depth-map invariant and emits only well-formed records |
| SeriesSegmenter.DrawdownNonPositive | main_calculator.py:21-63 | the running drawdown is never positive |
| SeriesSegmenter.DrawdownIsRunSum | main_calculator.py:62-66 | the pending drawdown is the sum of the profits of the open losing run (the longest suffix without a win) |
| SeriesSegmenter.WinEmitsOne | main_calculator.py:36-61 | a winning deal appends exactly one record after the earlier ones; its drawdown is the open run's profit sum; afterwards no loss is pending, and closing a series resets its length and depth map |
| SeriesSegmenter.ExtendLevels | main_calculator.py:63-66 | recording the next loss at depth length + 1 keeps every depth's level equal to the sum of the run's profits up to that depth |
| SeriesSegmenter.WinTracksRun | main_calculator.py:36-61 | after a win following losses (all strictly negative), no run is pending: the length is 0 |
| SeriesSegmenter.LossTracksRun | main_calculator.py:62-66 | a deal with profit of zero or less extends the run by one, and the depth map follows the extended run's prefix sums |
| SeriesSegmenter.OpenRunLevels | main_calculator.py:62-66 | without zero-profit deals, the pending length is the length of the open losing run and the depth map at k is the sum of its first k profits |
| SeriesSegmenter.ClosedSeriesLevels | main_calculator.py:38-51 | without zero-profit deals, a win's record closes a series exactly when a losing run is open; its length is the run's length plus one and its level at depth k is the sum of the run's first k profits |
| SeriesSegmenter.AnchorBeforeRun | main_calculator.py:31-34 | with balances consistent with profits, while a loss is pending the series' start balance is the current balance minus the drawdown |
| SeriesSegmenter.SeriesChange | main_calculator.py:31-57 | with consistent balances every record's net change is its series' drawdown plus the closing win's profit |
| BalanceSimulator.InWindow | main_calculator.py:88-92 | a record is admitted unless it is strictly before the start or strictly after the end; see `WindowOnly` and `Scenarios.WindowEnds` |
| BalanceSimulator.Loss | main_calculator.py:94-99 | the unscaled result: the level at the cap depth, or 0 when that depth is missing, for a series longer than the cap; otherwise the series' change; see `CappedLoss` |
| BalanceSimulator.CapitalRatio | main_calculator.py:101-103 | the ratio is at least 1; above 1 it is the whole part of balance / multiplier; it is 1 exactly when that quotient is below 2 |
| BalanceSimulator.Place | main_calculator.py:101-117 | the trade: the result scaled by the capital ratio of the balance before it, the new balance and the trade entry; see `TradesOfSettle` and `RatiosOfSettle` |
| BalanceSimulator.Replenish | main_calculator.py:119-132 | a deposit is added exactly when the balance is below the initial balance; afterwards the balance is at least the initial balance and never lower than before |
| BalanceSimulator.Withdraw | main_calculator.py:134-147 | the withdrawal of the initial balance when the guard holds; it keeps withdrawals at most deposits; see `WithdrawalsGuarded` and `WithdrawalsFire` |
| BalanceSimulator.Settle | main_calculator.py:88-147 | one record: nothing outside the window; otherwise the trade, then the deposit and the withdrawal checks, in that order; `SettleRecord` is proved equal to it |
| BalanceSimulator.Simulate | main_calculator.py:72-149 | the replay loop as a left fold of `Settle` from the initial account; `RecalculateBalance` is proved equal to it |
| BalanceSimulator.CappedLoss | main_calculator.py:94-99 | for a well-formed record longer than the cap, the booked result lies between the series' drawdown and zero; it is zero for a cap below depth 1 and the full drawdown when the cap is the deepest loss |
| BalanceSimulator.SettleRecord | main_calculator.py:94-147 | the body of the replay loop for a record inside the window produces exactly the new account and entries of `Settle`: the trade, then the deposit and the withdrawal when due |
| BalanceSimulator.RecalculateBalance | main_calculator.py:71-149 | `None` exactly when a record inside the window meets a zero multiplier (the source divides by zero); otherwise the history is exactly the simulator's ledger for the records |
| BalanceSimulator.SettleChained | main_calculator.py:106-147 | the entries of one record continue the balance chain from the account's balance |
| BalanceSimulator.LedgerChained | main_calculator.py:106-147 | every ledger entry's balance is the previous balance (the initial balance for the first) plus its change, and the final balance is the last entry's |
| BalanceSimulator.FinalBalance | main_calculator.py:106-147 | the final balance is the initial balance plus the sum of all ledger changes |
| BalanceSimulator.TradesOfSettle | main_calculator.py:88-117 | a record outside the window adds no trade; one inside adds exactly one, settling it |
| BalanceSimulator.TradesFollowWindow | main_calculator.py:84-117 | exactly one trade entry per record inside the window, in order, with that record's time and series length, a ratio of at least 1 and a change equal to the record's (capped) result times the ratio |
| BalanceSimulator.RatiosOfSettle | main_calculator.py:101-145 | of one record's entries, the trade carries the capital ratio of the balance the ledger ended at before it; the deposit and the withdrawal carry ratio 0 and length 0 |
| BalanceSimulator.TradeRatios | main_calculator.py:101-145 | every trade's ratio is the capital ratio of the balance just before it; deposits and withdrawals carry ratio 0 and length 0 |
| BalanceSimulator.WindowOnly | main_calculator.py:88-92 | records outside the window change neither the account nor the ledger: the run equals the run over the in-window records alone |
| BalanceSimulator.DepositsOfSettle | main_calculator.py:119-132 | among one record's entries, a trade that leaves the balance below the initial balance is followed by its restoring deposit, and every deposit follows such a trade |
| BalanceSimulator.DepositsRestore | main_calculator.py:119-132 | a trade that leaves the balance below the initial balance is immediately followed by a deposit five seconds later of exactly the shortfall, restoring the initial balance; every deposit follows such a trade |
| BalanceSimulator.CountsOfSettle | main_calculator.py:119-147 | one record raises the deposit and withdrawal counters by exactly the deposits and withdrawals it adds, and keeps withdrawals at most deposits |
| BalanceSimulator.Counters | main_calculator.py:75-147 | the deposit and withdrawal counters equal the numbers of deposit and withdrawal entries, and withdrawals never outnumber deposits |
| BalanceSimulator.WithdrawalOfSettle | main_calculator.py:134-147 | a withdrawal among one record's entries is guarded, given counters and a balance that agree with the ledger so far |
| BalanceSimulator.WithdrawalsGuarded | main_calculator.py:134-147 | every withdrawal takes exactly the initial balance, right after its trade or that trade's deposit, from a balance of at least 2 * multiplier + initial balance, while fewer withdrawals than deposits precede it |
| BalanceSimulator.FiresAfterTrade | main_calculator.py:119-147 | after a trade, a trade with no deposit due or a deposit that meets the withdrawal guard is immediately followed by a withdrawal |
| BalanceSimulator.FiresOfSettle | main_calculator.py:134-147 | among one record's entries, whenever the guard holds after the trade or its deposit a withdrawal follows, given counters that agree with the ledger so far |
| BalanceSimulator.WithdrawalsFire | main_calculator.py:134-147 | the converse of `WithdrawalsGuarded` over the whole ledger: every trade with no deposit due, and every deposit, whose balance is at least 2 * multiplier + initial balance while fewer withdrawals than deposits have been made, is immediately followed by a withdrawal |
| BalanceSimulator.NoWithdrawalAfterDeposit | main_calculator.py:119-147 | with a positive multiplier a deposit is never followed by a withdrawal for the same trade |
| Scenarios.TwoLossesThenWin | main_calculator.py:36-66 | losses of 10 and 20 closed by a win give one record of length 3, drawdown -30, depth map {1: -10, 2: -30} |
| Scenarios.OpeningRecordDropped | main_calculator.py:25-66 | the opening row is dropped; two losses and a win make one series of length 3, drawdown -80, net change +20 |
| Scenarios.SeriesWithinCapBooksNetChange | main_calculator.py:96-117 | a series within the cap books its net change: +20 from 500, no deposit |
| Scenarios.SeriesBeyondCapBooksCappedLevel | main_calculator.py:96-132 | the same series with cap 1 books the first level, -50, and a deposit of 50 follows |
| Scenarios.ZeroProfitCarriesOver | main_calculator.py:31-66 | a zero-profit deal before a standalone win still counts in the next series (length 3, depth map {1: 0, 2: -3}) |
| Scenarios.DepositThenWithdrawal | main_calculator.py:119-147 | a loss to 420 is topped up by 80; a later balance of 2000 withdraws 500; both counters end at 1 |
| Scenarios.WindowEnds | main_calculator.py:88-92 | records at the first and last admitted times are settled; one a second later is skipped |

## Left out

- Parsing of the report's numeric strings (main_calculator.py:28-29) and of dates (main_calculator.py:80-86, 126, 141) is left out. These are library calls. Numbers are taken as `real` and times as `int` seconds.
- Float rounding is left out: arithmetic is exact. For example, a deposit restores exactly the initial balance.
- A record's balance and volume are carried through as the report's raw strings in the source. Here they are the parsed numbers.
- `deals.pop(0)` also shortens the caller's list. The model drops the head of a value sequence and does not model the caller's list changing.
- `recalculate_balance`'s default multiplier of 3000 (main_calculator.py:71) is not modelled: `Config` always carries an explicit multiplier. The default of no start or end date is modelled by `Option`.
- The module-level script (main_calculator.py:152-172) is left out: fixed paths, report reading, plotting and printing.
- draw_plots.py (chart rendering), read_reports.py (HTML scraping) and fx_read_trade_history.py / fx_read_history_from_xls.py (reading scripts) are not part of this model. They are I/O over libraries.
- SeriesSegmenter.OpenRunLevels: stated only for histories without zero-profit deals. Otherwise the length also counts zero-profit deals left over from before a standalone win, as `Scenarios.ZeroProfitCarriesOver` shows.
- SeriesSegmenter.ClosedSeriesLevels: stated only for histories without zero-profit deals, for the same reason.
- SeriesSegmenter.AnchorBeforeRun: stated only for histories whose balances follow their profits. The source does not check this.
- SeriesSegmenter.SeriesChange: stated only for histories whose balances follow their profits. Otherwise the change is the closing balance minus the balance the series started from.
