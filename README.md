# XIRR aggregate state, modelled in Dafny

This project models the aggregate support of `pg_financial`'s `xirr(amount, time)`
aggregate in `src/xirr.c`:

- the state (`XirrState`): an allocated length `alen`, a filled count `nelems` and an
  array of `XirrItem` records `(amount, time)`;
- the transition function `xirr_tstz_transfn`: on the first call of a group it creates
  a state of 64 slots with none filled; on later calls it doubles `alen` and reallocates
  when the array is full; then it writes the record at index `nelems` and increments
  `nelems`;
- the final function `xirr_tstz_finalfn`: NULL when there is no state (no input rows),
  NULL when `nelems < 1`, otherwise the result of `calculate_xirr` unless it is NaN,
  which also becomes NULL.

Files:

- `xirr_types.dfy` (`XirrTypes`): `Float8` (a C `double`: finite, infinite or NaN),
  `TimestampTz` (signed 64-bit microseconds), `XirrItem`, `Option` (None is SQL NULL)
  and the initial length 64.
- `xirr_capacity.dfy` (`XirrCapacity`): the lengths the array can have (64 doubled
  `k` times), and `CapacityFor(n)`, the least such length that holds `n` records.
- `xirr_accumulator.dfy` (`XirrAccumulator`): the class `XirrState` over an `array`,
  with `Init` (creation), `Grow` (doubling with copy) and `Store` (write and count);
  the method `TransFn` that strings them together as `xirr_tstz_transfn` does; and a
  value-level description of the same state (`StateValue`, `Transition`, `Fold`) that
  `TransFn`'s postcondition is stated against.
- `xirr_finalize.dfy` (`XirrFinalize`): `FinalFn` (whose call into `calculate_xirr`
  reads the first record's time, then hands over to the Newton iteration, which is a
  parameter), the reference result `Xirr` of a group of rows, and `RunAggregate`, the host's protocol
  (NULL state, one `TransFn` per row, one `FinalFn`) run on the class.

The model follows the code as written. The transition function never merges a record
into the previous one with the same time, never drops a zero amount and does not
reject non-finite amounts; there is no initial-guess estimator and no guess-override
argument (the guess is the constant 0.1 at src/xirr.c:151). `FoldHoldsRows` states
the consequence: the state holds every row, as given, in arrival order.

The two `Assert(!PG_ARGISNULL(...))` checks on the amount and the time
(src/xirr.c:61-62) are preconditions: `TransFn` takes a `Float8` and a `TimestampTz`,
which cannot be NULL.

## Model

| member | source | states |
|---|---|---|
| XirrCapacity.CapacityIsDoubledInitLen | src/xirr.c:66-96 | a length is one the array can have iff it is 64 * 2^k for some k >= 0 |
| XirrCapacity.CapacitiesAreSpaced | src/xirr.c:86-96 | two different reachable lengths differ by at least a factor of two, so growth never takes an intermediate size |
| XirrCapacity.CapacityFor | src/xirr.c:66-96 | the least reachable length for n records is a reachable length (64 * 2^k) and holds n records |
| XirrCapacity.CapacityForIsLeast | src/xirr.c:86-96 | no reachable length that holds n records is smaller than `CapacityFor(n)` |
| XirrCapacity.CapacityForStep | src/xirr.c:86-96 | one more record leaves the least length unchanged while there is room and doubles it exactly when the array was full |
| XirrCapacity.CapacityForBound | src/xirr.c:66-96 | up to 64 records the length stays 64; past that it is at least the record count and less than twice it |
| XirrAccumulator.Transition | src/xirr.c:64-107 | one transition on values appends exactly the new record to the stored ones, whatever its amount or time; `alen` is 64 for a new state, doubles when `nelems >= alen` and is otherwise unchanged; a valid state (records fit, `alen` is 64 * 2^k) stays valid |
| XirrAccumulator.FoldHoldsRows | src/xirr.c:102-107 | after any rows the state is NULL iff there were none, and otherwise holds exactly those rows in arrival order: nothing merged (same time), dropped (zero amount) or reordered |
| XirrAccumulator.FoldCapacity | src/xirr.c:66-96 | after n >= 1 rows `alen` is the least 64 * 2^k that holds n records |
| XirrAccumulator.XirrState.Init | src/xirr.c:64-77 | a fresh state has `alen == 64`, `nelems == 0` and no records, in a new array of 64 slots |
| XirrAccumulator.XirrState.Grow | src/xirr.c:86-99 | called only on a full state (`nelems == alen`), enlarging doubles `alen`, moves to a new array of that length and keeps every filled record in place |
| XirrAccumulator.XirrState.Store | src/xirr.c:105-107 | with `nelems < alen` the record is written at index `nelems`, `nelems` grows by one, and the earlier records and `alen` are unchanged |
| XirrAccumulator.TransFn | src/xirr.c:51-110 | the state returned is valid, is the same object when one was passed, holds the old records plus `(amount, time)`, has `nelems` one higher (1 after the first call), and its `alen` follows `Transition` (64 at creation, doubled only when full) |
| XirrFinalize.FinalFn | src/xirr.c:118-157 | the final function is NULL exactly when there is no state, no record, or the solver run from the first record's time returns NaN; otherwise it is the solver's value, which is not NaN; the solver's read of `array[0]` is reached only behind the `nelems < 1` guard |
| XirrFinalize.AggregatePathReachesSolver | src/xirr.c:133-157 | a state built by the transition function has `nelems >= 1` and its first record is the first row, so the `nelems < 1` branch is unreachable and the solver's read of `array[0]` is in bounds and reads the first row |
| XirrFinalize.FoldThenFinalize | src/xirr.c:125-141 | transition over the rows then finalize equals `Xirr`: NULL for no rows, else the solver over all rows from the first row's time, NaN mapped to NULL |
| XirrFinalize.RunAggregate | src/xirr.c:51-141 | running the class-based transition function once per row from a NULL state and then the final function yields `Xirr(rows)` |

## Left out

- The Newton-Raphson body of `calculate_xirr` (src/xirr.c:158-193): floating-point
  numerics (`pow`, `fabs`, `isfinite`, `NAN`) over at most 50 rounds. It is the
  function-valued parameter `newton` of `FinalFn`, `Xirr` and
  `RunAggregate`, and every property holds for any such function. Convergence and
  tolerance are not modelled. Note that the code returns `new_rate` when `result` is
  not finite (src/xirr.c:184), which need not be NaN; the final function then returns
  that value, and the model lets the solver return any `Float8`, infinities included.
- PostgreSQL function-manager plumbing (`PG_GETARG_*`, `PG_RETURN_*`, `PG_ARGISNULL`,
  `PG_MODULE_MAGIC`): arguments and results are ordinary parameters and return values,
  a NULL state is `null` (for `TransFn`) or `None` (for `FinalFn`).
- `AggCheckCallContext` and its `elog(ERROR, ...)` for calls outside an aggregate,
  memory contexts, `palloc` and `repalloc`: creation allocates a new array, and
  reallocation allocates a larger array and copies the old one. The state header stays
  the same object; that `repalloc` may move it, and that the transition function
  returns the moved pointer, is not modelled.
- Debug logging (`elog(DEBUG1, ...)`) and `CHECK_FOR_INTERRUPTS()`: no effect on results.
- TransFn: C `int` overflow of `alen *= 2` and `nelems++` is not modelled; lengths and
  counts are unbounded integers.
- Amounts are not computed on by the modelled code, so a finite `Float8` is a real
  number and not a binary64 value.
