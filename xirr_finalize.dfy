/** The aggregate's final function and the call into the rate solver
    (src/xirr.c:118-157). */
module XirrFinalize {
  import opened XirrTypes
  import opened XirrAccumulator

  /** The Newton-Raphson iteration of `calculate_xirr` (src/xirr.c:158-193), given the
      time origin it has read from the first record and the filled records. It is
      floating-point numerics and is not modelled: every property below holds for
      any such function. */
  type NewtonSolver = (TimestampTz, seq<XirrItem>) -> Float8

  /** `xirr_tstz_finalfn`: NULL without a state (src/xirr.c:125-126), NULL with no
      records (src/xirr.c:133-134), otherwise `calculate_xirr`, which reads the first
      record's time as the time origin (src/xirr.c:157) and iterates, with a NaN
      result mapped to NULL (src/xirr.c:136-141). The index-0 read is checked here
      against the `nelems < 1` guard. */
  function FinalFn(state: Option<StateValue>, newton: NewtonSolver): (r: Option<Float8>)
    ensures r.None? <==>
              state.None? || state.value.items == [] ||
              newton(state.value.items[0].time, state.value.items).NaN?
    ensures r.Some? ==>
              r.value == newton(state.value.items[0].time, state.value.items) && !r.value.NaN?
  {
    match state
    case None => None
    case Some(s) =>
      if |s.items| < 1 then None
      else
        var ret := newton(s.items[0].time, s.items);
        if ret.NaN? then None else Some(ret)
  }

  /** What the aggregate returns for a group of rows, stated without the state:
      no rows give NULL; otherwise the solver runs from the first row's time over
      all rows in arrival order, and NaN becomes NULL. */
  function Xirr(rows: seq<XirrItem>, newton: NewtonSolver): Option<Float8> {
    if rows == [] then None
    else
      var v := newton(rows[0].time, rows);
      if v.NaN? then None else Some(v)
  }

  /** A state built by the transition function holds at least one record, so the
      `nelems < 1` branch of the final function is never taken on the aggregate path
      and the solver always reads a record at index 0: the first row. */
  lemma {:induction false} AggregatePathReachesSolver(rows: seq<XirrItem>)
    requires rows != []
    ensures Fold(rows).Some? && |Fold(rows).value.items| >= 1
    ensures Fold(rows).value.items[0] == rows[0]
  {
    FoldHoldsRows(rows);
  }

  /** Transition then finalize computes `Xirr`, for every group of rows including
      the empty one (where the state stays NULL). */
  lemma FoldThenFinalize(rows: seq<XirrItem>, newton: NewtonSolver)
    ensures FinalFn(Fold(rows), newton) == Xirr(rows, newton)
  {
    FoldHoldsRows(rows);
  }

  /** The aggregate protocol that the host runs over one group: the state starts as
      NULL (src/xirr.c:64), the transition function is called once per row in order,
      and the final function once at the end (src/xirr.c:125). Returns what the
      aggregate yields. */
  method RunAggregate(rows: seq<XirrItem>, newton: NewtonSolver) returns (r: Option<Float8>)
    ensures r == Xirr(rows, newton)
  {
    var state: XirrState? := null;
    var i := 0;
    while i < |rows|
      invariant 0 <= i <= |rows|
      invariant state == null <==> i == 0
      invariant state != null ==> state.Valid() && fresh(state) && fresh(state.arr)
      invariant View(state) == Fold(rows[..i])
    {
      state := TransFn(state, rows[i].amount, rows[i].time);
      assert rows[..i + 1][..i] == rows[..i];
      i := i + 1;
    }
    assert rows[..i] == rows;
    FoldThenFinalize(rows, newton);
    r := FinalFn(View(state), newton);
  }
}
