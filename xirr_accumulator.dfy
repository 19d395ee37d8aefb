/** The aggregate's transition state: an append-only, growable array of
    (amount, time) records (src/xirr.c:32-37, 51-110). */
module XirrAccumulator {
  import opened XirrTypes
  import opened XirrCapacity

  /** What a state holds, as a value: its allocated length and its filled records. */
  datatype StateValue = StateValue(alen: int, items: seq<XirrItem>)

  /** The state's invariant: the records fit and the length is 64 * 2^k. */
  predicate ValidValue(s: StateValue) {
    |s.items| <= s.alen && IsCapacity(s.alen)
  }

  /** One call of the transition function on values. A NULL state becomes an
      empty state of 64 slots; a full state doubles its slots; then the record
      goes into the next free slot. The record is appended whatever its amount
      and whatever the previous record's time, and a valid state stays valid. */
  function Transition(state: Option<StateValue>, item: XirrItem): (r: StateValue)
    ensures r.items == (if state.None? then [] else state.value.items) + [item]
    ensures state.None? ==> r.alen == InitLen
    ensures state.Some? ==>
              r.alen == (if |state.value.items| >= state.value.alen then 2 * state.value.alen else state.value.alen)
    ensures (state.Some? ==> ValidValue(state.value)) ==> ValidValue(r)
  {
    var s := match state
      case None => StateValue(InitLen, [])
      case Some(s) => if |s.items| >= s.alen then StateValue(2 * s.alen, s.items) else s;
    StateValue(s.alen, s.items + [item])
  }

  /** The state after the transition function has been called once per row, in
      order, starting from a NULL state. */
  function Fold(rows: seq<XirrItem>): Option<StateValue> {
    if rows == [] then None else Some(Transition(Fold(rows[..|rows| - 1]), rows[|rows| - 1]))
  }

  /** After any sequence of rows the state holds exactly those rows, in arrival order:
      nothing is merged, dropped or reordered. */
  lemma {:induction false} FoldHoldsRows(rows: seq<XirrItem>)
    ensures Fold(rows).None? <==> rows == []
    ensures rows != [] ==> Fold(rows).value.items == rows && ValidValue(Fold(rows).value)
  {
    if rows != [] {
      var init := rows[..|rows| - 1];
      FoldHoldsRows(init);
      assert init + [rows[|rows| - 1]] == rows;
    }
  }

  /** After `n >= 1` rows the allocated length is the least 64 * 2^k that holds them. */
  lemma {:induction false} FoldCapacity(rows: seq<XirrItem>)
    requires rows != []
    ensures Fold(rows).value.alen == CapacityFor(|rows|)
  {
    var init := rows[..|rows| - 1];
    CapacityForStep(|rows|);
    if init == [] {
      CapacityForBound(1);
    } else {
      FoldCapacity(init);
      FoldHoldsRows(init);
    }
  }

  /** The C `XirrState`: a header with the allocated and filled lengths and the
      record array it owns. `repalloc` is modelled by moving to a new, larger array. */
  class XirrState {
    var alen: int
    var nelems: int
    var arr: array<XirrItem>

    ghost predicate Valid()
      reads this
    {
      0 <= nelems <= alen && alen == arr.Length && IsCapacity(alen)
    }

    /** The state as a value: its allocated length and `array[0 .. nelems)`. */
    function Value(): (v: StateValue)
      reads this, arr
      requires Valid()
      ensures ValidValue(v) && |v.items| == nelems && v.alen == alen
    {
      StateValue(alen, arr[..nelems])
    }

    /** First call: a state of 64 slots, none filled (src/xirr.c:66-77). */
    constructor Init()
      ensures Valid() && fresh(arr)
      ensures alen == InitLen && nelems == 0 && Value() == StateValue(InitLen, [])
    {
      alen := InitLen;
      nelems := 0;
      arr := new XirrItem[InitLen];
    }

    /** Enlarge a full state: double `alen` and copy every slot into an array of
        the new length (src/xirr.c:95-96). */
    method Grow()
      requires Valid() && nelems == alen
      modifies this
      ensures Valid() && fresh(arr)
      ensures alen == 2 * old(alen) && nelems == old(nelems)
      ensures Value().items == old(Value().items)
    {
      var bigger := new XirrItem[2 * alen];
      forall i | 0 <= i < arr.Length {
        bigger[i] := arr[i];
      }
      DoubleIsCapacity(alen);
      alen := 2 * alen;
      arr := bigger;
    }

    /** Write the record at index `nelems` and count it (src/xirr.c:105-107). */
    method Store(item: XirrItem)
      requires Valid() && nelems < alen
      modifies this`nelems, arr
      ensures Valid() && arr == old(arr) && alen == old(alen)
      ensures Value().items == old(Value().items) + [item]
    {
      arr[nelems] := item;
      nelems := nelems + 1;
    }
  }

  /** The state a (possibly NULL) state pointer stands for. */
  function View(state: XirrState?): (v: Option<StateValue>)
    reads if state == null then {} else {state, state.arr}
    requires state != null ==> state.Valid()
    ensures v.None? <==> state == null
  {
    if state == null then None else Some(state.Value())
  }

  /** `xirr_tstz_transfn`: create the state on the first call, double it when full,
      then append (amount, time) (src/xirr.c:51-110). */
  method TransFn(state: XirrState?, amount: Float8, time: TimestampTz) returns (s: XirrState)
    requires state != null ==> state.Valid()
    modifies if state == null then {} else {state, state.arr}
    ensures s.Valid()
    ensures state == null ==> fresh(s) && fresh(s.arr)
    ensures state != null ==> s == state && (s.arr == old(state.arr) || fresh(s.arr))
    ensures s.Value() == Transition(old(View(state)), XirrItem(amount, time))
    ensures s.nelems == (if state == null then 0 else old(state.nelems)) + 1
  {
    if state == null {
      s := new XirrState.Init();
    } else {
      s := state;
      if s.nelems >= s.alen {
        s.Grow();
      }
    }
    s.Store(XirrItem(amount, time));
  }
}
