/** Cleaning operations of a column: what the validator promises about a list of them, and what the
    generated query does with it (featurebyte/query_graph/node/cleaning_operation.py,
    featurebyte/query_graph/model/critical_data_info.py, featurebyte/query_graph/sql/ast/is_in.py). */
module Cleaning {
  datatype Scalar = Missing | Number(number: real) | Text(text: string)

  predicate SameKind(x: Scalar, y: Scalar) {
    (x.Number? && y.Number?) || (x.Text? && y.Text?)
  }

  datatype Bound = LessThan | LessThanOrEqual | GreaterThan | GreaterThanOrEqual

  predicate Beyond(bound: Bound, x: real, endPoint: real) {
    match bound
    case LessThan => x < endPoint
    case LessThanOrEqual => x <= endPoint
    case GreaterThan => x > endPoint
    case GreaterThanOrEqual => x >= endPoint
  }

  datatype CleaningOperation =
    | MissingValueImputation(imputed: Scalar)
    | DisguisedValueImputation(disguised: seq<Scalar>, imputed: Scalar)
    | UnexpectedValueImputation(expected: seq<Scalar>, imputed: Scalar)
    | ValueBeyondEndpointImputation(bound: Bound, endPoint: real, imputed: Scalar)
    | StringValueImputation(imputed: Scalar)
  {
    /** `check_condition`: the test the validator uses. */
    predicate Check(v: Scalar) {
      match this
      case MissingValueImputation(_) => v.Missing?
      case DisguisedValueImputation(values, _) => v in values
      case UnexpectedValueImputation(values, _) => v !in values
      case ValueBeyondEndpointImputation(bound, e, _) => v.Number? && Beyond(bound, v.number, e)
      case StringValueImputation(_) => v.Text?
    }

    /** `v` and what the operation compares it with are of one kind, or missing. */
    predicate Comparable(v: Scalar) {
      match this
      case DisguisedValueImputation(values, _) => forall x <- values :: v.Missing? || x.Missing? || SameKind(v, x)
      case UnexpectedValueImputation(values, _) => forall x <- values :: v.Missing? || x.Missing? || SameKind(v, x)
      case ValueBeyondEndpointImputation(_, _, _) => !v.Text?
      case _ => true
    }

    /** Lists missing among its expected values. */
    predicate ExpectsMissing() {
      UnexpectedValueImputation? && Missing in expected
    }
  }

  /** The validator of critical data info: no value imputed by one operation matches a later one. */
  predicate ValidOperations(ops: seq<CleaningOperation>) {
    forall i, j :: 0 <= i < j < |ops| ==> !ops[j].Check(ops[i].imputed)
  }

  /** What the repository leaves to the warehouse: the cast to the type of a column, whether a cell
      equals a listed value, whether an array that lists NULL contains NULL, and whether a text lies
      beyond a number. */
  datatype Warehouse = Warehouse(
    cast: (string, Scalar) -> Scalar,
    same: (Scalar, Scalar) -> bool,
    listsNull: bool,
    beyondText: (Bound, string, real) -> bool)
  {
    /** Casting twice is casting once, NULL stays NULL, and values of one kind are compared as such. */
    ghost predicate Valid() {
      && (forall dtype, v :: cast(dtype, cast(dtype, v)) == cast(dtype, v))
      && (forall dtype :: cast(dtype, Missing) == Missing)
      && (forall v, x :: SameKind(v, x) ==> (same(v, x) <==> v == x))
    }

    /** A value a column of that type can hold. */
    predicate Holds(dtype: string, v: Scalar) {
      cast(dtype, v) == v
    }

    /** IS_IN: a NULL answer of the warehouse counts as false. */
    predicate Contains(values: seq<Scalar>, v: Scalar) {
      if v.Missing? then listsNull && Missing in values
      else exists x <- values :: !x.Missing? && same(v, x)
    }

    /** The condition the generated query evaluates on a cell. */
    predicate Fires(op: CleaningOperation, v: Scalar) {
      match op
      case MissingValueImputation(_) => v.Missing?
      case DisguisedValueImputation(values, _) => Contains(values, v)
      case UnexpectedValueImputation(values, _) => !Contains(values, v)
      case ValueBeyondEndpointImputation(bound, e, _) =>
        if v.Text? then beyondText(bound, v.text, e) else v.Number? && Beyond(bound, v.number, e)
      case StringValueImputation(_) => v.Text?
    }

    /** One operation; its output, imputed or not, is cast back to the type of the column. */
    function Apply(dtype: string, op: CleaningOperation, v: Scalar): Scalar {
      cast(dtype, if Fires(op, v) then op.imputed else v)
    }

    /** The operations of a column run one after the other, each on the output of the previous one. */
    function Clean(dtype: string, ops: seq<CleaningOperation>, v: Scalar): Scalar
      decreases |ops|
    {
      if ops == [] then v else Clean(dtype, ops[1..], Apply(dtype, ops[0], v))
    }

    /** How often a cell is imputed on its way through the operations. */
    function Firings(dtype: string, ops: seq<CleaningOperation>, v: Scalar): nat
      decreases |ops|
    {
      if ops == [] then 0
      else (if Fires(ops[0], v) then 1 else 0) + Firings(dtype, ops[1..], Apply(dtype, ops[0], v))
    }

    /** The operation that takes `v`: the first whose condition holds of it. */
    function Taker(ops: seq<CleaningOperation>, v: Scalar): (i: nat)
      ensures i <= |ops|
    {
      if ops == [] || Fires(ops[0], v) then 0 else Taker(ops[1..], v) + 1
    }

    /** No operation after the `i`-th is triggered by what the `i`-th leaves in the column. */
    predicate Undisturbed(dtype: string, ops: seq<CleaningOperation>, i: nat) {
      i < |ops| ==> forall j :: i < j < |ops| ==> !Fires(ops[j], cast(dtype, ops[i].imputed))
    }

    /** Some value of the column is taken by the `i`-th operation. */
    ghost predicate Reached(dtype: string, ops: seq<CleaningOperation>, i: nat) {
      exists v :: Holds(dtype, v) && Taker(ops, v) == i
    }
  }

  lemma {:induction false} NothingFires(w: Warehouse, dtype: string, ops: seq<CleaningOperation>, v: Scalar)
    requires w.Valid() && w.Holds(dtype, v)
    ensures w.Firings(dtype, ops, v) == 0 <==> forall j :: 0 <= j < |ops| ==> !w.Fires(ops[j], v)
    ensures w.Firings(dtype, ops, v) == 0 ==> w.Clean(dtype, ops, v) == v
    decreases |ops|
  {
    if ops != [] && !w.Fires(ops[0], v) {
      var rest := ops[1..];
      NothingFires(w, dtype, rest, v);
      assert forall j :: 0 <= j < |rest| ==> rest[j] == ops[j + 1];
      assert forall j :: 1 <= j < |ops| ==> ops[j] == rest[j - 1];
    }
  }

  /** For one value: it is imputed at most once exactly when no later operation is triggered by what
      its taker leaves in the column, and then that is what the column ends up with. */
  lemma {:induction false} ImputedOnceIff(w: Warehouse, dtype: string, ops: seq<CleaningOperation>, v: Scalar)
    requires w.Valid() && w.Holds(dtype, v)
    ensures var i := w.Taker(ops, v);
            && (w.Firings(dtype, ops, v) <= 1 <==> w.Undisturbed(dtype, ops, i))
            && (w.Firings(dtype, ops, v) <= 1 ==>
                  w.Clean(dtype, ops, v) == if i == |ops| then v else w.cast(dtype, ops[i].imputed))
    decreases |ops|
  {
    if ops != [] {
      var rest := ops[1..];
      assert forall j :: 0 <= j < |rest| ==> rest[j] == ops[j + 1];
      assert forall j :: 1 <= j < |ops| ==> ops[j] == rest[j - 1];
      if w.Fires(ops[0], v) {
        NothingFires(w, dtype, rest, w.cast(dtype, ops[0].imputed));
      } else {
        ImputedOnceIff(w, dtype, rest, v);
      }
    }
  }

  /** For a list of operations: every value of the column is imputed at most once exactly when no
      operation that takes a value leaves one that triggers a later operation. */
  lemma ImputedAtMostOnceIff(w: Warehouse, dtype: string, ops: seq<CleaningOperation>)
    requires w.Valid()
    ensures (forall v :: w.Holds(dtype, v) ==> w.Firings(dtype, ops, v) <= 1)
            <==> forall i: nat :: w.Reached(dtype, ops, i) ==> w.Undisturbed(dtype, ops, i)
  {
    forall v | w.Holds(dtype, v)
      ensures w.Reached(dtype, ops, w.Taker(ops, v))
      ensures w.Firings(dtype, ops, v) <= 1 <==> w.Undisturbed(dtype, ops, w.Taker(ops, v))
    {
      ImputedOnceIff(w, dtype, ops, v);
    }
  }

  /** On a comparable value the query's condition is the validator's, but for a missing value that
      the operation lists: there the warehouse decides. */
  lemma FiresIsCheck(w: Warehouse, op: CleaningOperation, v: Scalar)
    requires w.Valid() && op.Comparable(v)
    ensures w.listsNull ==> (w.Fires(op, v) <==> op.Check(v))
    ensures !op.Check(v) ==> (w.Fires(op, v) <==> v.Missing? && op.ExpectsMissing() && !w.listsNull)
  {
    if !v.Missing? && (op.DisguisedValueImputation? || op.UnexpectedValueImputation?) {
      var values := if op.DisguisedValueImputation? then op.disguised else op.expected;
      assert v in values <==> exists x <- values :: !x.Missing? && w.same(v, x);
    }
  }

  /** The values the list imputes belong to the type of the column, and every later operation can
      compare them with its own. */
  predicate WellTyped(w: Warehouse, dtype: string, ops: seq<CleaningOperation>) {
    && (forall op <- ops :: w.Holds(dtype, op.imputed))
    && (forall i, j :: 0 <= i < j < |ops| ==> ops[j].Comparable(ops[i].imputed))
  }

  /** The validator's promise. For an accepted, well-typed list it is kept outright where a listed
      NULL is found; elsewhere a value is imputed twice exactly when its taker makes it missing and a
      later operation lists missing among its expected values. */
  lemma ValidatorPromise(w: Warehouse, dtype: string, ops: seq<CleaningOperation>, v: Scalar)
    requires w.Valid() && ValidOperations(ops) && WellTyped(w, dtype, ops) && w.Holds(dtype, v)
    ensures w.listsNull ==> w.Firings(dtype, ops, v) <= 1
    ensures !w.listsNull ==>
              var i := w.Taker(ops, v);
              w.Firings(dtype, ops, v) <= 1
              <==> !(i < |ops| && ops[i].imputed.Missing? && exists j :: i < j < |ops| && ops[j].ExpectsMissing())
  {
    ImputedOnceIff(w, dtype, ops, v);
    var i := w.Taker(ops, v);
    if i < |ops| {
      var x := ops[i].imputed;
      assert ops[i] in ops && w.cast(dtype, x) == x;
      forall j | i < j < |ops|
        ensures w.Fires(ops[j], x) <==> x.Missing? && ops[j].ExpectsMissing() && !w.listsNull
      {
        FiresIsCheck(w, ops[j], x);
      }
    }
  }

  lemma FiringsOfTwo(w: Warehouse, dtype: string, a: CleaningOperation, b: CleaningOperation, v: Scalar)
    ensures w.Firings(dtype, [a, b], v)
            == (if w.Fires(a, v) then 1 else 0) + (if w.Fires(b, w.Apply(dtype, a, v)) then 1 else 0)
    ensures w.Clean(dtype, [a, b], v) == w.Apply(dtype, b, w.Apply(dtype, a, v))
  {
    assert [a, b][1..] == [b] && [b][1..] == [];
    var x := w.Apply(dtype, a, v);
    assert w.Firings(dtype, [b], x) == if w.Fires(b, x) then 1 else 0;
    assert w.Clean(dtype, [b], x) == w.Apply(dtype, b, x);
  }

  /** The cells an operation is for. */
  predicate Concerns(listsNull: bool, op: CleaningOperation, v: Scalar) {
    match op
    case MissingValueImputation(_) => v == Missing
    case StringValueImputation(_) => v.Text?
    case DisguisedValueImputation(values, _) => v in values && (v == Missing ==> listsNull)
    case UnexpectedValueImputation(values, _) => v !in values || (v == Missing && !listsNull)
    case ValueBeyondEndpointImputation(LessThan, e, _) => v.Number? && v.number < e
    case ValueBeyondEndpointImputation(LessThanOrEqual, e, _) => v.Number? && v.number <= e
    case ValueBeyondEndpointImputation(GreaterThan, e, _) => v.Number? && v.number > e
    case ValueBeyondEndpointImputation(GreaterThanOrEqual, e, _) => v.Number? && v.number >= e
  }

  /** One operation on a cell it can compare imputes the cells it is for and leaves all others as they
      are. */
  lemma CleansOne(w: Warehouse, dtype: string, op: CleaningOperation, v: Scalar)
    requires w.Valid() && w.Holds(dtype, v) && op.Comparable(v)
    ensures w.Clean(dtype, [op], v) == (if Concerns(w.listsNull, op, v) then w.cast(dtype, op.imputed) else v)
    ensures w.Firings(dtype, [op], v) == (if Concerns(w.listsNull, op, v) then 1 else 0)
  {
    FiresIsCheck(w, op, v);
    var x := w.Apply(dtype, op, v);
    assert [op][1..] == [];
    assert w.Clean(dtype, [], x) == x && w.Firings(dtype, [], x) == 0;
  }

  /** Operations run in their order, each on what the ones before it left; so do their counts. */
  lemma {:induction false} CleansInOrder(w: Warehouse, dtype: string, a: seq<CleaningOperation>,
                                         b: seq<CleaningOperation>, v: Scalar)
    ensures w.Clean(dtype, a + b, v) == w.Clean(dtype, b, w.Clean(dtype, a, v))
    ensures w.Firings(dtype, a + b, v) == w.Firings(dtype, a, v) + w.Firings(dtype, b, w.Clean(dtype, a, v))
    decreases |a|
  {
    if a == [] {
      assert a + b == b;
    } else {
      assert (a + b)[1..] == a[1..] + b;
      CleansInOrder(w, dtype, a[1..], b, w.Apply(dtype, a[0], v));
    }
  }

  /** The validator looks at later operations only: missing values may be filled with 0 before what is
      below 0 is made missing, and not the other way round. */
  lemma OrderMatters(e: real)
    ensures var fill := MissingValueImputation(Number(e));
            var below := ValueBeyondEndpointImputation(LessThan, e, Missing);
            && ValidOperations([fill, below]) && !ValidOperations([below, fill])
            && !ValidOperations([fill, below.(bound := LessThanOrEqual)])
  {
    var fill := MissingValueImputation(Number(e));
    var below := ValueBeyondEndpointImputation(LessThan, e, Missing);
    var s, t := [below, fill], [fill, below.(bound := LessThanOrEqual)];
    assert s[1].Check(s[0].imputed) && t[1].Check(t[0].imputed);
  }

  /** An accepted list on an integer column: -1 becomes 0.4, is cast to 0, and 0 becomes 5. */
  lemma CastImputesTwice(w: Warehouse)
    requires w.Valid() && w.Holds("INT", Number(-1.0)) && w.Holds("INT", Number(5.0))
    requires w.cast("INT", Number(0.4)) == Number(0.0)
    ensures exists ops ::
              && ValidOperations(ops) && w.Firings("INT", ops, Number(-1.0)) == 2
              && w.Clean("INT", ops, Number(-1.0)) == Number(5.0)
  {
    var beyond := ValueBeyondEndpointImputation(LessThan, 0.0, Number(0.4));
    var disguised := DisguisedValueImputation([Number(0.0)], Number(5.0));
    var ops := [beyond, disguised];
    assert Number(0.0) in disguised.disguised;
    assert SameKind(Number(0.0), Number(0.0));
    assert w.Fires(disguised, w.Apply("INT", beyond, Number(-1.0)));
    FiringsOfTwo(w, "INT", beyond, disguised, Number(-1.0));
    assert ValidOperations(ops) && w.Firings("INT", ops, Number(-1.0)) == 2;
  }

  /** An accepted list on a text column: the imputed 0 is cast to a text, and texts are imputed. */
  lemma TextImputesTwice(w: Warehouse, text: string)
    requires w.Valid() && w.Holds("VARCHAR", Text(text)) && w.cast("VARCHAR", Number(0.0)).Text?
    ensures exists ops :: ValidOperations(ops) && w.Firings("VARCHAR", ops, Text(text)) == 2
  {
    var zero, one := StringValueImputation(Number(0.0)), StringValueImputation(Number(1.0));
    var ops := [zero, one];
    FiringsOfTwo(w, "VARCHAR", zero, one, Text(text));
    assert ValidOperations(ops) && w.Firings("VARCHAR", ops, Text(text)) == 2;
  }

  /** An accepted, well-typed list that imputes -999 twice, first to missing and then to 0, exactly
      where a listed NULL is not found. */
  lemma NullImputesTwice(w: Warehouse)
    requires w.Valid() && w.Holds("INT", Number(-999.0)) && w.Holds("INT", Number(0.0))
    ensures exists ops ::
              && ValidOperations(ops) && WellTyped(w, "INT", ops)
              && w.Firings("INT", ops, Number(-999.0)) == if w.listsNull then 1 else 2
  {
    var disguised := DisguisedValueImputation([Number(-999.0)], Missing);
    var unexpected := UnexpectedValueImputation([Missing, Number(1.0)], Number(0.0));
    var ops := [disguised, unexpected];
    assert Number(-999.0) in disguised.disguised && SameKind(Number(-999.0), Number(-999.0));
    assert w.Fires(disguised, Number(-999.0));
    assert Missing in unexpected.expected;
    FiringsOfTwo(w, "INT", disguised, unexpected, Number(-999.0));
    assert ValidOperations(ops) && WellTyped(w, "INT", ops)
           && w.Firings("INT", ops, Number(-999.0)) == if w.listsNull then 1 else 2;
  }
}
