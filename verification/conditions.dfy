/** Rows of the event store and the condition language that filters them.

    A condition list is read the way the event-query service reads it: the
    outer list is a conjunction, and a condition that is itself a list of
    terms is a disjunction of those terms. Each term is a
    `[column, operator, literal]` triple. */
module Conditions {
  import opened Wrappers
  import opened LexOrder

  datatype Column = Timestamp | EventId | ProjectId | Attribute(name: string)

  datatype Value = IntVal(i: int) | StrVal(s: string)

  datatype Op = Gt | Ge | Lt | Le | Eq | Ne

  /** `[column, op, operand]` */
  datatype Term = Term(column: Column, op: Op, operand: Value)

  /** A bare term, or a nested list of terms meaning "any of these". */
  datatype Condition = Simple(term: Term) | AnyOf(alternatives: seq<Term>)

  /** One stored event: the columns the backend uses plus an open attribute
      bag for whatever else callers filter on. */
  datatype Row = Row(projectId: nat, eventId: string, timestamp: int, attributes: map<string, Value>)

  /** `filter_keys`: for each listed column, the values a row may have. */
  type FilterKeys = map<Column, seq<Value>>

  function ColumnValue(row: Row, col: Column): Option<Value> {
    match col
    case Timestamp => Some(IntVal(row.timestamp))
    case EventId => Some(StrVal(row.eventId))
    case ProjectId => Some(IntVal(row.projectId))
    case Attribute(name) => if name in row.attributes then Some(row.attributes[name]) else None
  }

  /** Three-way comparison of values: integers numerically, strings
      lexicographically, and every integer before every string. */
  function Compare(a: Value, b: Value): (c: int)
    ensures -1 <= c <= 1
  {
    match (a, b)
    case (IntVal(x), IntVal(y)) => if x < y then -1 else if x == y then 0 else 1
    case (StrVal(x), StrVal(y)) => if StrLess(x, y) then -1 else if x == y then 0 else 1
    case (IntVal(_), StrVal(_)) => -1
    case (StrVal(_), IntVal(_)) => 1
  }

  lemma CompareZeroIffEqual(a: Value, b: Value)
    ensures Compare(a, b) == 0 <==> a == b
  {
    if a.StrVal? && b.StrVal? && a == b {
      StrLessIrreflexive(a.s);
    }
  }

  lemma CompareAntisymmetric(a: Value, b: Value)
    ensures Compare(a, b) == -Compare(b, a)
  {
    if a.StrVal? && b.StrVal? {
      if StrLess(a.s, b.s) {
        StrLessAsymmetric(a.s, b.s);
      } else if StrLess(b.s, a.s) {
        StrLessAsymmetric(b.s, a.s);
      } else {
        StrLessTotal(a.s, b.s);
      }
    }
  }

  lemma CompareTransitive(a: Value, b: Value, c: Value)
    requires Compare(a, b) < 0 && Compare(b, c) < 0
    ensures Compare(a, c) < 0
  {
    if a.StrVal? && b.StrVal? && c.StrVal? {
      StrLessTransitive(a.s, b.s, c.s);
    }
  }

  predicate SameKind(a: Value, b: Value) {
    a.IntVal? == b.IntVal?
  }

  /** The operator applied to the outcome of a three-way comparison. */
  predicate OpHolds(op: Op, c: int) {
    match op
    case Gt => c > 0
    case Ge => c >= 0
    case Lt => c < 0
    case Le => c <= 0
    case Eq => c == 0
    case Ne => c != 0
  }

  /** A term holds when the row has the column, its value has the operand's
      kind, and the comparison agrees with the operator. */
  predicate Holds(row: Row, t: Term) {
    match ColumnValue(row, t.column)
    case None => false
    case Some(v) => SameKind(v, t.operand) && OpHolds(t.op, Compare(v, t.operand))
  }

  predicate Satisfies(row: Row, c: Condition) {
    match c
    case Simple(t) => Holds(row, t)
    case AnyOf(alts) => exists i :: 0 <= i < |alts| && Holds(row, alts[i])
  }

  /** The outer list is a conjunction. */
  predicate SatisfiesAll(row: Row, cs: seq<Condition>) {
    forall i :: 0 <= i < |cs| ==> Satisfies(row, cs[i])
  }

  lemma SatisfiesAllAppend(row: Row, a: seq<Condition>, b: seq<Condition>)
    ensures SatisfiesAll(row, a + b) <==> SatisfiesAll(row, a) && SatisfiesAll(row, b)
  {
    if SatisfiesAll(row, a) && SatisfiesAll(row, b) {
      forall i | 0 <= i < |a + b|
        ensures Satisfies(row, (a + b)[i])
      {
        if i >= |a| {
          assert (a + b)[i] == b[i - |a|];
        }
      }
    }
    if SatisfiesAll(row, a + b) {
      forall i | 0 <= i < |a|
        ensures Satisfies(row, a[i])
      {
        assert (a + b)[i] == a[i];
      }
      forall i | 0 <= i < |b|
        ensures Satisfies(row, b[i])
      {
        assert (a + b)[|a| + i] == b[i];
      }
    }
  }

  /** Every column named in the filter keys has one of the listed values. */
  predicate PassesFilterKeys(row: Row, fk: FilterKeys) {
    forall col :: col in fk ==> ColumnValue(row, col).Some? && ColumnValue(row, col).value in fk[col]
  }

  /** A missing `filter_keys` restricts nothing. */
  predicate PassesOptionalFilterKeys(row: Row, fk: Option<FilterKeys>) {
    fk.None? || PassesFilterKeys(row, fk.value)
  }
}
