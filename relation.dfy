/** The collection side of the filter engine: a relation of records, the
    nil that an unset collection slot reads as, the Ruby exceptions that can
    surface while filtering, and the equality `where` used by default. */
module Relation {
  import opened Wrappers
  import opened Values

  /** One row of the collection: field name to value. */
  type Record = map<string, Value>

  /** What a collection slot holds: nil (`Absent`, also what a slot that was
      never assigned reads as) or a relation over a sequence of records. */
  datatype Coll = Absent | Rows(rows: seq<Record>)

  /** Exceptions raised while filtering. `Raised` stands for whatever a
      scope or query callable raises; it propagates unchanged. */
  datatype Error =
    | NoMethodError(selector: string)
    | NameError(name: string)
    | Raised(message: string)

  /** A record satisfies `where(field => v)` when its field holds `v`; a
      record without the field (a NULL column) never matches a present value. */
  predicate Matches(rec: Record, field: string, v: Value)
  {
    field in rec && rec[field] == v
  }

  /** `a` is `b` with some elements dropped, the rest kept in order. */
  predicate IsSubsequence<T(==)>(a: seq<T>, b: seq<T>)
    decreases |b|
  {
    if a == [] then true
    else if b == [] then false
    else if a[0] == b[0] then IsSubsequence(a[1..], b[1..])
    else IsSubsequence(a, b[1..])
  }

  /** The records of `rows` that match, in their original order. */
  function Select(rows: seq<Record>, field: string, v: Value): (r: seq<Record>)
    ensures |r| <= |rows|
    ensures forall k :: 0 <= k < |r| ==> Matches(r[k], field, v)
  {
    if rows == [] then []
    else if Matches(rows[0], field, v) then [rows[0]] + Select(rows[1..], field, v)
    else Select(rows[1..], field, v)
  }

  /** Exactly the matching records survive. */
  lemma {:induction false} SelectMembers(rows: seq<Record>, field: string, v: Value, x: Record)
    ensures x in Select(rows, field, v) <==> x in rows && Matches(x, field, v)
  {
    if rows != [] {
      SelectMembers(rows[1..], field, v, x);
      assert rows == [rows[0]] + rows[1..];
    }
  }

  /** Each matching record survives as often as it occurs; others never do. */
  lemma {:induction false} SelectCount(rows: seq<Record>, field: string, v: Value, x: Record)
    ensures multiset(Select(rows, field, v))[x]
            == if Matches(x, field, v) then multiset(rows)[x] else 0
  {
    if rows != [] {
      SelectCount(rows[1..], field, v, x);
      assert rows == [rows[0]] + rows[1..];
    }
  }

  /** The survivors keep their original relative order. */
  lemma {:induction false} SelectOrder(rows: seq<Record>, field: string, v: Value)
    ensures IsSubsequence(Select(rows, field, v), rows)
  {
    if rows != [] {
      SelectOrder(rows[1..], field, v);
      if !Matches(rows[0], field, v) {
        SkipHead(Select(rows[1..], field, v), rows[0], rows[1..]);
      }
    }
  }

  /** Putting one more element in front keeps a subsequence. */
  lemma {:induction false} SkipHead<T>(a: seq<T>, h: T, b: seq<T>)
    requires IsSubsequence(a, b)
    ensures IsSubsequence(a, [h] + b)
    decreases |b|, 1
  {
    if a != [] && a[0] == h {
      assert ([h] + b)[1..] == b;
      DropFront(a, b);
    }
  }

  /** Removing the first element of a subsequence keeps a subsequence. */
  lemma {:induction false} DropFront<T>(a: seq<T>, b: seq<T>)
    requires a != [] && IsSubsequence(a, b)
    ensures IsSubsequence(a[1..], b)
    decreases |b|, 0
  {
    assert b == [b[0]] + b[1..];
    if a[0] == b[0] {
      SkipHead(a[1..], b[0], b[1..]);
    } else {
      DropFront(a, b[1..]);
      SkipHead(a[1..], b[0], b[1..]);
    }
  }

  /** Selecting rows that all match already changes nothing. */
  lemma {:induction false} SelectAllMatch(rows: seq<Record>, field: string, v: Value)
    requires forall k :: 0 <= k < |rows| ==> Matches(rows[k], field, v)
    ensures Select(rows, field, v) == rows
  {
    if rows != [] {
      SelectAllMatch(rows[1..], field, v);
    }
  }

  /** `collection.where(field => v)`: nil has no `where`; a relation keeps
      exactly its matching records, in order. */
  function Where(c: Coll, field: string, v: Value): (r: Result<Coll, Error>)
    ensures c.Absent? ==> r == Err(NoMethodError("where"))
    ensures c.Rows? ==> r.Ok? && r.value.Rows?
    ensures c.Rows? ==> forall x :: x in r.value.rows <==> x in c.rows && Matches(x, field, v)
  {
    match c
    case Absent => Err(NoMethodError("where"))
    case Rows(rows) =>
      var out := Select(rows, field, v);
      assert forall x :: x in out <==> x in rows && Matches(x, field, v) by {
        forall x ensures x in out <==> x in rows && Matches(x, field, v) {
          SelectMembers(rows, field, v, x);
        }
      }
      Ok(Rows(out))
  }
}
