/** `Filterman::Filter`: one named filtering rule and its three-way
    dispatch (named scope, custom query, default equality `where`). */
module Filters {
  import opened Wrappers
  import opened Values
  import opened Relation

  /** `collection.send(scope, value)`: how the collection answers a call of
      the named scope. The collection's methods are not visible, so the
      dispatch is a parameter; it may raise. */
  type Sender = (string, Coll, Value) -> Result<Coll, Error>

  /** A `query:` callable, called with the collection and the value. */
  type Query = (Coll, Value) -> Result<Coll, Error>

  /** The recognised keys of a filter's options hash. */
  datatype Options = Options(scope: Option<string>, query: Option<Query>)

  /** A filter declared by name alone. */
  const NoOptions: Options := Options(None, None)

  /** `Filter.new(name, **options)`. */
  datatype Filter = Filter(name: string, options: Options)

  /** `Filter#apply(collection:, params:)`. Without a present parameter the
      collection comes back as it was; otherwise a configured scope wins over
      a configured query, and with neither the collection is narrowed to the
      records whose field `name` equals the value. */
  function Apply(f: Filter, collection: Coll, params: Params, send: Sender): (r: Result<Coll, Error>)
    ensures Blank(Lookup(params, f.name)) ==> r == Ok(collection)
    ensures !Blank(Lookup(params, f.name)) && f.options.scope.Some? ==>
              r == send(f.options.scope.value, collection, Lookup(params, f.name))
    ensures !Blank(Lookup(params, f.name)) && f.options.scope.None? && f.options.query.Some? ==>
              r == f.options.query.value(collection, Lookup(params, f.name))
    ensures !Blank(Lookup(params, f.name)) && f.options == NoOptions ==>
              r == Where(collection, f.name, Lookup(params, f.name))
  {
    match Presence(Lookup(params, f.name))
    case None => Ok(collection)
    case Some(value) =>
      if f.options.scope.Some? then send(f.options.scope.value, collection, value)
      else if f.options.query.Some? then f.options.query.value(collection, value)
      else Where(collection, f.name, value)
  }

  /** A filter with no options and a present parameter keeps exactly the
      records whose field equals the parameter, each as often as before and
      in the original order; on nil it raises NoMethodError. */
  lemma DefaultFilterSelects(name: string, collection: Coll, params: Params, send: Sender)
    requires !Blank(Lookup(params, name))
    ensures var r := Apply(Filter(name, NoOptions), collection, params, send);
            && (collection.Absent? ==> r == Err(NoMethodError("where")))
            && (collection.Rows? ==>
                  && r.Ok? && r.value.Rows?
                  && IsSubsequence(r.value.rows, collection.rows)
                  && forall x :: multiset(r.value.rows)[x]
                       == if Matches(x, name, Lookup(params, name)) then multiset(collection.rows)[x] else 0)
  {
    if collection.Rows? {
      var v := Lookup(params, name);
      SelectOrder(collection.rows, name, v);
      forall x ensures multiset(Select(collection.rows, name, v))[x]
                       == if Matches(x, name, v) then multiset(collection.rows)[x] else 0 {
        SelectCount(collection.rows, name, v, x);
      }
    }
  }

  /** Applying a default filter again straight away gives what applying it
      once gave: a name declared twice in a row narrows no further. */
  lemma DefaultFilterTwice(name: string, collection: Coll, params: Params, send: Sender)
    requires Apply(Filter(name, NoOptions), collection, params, send).Ok?
    ensures var once := Apply(Filter(name, NoOptions), collection, params, send);
            Apply(Filter(name, NoOptions), once.value, params, send) == once
  {
    var v := Lookup(params, name);
    if !Blank(v) {
      SelectAllMatch(Select(collection.rows, name, v), name, v);
    }
  }
}
