/** `Filterman::ClassMethods`: the class-level, append-only list of filters
    a host class declares. */
module Registry {
  import opened Wrappers
  import opened Filters

  /** The filters one `available_filters(*simple, **complex)` call declares:
      one option-less filter per simple name in argument order, then one per
      complex name with its options, in order. */
  function Declared(simple: seq<string>, complex: seq<(string, Options)>): (r: seq<Filter>)
    ensures |r| == |simple| + |complex|
    ensures forall k :: 0 <= k < |simple| ==> r[k] == Filter(simple[k], NoOptions)
    ensures forall k :: 0 <= k < |complex| ==> r[|simple| + k] == Filter(complex[k].0, complex[k].1)
  {
    seq(|simple|, k requires 0 <= k < |simple| => Filter(simple[k], NoOptions))
    + seq(|complex|, k requires 0 <= k < |complex| => Filter(complex[k].0, complex[k].1))
  }

  /** The filter state of one host class. */
  class FilterRegistry {
    /** The class's `@filters` instance variable: nil until `filters` is first read. */
    var cache: Option<seq<Filter>>

    constructor ()
      ensures cache == None
    {
      cache := None;
    }

    /** The list `filters` would return now. */
    ghost function List(): seq<Filter>
      reads this
    {
      if cache.Some? then cache.value else []
    }

    /** `filters`: `@filters ||= []`. The first read stores an empty list;
        every later read returns the stored one. */
    method Filters() returns (fs: seq<Filter>)
      modifies this
      ensures fs == old(List())
      ensures cache == Some(fs)
    {
      if cache.None? {
        cache := Some([]);
      }
      fs := cache.value;
    }

    /** `available_filters(*simple, **complex)`: appends the declared filters
        to whatever earlier calls declared, replacing and de-duplicating
        nothing. A call with no arguments never reads `filters`, so it leaves
        the instance variable as it was. */
    method AvailableFilters(simple: seq<string>, complex: seq<(string, Options)>)
      modifies this
      ensures simple == [] && complex == [] ==> cache == old(cache)
      ensures simple != [] || complex != [] ==> cache == Some(old(List()) + Declared(simple, complex))
    {
      ghost var before := List();
      var i := 0;
      while i < |simple|
        invariant 0 <= i <= |simple|
        invariant i == 0 ==> cache == old(cache)
        invariant i > 0 ==> cache == Some(before + Declared(simple[..i], []))
      {
        var fs := Filters();
        cache := Some(fs + [Filter(simple[i], NoOptions)]);
        assert Declared(simple[..i + 1], []) == Declared(simple[..i], []) + [Filter(simple[i], NoOptions)];
        assert fs + [Filter(simple[i], NoOptions)] == before + Declared(simple[..i + 1], []);
        i := i + 1;
      }
      assert simple[..i] == simple;
      var j := 0;
      while j < |complex|
        invariant 0 <= j <= |complex|
        invariant simple == [] && j == 0 ==> cache == old(cache)
        invariant simple != [] || j > 0 ==> cache == Some(before + Declared(simple, complex[..j]))
      {
        var fs := Filters();
        cache := Some(fs + [Filter(complex[j].0, complex[j].1)]);
        assert Declared(simple, complex[..j + 1]) == Declared(simple, complex[..j]) + [Filter(complex[j].0, complex[j].1)];
        assert fs + [Filter(complex[j].0, complex[j].1)] == before + Declared(simple, complex[..j + 1]);
        j := j + 1;
      }
      assert complex[..j] == complex;
    }
  }
}
