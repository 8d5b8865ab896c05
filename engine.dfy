/** `Filterman#apply_filters!`: the left fold of `Filter#apply` over the
    class's filters, in declaration order, on one instance-variable slot. */
module Engine {
  import opened Wrappers
  import opened Values
  import opened Relation
  import opened Filters
  import opened Registry

  /** Where a run over some filters stops: the value the slot holds, how many
      filters' `apply` returned, and the exception that cut the run short. */
  datatype Outcome = Outcome(slot: Coll, applied: nat, error: Option<Error>)

  /** The run over `fs` from the slot value `start`, one filter at a time,
      each step's output feeding the next; the first exception stops it and
      leaves the value the last successful step produced. */
  function Run(fs: seq<Filter>, start: Coll, params: Params, send: Sender): (out: Outcome)
    ensures out.applied <= |fs|
    ensures out.error.None? <==> out.applied == |fs|
    decreases |fs|
  {
    if fs == [] then Outcome(start, 0, None)
    else
      var prev := Run(fs[..|fs| - 1], start, params, send);
      if prev.error.Some? then prev
      else
        var step := Apply(fs[|fs| - 1], prev.slot, params, send);
        if step.Ok? then Outcome(step.value, prev.applied + 1, None)
        else Outcome(prev.slot, prev.applied, Some(step.error))
  }

  /** Once a prefix has raised, the filters after it change nothing. */
  lemma {:induction false} RunStopped(fs: seq<Filter>, n: nat, start: Coll, params: Params, send: Sender)
    requires n <= |fs|
    requires Run(fs[..n], start, params, send).error.Some?
    ensures Run(fs, start, params, send) == Run(fs[..n], start, params, send)
    decreases |fs| - n
  {
    if n < |fs| {
      var init := fs[..|fs| - 1];
      assert init[..n] == fs[..n];
      RunStopped(init, n, start, params, send);
    } else {
      assert fs[..n] == fs;
    }
  }

  /** After a run, the slot holds the fold of exactly the filters that
      returned; a run that raised did so in the next filter's `apply`. */
  lemma {:induction false} RunPrefix(fs: seq<Filter>, start: Coll, params: Params, send: Sender)
    ensures var out := Run(fs, start, params, send);
            && Run(fs[..out.applied], start, params, send) == Outcome(out.slot, out.applied, None)
            && (out.error.Some? ==> Apply(fs[out.applied], out.slot, params, send) == Err(out.error.value))
    decreases |fs|
  {
    var out := Run(fs, start, params, send);
    if fs == [] {
    } else {
      var init := fs[..|fs| - 1];
      var prev := Run(init, start, params, send);
      RunPrefix(init, start, params, send);
      if prev.error.Some? {
        assert init[..prev.applied] == fs[..prev.applied];
      } else {
        assert init[..|init|] == init;
        if out.error.None? {
          assert fs[..out.applied] == fs;
        }
      }
    }
  }

  /** Running two lists one after the other is running their concatenation,
      provided the first one ran to the end. */
  lemma {:induction false} RunAppend(fs: seq<Filter>, gs: seq<Filter>, start: Coll, params: Params, send: Sender)
    requires Run(fs, start, params, send).error.None?
    ensures var rest := Run(gs, Run(fs, start, params, send).slot, params, send);
            Run(fs + gs, start, params, send) == Outcome(rest.slot, |fs| + rest.applied, rest.error)
    decreases |gs|
  {
    if gs == [] {
      assert fs + gs == fs;
    } else {
      var init := gs[..|gs| - 1];
      RunAppend(fs, init, start, params, send);
      assert (fs + gs)[..|fs + gs| - 1] == fs + init;
    }
  }

  /** The run seen from the front, the order `each` visits the filters in: the
      first filter's `apply` sees the slot's prior value, and the rest of the
      run starts from what it returned. */
  lemma RunCons(f: Filter, fs: seq<Filter>, start: Coll, params: Params, send: Sender)
    ensures Run([f] + fs, start, params, send)
            == var first := Apply(f, start, params, send);
               if first.Err? then Outcome(start, 0, Some(first.error))
               else
                 var rest := Run(fs, first.value, params, send);
                 Outcome(rest.slot, 1 + rest.applied, rest.error)
  {
    assert ([f] + fs)[..1] == [f];
    assert [f][..0] == [];
    if Apply(f, start, params, send).Err? {
      RunStopped([f] + fs, 1, start, params, send);
    } else {
      RunAppend([f], fs, start, params, send);
    }
  }

  /** Filters A then B yield B's `apply` of A's result, not the reverse. */
  lemma RunTwo(a: Filter, b: Filter, start: Coll, params: Params, send: Sender)
    requires Apply(a, start, params, send).Ok?
    ensures Run([a, b], start, params, send).error.None?
            <==> Apply(b, Apply(a, start, params, send).value, params, send).Ok?
    ensures Run([a, b], start, params, send).error.None? ==>
            Ok(Run([a, b], start, params, send).slot) == Apply(b, Apply(a, start, params, send).value, params, send)
  {
    RunCons(a, [b], start, params, send);
    RunCons(b, [], Apply(a, start, params, send).value, params, send);
    assert [a] + [b] == [a, b];
    assert [b] + [] == [b];
  }

  /** Filters whose parameters are all missing or blank leave the slot value
      as it was. */
  lemma {:induction false} RunAllBlank(fs: seq<Filter>, start: Coll, params: Params, send: Sender)
    requires forall k :: 0 <= k < |fs| ==> Blank(Lookup(params, fs[k].name))
    ensures Run(fs, start, params, send) == Outcome(start, |fs|, None)
    decreases |fs|
  {
    if fs != [] {
      RunAllBlank(fs[..|fs| - 1], start, params, send);
    }
  }

  /** The instance variable `"@" + (on || controller_name)`. */
  function SlotName(on: Option<string>, controllerName: string): (key: string)
    ensures |key| >= 1 && key[0] == '@'
    ensures key[1..] == if on.Some? then on.value else controllerName
  {
    "@" + if on.Some? then on.value else controllerName
  }

  predicate IdentStart(c: char)
  {
    'a' <= c <= 'z' || 'A' <= c <= 'Z' || c == '_' || c >= '\U{80}'
  }

  predicate IdentChar(c: char)
  {
    IdentStart(c) || '0' <= c <= '9'
  }

  /** Names that `instance_variable_get`/`_set` accept: `@` and then an
      identifier; anything else raises NameError. */
  predicate ValidIvarName(key: string)
    ensures ValidIvarName(key) ==> |key| >= 2 && key[0] == '@'
    ensures |key| >= 2 && key[0] == '@' && (key[1] == '@' || '0' <= key[1] <= '9') ==> !ValidIvarName(key)
  {
    |key| >= 2 && key[0] == '@' && IdentStart(key[1])
    && forall k :: 2 <= k < |key| ==> IdentChar(key[k])
  }

  /** A name that starts like an identifier and continues with identifier
      characters. */
  predicate IsIdentifier(name: string)
  {
    |name| >= 1 && IdentStart(name[0]) && forall k :: 1 <= k < |name| ==> IdentChar(name[k])
  }

  /** The slot name is accepted exactly when `on` (or, without it, the
      controller name) is an identifier; this decides whether a non-empty
      run raises NameError before any filter applies. */
  lemma SlotNameValid(on: Option<string>, controllerName: string)
    ensures ValidIvarName(SlotName(on, controllerName))
            <==> IsIdentifier(if on.Some? then on.value else controllerName)
  {
  }

  /** `instance_variable_get`: an instance variable never assigned reads as nil. */
  function Read(slots: map<string, Coll>, key: string): (c: Coll)
    ensures key !in slots ==> c == Absent
    ensures key in slots ==> c == slots[key]
  {
    if key in slots then slots[key] else Absent
  }

  /** A host instance (a controller): its instance variables and the filter
      list of its class. */
  class Host {
    var slots: map<string, Coll>
    const controllerName: string
    const registry: FilterRegistry

    constructor (controllerName: string, registry: FilterRegistry, slots: map<string, Coll>)
      ensures this.controllerName == controllerName
      ensures this.registry == registry
      ensures this.slots == slots
    {
      this.controllerName := controllerName;
      this.registry := registry;
      this.slots := slots;
    }

    /** `apply_filters!(from:, on:)` with `params` already read from the
        parameter source. Reads the class's filter list (memoising it), then
        for each filter in order reads the slot, applies the filter and
        writes the result back. An empty list touches no slot; an invalid
        slot name raises NameError at the first read; an exception from a
        filter leaves the slot as the filters before it left it. No other
        slot changes. */
    method ApplyFilters(params: Params, on: Option<string>, send: Sender) returns (raised: Option<Error>)
      modifies this, registry
      ensures registry.cache == Some(old(registry.List()))
      ensures var fs, key := old(registry.List()), SlotName(on, controllerName);
              && (fs == [] ==> raised == None && slots == old(slots))
              && (fs != [] && !ValidIvarName(key) ==> raised == Some(NameError(key)) && slots == old(slots))
              && (fs != [] && ValidIvarName(key) ==>
                    var out := Run(fs, Read(old(slots), key), params, send);
                    && raised == out.error
                    && slots == if out.applied == 0 then old(slots) else old(slots)[key := out.slot])
    {
      var key := SlotName(on, controllerName);
      var fs := registry.Filters();
      ghost var start := Read(slots, key);
      if fs != [] && !ValidIvarName(key) {
        return Some(NameError(key));
      }
      var i := 0;
      while i < |fs|
        invariant 0 <= i <= |fs|
        invariant registry.cache == Some(fs)
        invariant Run(fs[..i], start, params, send) == Outcome(Read(slots, key), i, None)
        invariant slots == if i == 0 then old(slots) else old(slots)[key := Read(slots, key)]
      {
        var current := Read(slots, key);
        var next := Apply(fs[i], current, params, send);
        assert fs[..i + 1][..i] == fs[..i];
        if next.Err? {
          RunStopped(fs, i + 1, start, params, send);
          return Some(next.error);
        }
        slots := slots[key := next.value];
        i := i + 1;
      }
      assert fs[..i] == fs;
      raised := None;
    }
  }
}
