# filterman, modelled in Dafny

filterman lets a Rails controller declare which request parameters narrow
a collection. The class declares its filters with
`available_filters :status, role: { scope: :admins }, q: { query: ->(c, v) { ... } }`.
At request time, `apply_filters!` folds every declared filter over one
instance variable (`@companies`, say), in declaration order. Each filter
looks up its own parameter and does nothing when the parameter is missing
or blank. Otherwise it applies, in this order of precedence:
- the named scope,
- else the custom query,
- else an equality `where` on its own name.

The model has one Dafny module per part of `lib/filterman.rb`, plus the
Rails-side values it needs:

- `Wrappers`: `Option` and `Result`. A Ruby exception that propagates is an `Err`.
- `Values`: parameter and field values, Rails' `blank?` and `presence`, and the parameter map.
- `Relation`: records, a collection slot value (nil or a relation of records),
  the exceptions that can surface, and the equality `where`.
- `Filters`: `Filter`, its options, and `Filter#apply`.
- `Registry`: `available_filters` and the memoised `filters` list, as the class `FilterRegistry`.
- `Engine`: `apply_filters!` as the class `Host`. It is a `while` loop whose
  invariant is "the slot holds the run over the filters done so far".
  The loop is proved against the pure fold function `Run`.

Three behaviours of the code decide what the engine does at its edges:

- A configured scope wins over a configured query: `Filter#apply` tests
  `scope` before `query` (lib/filterman.rb:43-46).
- The slot is written after every filter (lib/filterman.rb:14-19). If filter k
  raises, the slot keeps what the first k-1 filters produced.
  `Host.ApplyFilters` states this.
- A slot that was never assigned reads as nil, and the run goes on from there:
  - if every parameter is blank, nil is written back into the slot;
  - if a default filter has a present value, `where` on nil raises
    `NoMethodError`;
  - an empty filter list never touches the slot.

## Model

| member | source | states |
|---|---|---|
| `Values.Lookup` | lib/filterman.rb:41 | `params[name]`: a missing key reads as nil, a present key as its value |
| `Values.Blank` | lib/filterman.rb:41 | the blankness behind `presence`: nil, false, the empty string, the empty array and the empty hash are blank; integers, true, a string with a non-whitespace character and a non-empty container are not |
| `Relation.Select` | lib/filterman.rb:48 | never longer than its input, and every record it keeps has the field equal to the value |
| `Relation.SelectMembers` | lib/filterman.rb:48 | a record is kept if and only if it is in the input and its field equals the value |
| `Relation.SelectCount` | lib/filterman.rb:48 | a matching record is kept as often as it occurs; a non-matching one never is |
| `Relation.SelectOrder` | lib/filterman.rb:48 | the kept records appear in their original relative order |
| `Relation.SelectAllMatch` | lib/filterman.rb:48 | narrowing records that all match already returns them unchanged, so narrowing twice by the same field and value equals narrowing once |
| `Relation.Where` | lib/filterman.rb:48 | nil raises NoMethodError; a relation yields a relation holding exactly its matching records |
| `Filters.Apply` | lib/filterman.rb:40-50 | blank or missing parameter: collection unchanged; else the scope result, even when a query is set; else the query result with no scope; else the equality `where` |
| `Filters.DefaultFilterSelects` | lib/filterman.rb:41-48 | an option-less filter with a present value keeps exactly the matching records, with their multiplicities, in order; on nil it raises NoMethodError |
| `Filters.DefaultFilterTwice` | lib/filterman.rb:40-50 | after an option-less filter has succeeded, applying it again right away changes nothing, so a name declared twice in a row narrows no further |
| `Registry.Declared` | lib/filterman.rb:24-27 | one filter per simple name in argument order, then one per complex name with its options, in order |
| `Registry.FilterRegistry.Filters` | lib/filterman.rb:29-31 | returns the stored list, or the empty list on first read; either way the list stays stored, so later reads return it |
| `Registry.FilterRegistry.AvailableFilters` | lib/filterman.rb:24-27 | the stored list becomes the earlier list followed by the newly declared filters, with no replacement and no de-duplication; a call with no names leaves the instance variable untouched |
| `Engine.Run` | lib/filterman.rb:14-20 | never counts more applied filters than there are, and ends without an exception exactly when every filter applied |
| `Engine.RunStopped` | lib/filterman.rb:14-20 | once a prefix of the filters has raised, the filters after it change nothing |
| `Engine.RunPrefix` | lib/filterman.rb:14-20 | the final slot is the run over exactly the filters that returned; a raising run raised in the next filter's `apply` on that slot |
| `Engine.RunAppend` | lib/filterman.rb:14-20 | running one list to the end and then a second one equals running their concatenation |
| `Engine.RunCons` | lib/filterman.rb:14-20 | the first filter sees the slot's prior value, and the rest of the run starts from its result; if it raises, the slot keeps its prior value |
| `Engine.RunTwo` | lib/filterman.rb:14-19 | filters A then B yield B's `apply` of A's result |
| `Engine.RunAllBlank` | lib/filterman.rb:14-19 | when every filter's parameter is missing or blank, the slot value is unchanged |
| `Engine.SlotNameValid` | lib/filterman.rb:11-18 | the slot name `"@" + (on or controller name)` is accepted by `instance_variable_get`/`set` exactly when that name is an identifier |
| `Engine.ValidIvarName` | lib/filterman.rb:16-18 | an accepted instance-variable name starts with `@` and has at least one more character; `@@...` and `@` followed by a digit are refused |
| `Engine.Read` | lib/filterman.rb:18 | `instance_variable_get`: an instance variable never assigned reads as nil, an assigned one as its value |
| `Engine.Host.ApplyFilters` | lib/filterman.rb:10-21 | memoises the class's list. An empty list changes no slot. An invalid slot name raises NameError. Otherwise the exception raised is the run's, and only the named slot changes: to the run's final value, if at least one filter returned |

## Left out

- The `included`/`extend` mixin hook: `Host` holds its class's `FilterRegistry` explicitly.
- Reading parameters through `send(from)`: `Host.ApplyFilters` takes the parameter map as an argument. A `from` naming no method, or a
  parameter source that is not a hash, is not modelled.
- `controller_name`: a constant field of `Host`.
- `collection.send(scope, value)`: a function parameter (`Sender`), because the collection's methods are not visible. Whatever it
  returns or raises is passed on unchanged.
- The `query:` callable: a Dafny function value, because its body is code outside the gem. Whatever it raises propagates.
- ActiveRecord `where` beyond equality: an array value becoming `IN`, a hash value becoming a table condition, and query
  laziness. `where` is an equality filter over a sequence of records.
- ActiveRecord type casting in `where`: a string parameter `"5"` matches an integer column holding 5. `Matches` compares values
  exactly, so the model does not match them.
- ActiveSupport `blank?` for values other than nil, booleans, integers, strings, arrays and hashes, for example symbols or
  objects defining `empty?`. Floats and other numbers are not modelled.
- Indifferent access: symbol and string parameter keys are not told apart; keys are strings.
- `Registry.FilterRegistry.Filters`: returns the list as a value. The Ruby method returns the same `Array` object every time, so
  a caller that keeps it sees later appends. The model does not capture that aliasing.
- Ruby's keyword hash cannot hold the same complex name twice. `AvailableFilters` takes a sequence of pairs and admits repeats.
- Registry.FilterRegistry.AvailableFilters: does not model malformed options. Every option value is a well-formed `Options`
  record. In Ruby, `Filter.new(name, **options)` raises TypeError for a non-hash value such as `b: :admins`. The filters that
  lines 25-26 appended before that point stay in the class's list, and this partial append is not modelled.
- Filters.Apply: does not model a `scope:` that is neither a String nor a Symbol, which makes `send` raise TypeError. It also
  does not model a `query:` without `call`, which raises NoMethodError. `Options` holds only a scope name and a Dafny
  function.
- `Engine.ValidIvarName`: follows Ruby's identifier rule. Every non-ASCII character counts as an identifier character, whatever
  the string's encoding.
- The return value of `apply_filters!` (the filter array that `each` returns) is not modelled.
- Concurrent first declarations racing on the class-level `@filters` cache.
- `filterman/version`: only metadata.
