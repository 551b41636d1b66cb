# simplevalidator in Dafny

simplevalidator is a request-argument validation layer for Flask that sits on
colander. A schema class declares fields. A metaclass collects and orders
those fields. A mapping strategy then runs every field's coercion over the
incoming query, form, JSON body or keyword arguments, and gathers all field
errors into one error. A few field adapters turn raw strings into richer
values:
- comma-separated lists;
- one-of choices;
- bounded integers;
- a pagination range read from several query keys.

This project models the parts of `validator.py` that hold logic of their own,
and proves what they promise:

- `schema.dfy`, module `Schema`: the `_SchemaMeta` metaclass. Named fields
  are detached from the class body. Each class's own fields are sorted by
  their creation counter `_order`. The node lists along the MRO are joined
  from the most distant ancestor down to the class. `SchemaClass` is the
  class object whose attributes the metaclass rewrites.
- `toplevel.dfy`, module `TopLevelMapping`: `TopLevelMapping._impl`, as a
  method with a loop over the children, a working mapping it pops keys from,
  a result mapping and an error accumulator. It is proved equal to a
  closed-form specification, and the source's promises are lemmas about that
  specification.
- `csv.dfy`, module `CsvArray`: `CSVArray.deserialize` and `serialize`,
  with `str.split`, `str.strip` and `str.join` written out.
- `range.dfy`, module `RangeType`: `maybe_int` and `RangeType.deserialize`.
  The datatype `RangeInfo` stands in for the source's `RangeInfo` and
  `PageBasedRangeInfo`.
- `validators.dfy`, module `Validators`: `enum` and `intrange`.
- `decorators.dfy`, module `Decorators`: what the decorator wrappers do with
  a validation result. They turn an error into `BadParams`, and merge the
  cleaned values with the handler's keyword arguments in the two orders
  the source uses.
- `wrappers.dfy`, module `Wrappers`: `Option` and `Result`.

The following are parameters of the model, not part of it:
- Python's `int(str)` is a parameter `parse: string -> Option<int>`, where
  `None` stands for a `ValueError`.
- A child field's coercion is a parameter `callback`.
- colander's integer coercion is a parameter `toInt`.
- The inner field of a CSV list is a pair `inner`/`outer`.
- `Invalid.asdict` is a parameter `asdict`.

`colander.null` is `None` or `Absent`.

`maybe_int` returns its default 0 for a non-numeric `_limit`, so a
malformed `_limit` is a limit of 0, not no limit
(`RangeType.MalformedFallsBack`).

## Model

| member | source | states |
|---|---|---|
| `RangeType.Get` | validator.py:269 | `data.get(key)` is present exactly when the key is, and then holds the key's value |
| `RangeType.MaybeInt` | validator.py:258-265 | `None` stays `None`; a present string yields its integer, or the default when it is not one, never `None` |
| `RangeType.Deserialize` | validator.py:268-288 | the result is page-based exactly when `_page` is present; the page is at least 1, the offset at least 0, and the limit absent or non-negative; the limit is absent exactly when `_limit` is missing or parses to a negative number |
| `RangeType.PageTakesPrecedence` | validator.py:269-288 | a present `_page` decides alone: page = max(1, parsed page, or 0 when malformed), and `_offset`, `_skip` and `_limit` are ignored |
| `RangeType.OffsetFallback` | validator.py:271-277 | without `_page` the offset comes from `_offset`, from `_skip` only when `_offset` is absent, and is 0 when both are absent or the number is negative; `_skip` is irrelevant whenever `_offset` is present |
| `RangeType.LimitRule` | validator.py:279-281 | the limit is none when `_limit` is absent or negative, 0 when malformed, the parsed number otherwise |
| `RangeType.MalformedFallsBack` | validator.py:258-281 | malformed numbers never fail: page 1, offset 0 without consulting `_skip`, limit 0 |
| `CsvArray.Split` | validator.py:253 | `s.split(",")` yields at least one piece and no piece holds the separator; `JoinSplit`, `SplitJoin` and `SplitLength` pin it down as Python's split |
| `CsvArray.Join` | validator.py:244 | `",".join(pieces)`; `JoinSplit` and `SplitJoin` prove it is the inverse of `Split` on comma-free pieces |
| `CsvArray.Strip` | validator.py:253 | `x.strip()`; `StripShape` characterises it as the slice left after removing leading and trailing whitespace, and `StripEmpty` says when it is empty |
| `CsvArray.Keep` | validator.py:253-254 | the `if x` filter over the stripped pieces keeps at most one value per piece; `KeepShape` proves each kept value non-empty and trimmed |
| `CsvArray.Segments` | validator.py:253-254 | the texts handed to the inner field; `SegmentsShape`, `NoSegments` and `ExampleList` prove their shape, their count and an example |
| `CsvArray.JoinSplit` | validator.py:253 | joining the pieces of `s.split(",")` with `","` gives `s` back |
| `CsvArray.SplitJoin` | validator.py:253 | splitting a join of comma-free pieces gives the pieces back |
| `CsvArray.SplitLength` | validator.py:253 | `split` yields one piece more than the string has separators |
| `CsvArray.StripShape` | validator.py:253 | `strip()` returns the slice of its input left after removing leading and trailing whitespace: the removed parts are all whitespace and the result has none at either end |
| `CsvArray.StripEmpty` | validator.py:254 | a piece strips to the empty string, and is dropped, exactly when it is all whitespace |
| `CsvArray.KeepShape` | validator.py:253-254 | every kept piece is non-empty and has no surrounding whitespace |
| `CsvArray.SegmentsShape` | validator.py:253-254 | every segment handed to the inner field is non-empty, comma-free and has no surrounding whitespace, and there are at most commas + 1 segments |
| `CsvArray.NoSegments` | validator.py:253-254 | a string of only commas and whitespace yields no segments |
| `CsvArray.DeserializeAll` | validator.py:254 | on success one value per segment, each the inner coercion of the segment at the same position; on failure the error of the first segment whose coercion fails |
| `CsvArray.Deserialize` | validator.py:246-254 | null gives null, a non-string fails with "not a string", a string fails exactly when some segment's inner coercion fails, and otherwise yields the inner values of its segments in order |
| `CsvArray.Serialize` | validator.py:237-244 | null serialises to null, the empty list to the empty string, and a non-empty list to text that `split(",")` takes apart into the elements' serialisations when none of them holds a comma |
| `CsvArray.RoundTrip` | validator.py:237-254 | deserialising what `serialize` wrote gives the list back, when the inner field round-trips each element through comma-free, whitespace-trimmed, non-empty text |
| `CsvArray.ExampleList` | validator.py:253-254 | `"1, 2,3"` reaches the inner field as `"1"`, `"2"`, `"3"` |
| `CsvArray.ExampleEmpty` | validator.py:253-254 | `""` and `" , ,"` give the empty list |
| `Schema.Declared` | validator.py:44-52 | the loop collects at most one node per class attribute; `DeclaredAt`, `DeclaredNamed` and `DeclaredPartition` prove which nodes and under which names |
| `Schema.Remaining` | validator.py:44-46 | the `delattr` calls leave at most the class's attributes; `DeclaredPartition` proves exactly the plain ones remain |
| `Schema.Named` | validator.py:47-49 | a node with no name takes its attribute name; `_name` is always the attribute name |
| `Schema.DeclaredPartition` | validator.py:44-46 | every class attribute is either detached as a node or left on the class: the counts add up, only plain attributes remain, and every plain attribute remains |
| `Schema.DeclaredAt` | validator.py:44-52 | each node attribute is collected, named after its attribute |
| `Schema.DeclaredNamed` | validator.py:44-49 | every collected node has a non-empty name and the name of a node attribute as `_name` |
| `Schema.InsertSorted` | validator.py:54 | placing a node after every node of no larger `_order` and before the first larger one keeps the list sorted and adds exactly that node |
| `Schema.InsertByOrder` | validator.py:54 | inserting into a list sorted by `_order` keeps it sorted and adds exactly that node |
| `Schema.SortByOrder` | validator.py:52-55 | the class's own nodes come out sorted by `_order` and are a permutation of the collected nodes |
| `Schema.SortedUnique` | validator.py:52-55 | with distinct `_order` values the sorted order is fully determined |
| `Schema.FromRoot` | validator.py:58-61 | the merged list, from the most distant ancestor to the class; `FromRootKeepsAll`, `AncestorsFirst` and `SubclassExtends` prove what it holds and in which order |
| `Schema.MergeMro` | validator.py:58-61 | the `reversed(__mro__)` loop yields the per-class lists joined from the most distant ancestor to the class itself |
| `Schema.FromRootKeepsAll` | validator.py:58-61 | the merged list holds every node of every class, same-named nodes included |
| `Schema.AncestorsFirst` | validator.py:58-61 | the nodes of the more distant ancestors come first, in full and in their own order |
| `Schema.SubclassExtends` | validator.py:58-61 | a subclass's own nodes follow all inherited nodes, whose order is unchanged |
| `Schema.SchemaClass.constructor` | validator.py:40-61 | after the metaclass runs, only non-node attributes remain, the class's own nodes are sorted and a permutation of its named node attributes, and the full list is the ancestors' lists followed by its own |
| `TopLevelMapping.Popped` | validator.py:19-23 | the keys popped by the first children; `PoppedNames` proves a key is popped exactly when a non-toplevel child names it |
| `TopLevelMapping.Input` | validator.py:19-23 | the value child `i` is handed; `InputRule` characterises it for toplevel and non-toplevel children |
| `TopLevelMapping.Errors` | validator.py:25-30 | the error entries after the first `n` children; `ErrorsSound`, `ErrorsOrdered`, `ErrorsComplete` and `ErrorsEmpty` prove one entry per failed child, in position order |
| `TopLevelMapping.Results` | validator.py:25-26 | the result mapping after the first `n` children; `ResultKeys` and `ResultValues` prove its keys and values |
| `TopLevelMapping.Deserialize` | validator.py:18-35 | the closed form of `_impl`; `Impl` proves the loop computes it and `FailsIffSomeChildFails` says when it fails |
| `TopLevelMapping.Pop` | validator.py:23 | `pop(name, null)` yields the key's value or null, and the mapping without the key |
| `TopLevelMapping.Step` | validator.py:19-23 | the working mapping before child `num` gives that child's input, and loses exactly the child's `name` when the child is not toplevel |
| `TopLevelMapping.Record` | validator.py:25-30 | a value is stored under the child's `_name`; an `Invalid` is appended to the error at the child's position; nothing else changes |
| `TopLevelMapping.Visit` | validator.py:19-30 | one loop turn advances the working mapping, the result and the error from their state after `num` children to their state after `num + 1`, calling the coercion once with child `num`'s input |
| `TopLevelMapping.TraceAt` | validator.py:18-25 | the sequence of coercion calls holds one call per child, in declared order, each with that child's input |
| `TopLevelMapping.Impl` | validator.py:13-35 | the pass equals `TopLevelMapping.Deserialize`, and calls the coercion exactly once per child, in declared order, with that child's input |
| `TopLevelMapping.FailsIffSomeChildFails` | validator.py:18-35 | the pass fails exactly when some child's coercion fails, the error then holding the per-child entries, and otherwise returns the result mapping |
| `TopLevelMapping.PoppedNames` | validator.py:19-23 | a key is popped exactly when some non-toplevel child names it |
| `TopLevelMapping.InputRule` | validator.py:19-23 | a non-toplevel child gets its key's value when the key is present and no earlier child popped it, and null otherwise; a toplevel child gets every key no earlier child popped |
| `TopLevelMapping.ErrorsSound` | validator.py:25-30 | every error entry is a failed child's error, tagged with that child's position |
| `TopLevelMapping.ErrorsOrdered` | validator.py:18-30 | entry positions strictly increase, so no child has two entries |
| `TopLevelMapping.ErrorsComplete` | validator.py:18-30 | every failed child has an entry, including those after the first failure |
| `TopLevelMapping.ErrorsEmpty` | validator.py:28-33 | the aggregate error is empty exactly when every child succeeded |
| `TopLevelMapping.ResultKeys` | validator.py:25-26 | the result's keys are exactly the `_name`s of the successful children |
| `TopLevelMapping.ResultValues` | validator.py:26 | a successful child's value is stored under its `_name` unless a later successful child has the same `_name` |
| `TopLevelMapping.OneEntryPerChild` | validator.py:18-35 | when every child succeeds and the `_name`s are distinct, the result has one entry per child holding that child's value |
| `TopLevelMapping.LeftoverKeysIgnored` | validator.py:18-35 | with no toplevel child, a key no child names does not change the outcome |
| `TopLevelMapping.MissingAndInvalid` | validator.py:18-33 | fields a, b, c with b missing and c invalid give one error holding both failures, at positions 1 and 2 |
| `Validators.EnumDeserialize` | validator.py:296-303 | null passes unchecked; a value is accepted, and returned unchanged, exactly when it is one of the choices |
| `Validators.EnumAB` | validator.py:296-303 | `enum("a", "b")` accepts `"a"` and rejects `"c"` |
| `Validators.IntRangeDeserialize` | validator.py:306-314 | a coercion failure propagates, null passes unchecked, and an integer is accepted, unchanged, exactly when it is within the inclusive bounds, where an absent bound does not restrict; the minimum is checked first |
| `Validators.IntRangeOneToFive` | validator.py:306-314 | `intrange(1, 5)` accepts 3 and rejects 0 and 6 |
| `Decorators.Validate` | validator.py:123-127 | success passes the cleaned mapping on; an `Invalid` becomes `BadParams` holding its `asdict()` |
| `Decorators.CallerWins` | validator.py:137 | the merged arguments hold every key of both sides, and the caller's keyword arguments override the cleaned values |
| `Decorators.CleanWins` | validator.py:182 | the merged arguments hold every key of both sides, and the cleaned values override the caller's keyword arguments |
| `Decorators.MergeOrdersAgree` | validator.py:135-183 | the two merge orders give the same keys, and differ exactly on the shared keys whose values differ |
| `Decorators.RequestCall` | validator.py:135-138 | a `_make_validator` wrapper fails with `BadParams` exactly when validation fails, and otherwise passes the cleaned values overridden by its keyword arguments |
| `Decorators.RouteCall` | validator.py:180-183 | an `rparams` wrapper validates its own keyword arguments and passes them on with the cleaned values replacing them |

## Left out

- Schema.SortByOrder: nodes with equal `_order` keep their arrival order. Python breaks such ties by comparing the node objects, which the model does not capture. colander gives every node its own `_order`, so ties do not arise, and `Schema.SortedUnique` shows the order is then fully determined.
- Schema.SchemaClass.constructor: the MRO is a parameter, the list of schema classes after the class itself, nearest first. Computing it (C3 linearisation) is not modelled. Non-schema classes in the MRO contribute no nodes, so they are left out of the list.
- Schema.SchemaClass.constructor: the class body is a sequence of (attribute, value) pairs in the order the body's dictionary yields them. That order is arbitrary in Python 2; the sort removes it.
- Schema.Named: nodes are values. In the source, the metaclass renames the node object itself, so one node object bound to two attributes would be renamed twice. The model does not capture that aliasing.
- Default titles (`name.replace('_', ' ').title()`, validator.py:50-51) follow Unicode case rules and are not modelled.
- TopLevelMapping.Impl: the input is already a mapping. colander's `Mapping._validate`, which rejects a non-mapping and copies the input, is not modelled.
- TopLevelMapping.Impl: a toplevel child receives a snapshot of the working mapping. In the source it receives the working dict itself, so a coercion that kept it would see later children's pops.
- CsvArray.IsSpace: whitespace is Python 2 `str` whitespace (space, tab, newline, carriage return, vertical tab, form feed). Unicode whitespace for `unicode` input is not modelled.
- CsvArray.Serialize: the inner field's serialisation is a parameter `outer` that always yields text. A node whose serialisation yields null is not modelled. The input is typed as a list, so the `Invalid` raised for a non-list (validator.py:240-241) is not modelled.
- Python's `int(str)` (accepted signs, surrounding whitespace, bases) is the parameter `parse`. A non-string value reaching `maybe_int`, where `int` could raise `TypeError`, is not modelled: query values are strings.
- colander's `Integer`, `String` and `Boolean` coercions, `Invalid.asdict` and message translation are parameters or left out. So are the `String` adapter, `_get_type`, `_get_node`, `Arg`, `opt` and `make_schema` (validator.py:75-121, 145-150, 190-206). They adapt colander's type hierarchy and do text conversion.
- `query_string`, `form`, `params` and `jsonbody` read Flask's request object (validator.py:153-172). The model takes the fetched mapping as a parameter. A JSON-body parse failure raising `BadParams("Json required")` is not modelled.
- `JSONArray` (validator.py:209-230) relies on a JSON parser outside this code and is not modelled.
- `BadParams`, `RangeInfo`, `PageBasedRangeInfo` and `json` are not imported in the source (validator.py:2-9), so those paths would fail with `NameError`. The model gives the data they were meant to carry.
