# hash_op in Dafny

A model of the Ruby library `hash_op`. The library is a set of small, pure
operations over nested Hashes, the shape JSON payloads take once they are
parsed. At its centre is a path-addressed deep-access engine:

- `HashOp::Deep.fetch` reads the value at a dotted path such as `'a.b.c'` or
  `:'a.b.c'`, or at an explicit Array of segments.
- `HashOp::Deep.merge` rebuilds a Hash with a value written at a path. It
  fans out over any Arrays met on the way and builds any branches that are
  missing.
- `HashOp::Deep.paths` lists the key paths of the leaves of a Hash.
- `HashOp::DeepAccess` is a near-copy of `fetch` and `merge`.

On top of the engine sit:

- the declarative mapper `HashOp::Mapping`;
- criteria filtering (`HashOp::Filter`);
- grouping on the value at a path (`HashOp::Grouping`);
- flat and grouped merging (`HashOp::Merge`);
- per-Hash reads (`HashOp::Read`);
- sums, minimum and maximum (`HashOp::Math`).

Ruby's values become one recursive datatype, `Values.Value`. It has `nil`,
booleans, Integers, Strings, Symbols, Times, Hashes and Arrays. A Hash is an
insertion-ordered association list (`seq<Entry>`), matching Ruby's ordered
Hash. A Symbol key `:a` and a String key `'a'` are different keys, as they are
in Ruby. Every exception the library raises is an `Err(e)` of
`Wrappers.Result`, so each error path is an ordinary value that contracts can
describe. The two foreign calls of the mapper, `Time.parse` and regular
expression matching, are fields of a `Mapping.Env` parameter.

Modules, one per Ruby module (plus shared vocabulary):

| file | module | Ruby |
|---|---|---|
| wrappers.dfy | `Wrappers` | exceptions as `Result`, `map`'s first-failure semantics |
| seqs.dfy | `Seqs` | `Array#uniq`, subsequences, `flat_map` |
| values.dfy | `Values` | `Hash#[]`, `Hash#merge(k => v)` / `[]=` |
| path_syntax.dfy | `PathSyntax` | `String#split('.')`, String and Symbol paths |
| deep.dfy | `Deep` | `Deep` and `DeepAccess`: `fetch`, `merge`, `build_with_segments`, `paths` |
| deep_properties.dfy | `DeepProperties` | round trip, idempotence, well-formedness, meaning of `paths` |
| read.dfy | `Read` | `values_at_path` |
| filter.dfy | `Filter` | `filter`, `match?`, `filter_deep` |
| grouping.dfy | `Grouping` | `group_on_path`, `group_on_paths`, the shared grouping loop |
| merge.dfy | `HashMerge` | `flat`, `by_group` |
| mapping.dfy | `Mapping` | `apply_mapping`, `process_with_mapping_item` and its five handlers |
| math.dfy | `HashMath` | `sum`, `sum_two`, `sum_on_groups`, `sum_at_path`, `deep_min`, `deep_max` |

The model follows the code on these points:

- Fan-out into an Array element that is `nil`, a boolean or a Time, with
  segments left, raises (`NotIndexable`): these classes have no `[]` in Ruby.
  Other non-Hash elements are listed under "Left out".
- `merge` through an Array whose element is not a Hash raises: only a Hash
  has `merge`. No fresh Hash is synthesised around that element. A fresh branch is
  built only when the value bound to a segment is a scalar or missing
  (`Deep.MergeBranch`).
- A String path and a Symbol path address different keys. They are not
  collapsed into one key type (`PathSyntax.KeyDuality`).
- Data of the wrong class in the mapper raises, as Ruby does. Two examples:
  `time` on a non-String, and `array` on a scalar that is not `nil`.

## Model

| member | source | states |
|---|---|---|
| Values.Get | lib/hash_op/deep.rb:81 | `hash[key]` is `nil` for a missing key and otherwise the value of an entry with that key |
| Values.GetUnique | lib/hash_op/deep.rb:81 | in a Hash with unique keys, `hash[key]` is the value of the entry with that key |
| Values.Put | lib/hash_op/deep.rb:122 | `hash.merge(k => v)` binds `k` to `v`; the key order is kept when `k` is present, and `k` is appended otherwise |
| Values.PutOther | lib/hash_op/deep.rb:122 | `hash.merge(k => v)` leaves every other key bound to its old value |
| Values.PutKeepsOthers | lib/hash_op/deep.rb:122 | the same, for all other keys at once |
| Values.PutEntries | lib/hash_op/deep.rb:122 | every entry of the result was already in the Hash or is the new binding |
| Values.PutKeepsUnique | lib/hash_op/deep.rb:122 | rebinding keeps a Hash's keys unique |
| Values.PutKeepsWellFormed | lib/hash_op/deep.rb:122 | rebinding a well-formed value keeps a nested Hash well formed at every depth |
| Values.PutIdempotent | lib/hash_op/deep.rb:122 | binding the same value twice equals binding it once |
| Values.PutExisting | lib/hash_op/deep.rb:122 | rebinding a key to its current value gives back the same Hash |
| Values.PutPut | lib/hash_op/deep.rb:122 | a second binding of a key overrides the first |
| Values.PutAppend | lib/hash_op/deep.rb:122 | binding a missing key appends exactly one entry at the end |
| Values.Pairs | lib/hash_op/mapping.rb:112-114 | `Hash#map` over a Hash sees one `[key, value]` pair per entry, in order |
| Seqs.Dedup | lib/hash_op/deep.rb:65 | `uniq` keeps the same elements, has no duplicates and is no longer than its input |
| Seqs.DedupOrder | lib/hash_op/deep.rb:65 | `uniq` lists elements in the order of their first occurrence |
| Wrappers.Collect | lib/hash_op/read.rb:11 | `map` over outcomes succeeds iff every outcome does, and then returns every value in order |
| Wrappers.CollectFirstError | lib/hash_op/read.rb:11 | a failed `map` raises the error of its first failing outcome, after only successes |
| PathSyntax.SplitAll | lib/hash_op/deep.rb:72 | cutting at dots gives at least one piece, and no piece contains a dot |
| PathSyntax.JoinSplitAll | lib/hash_op/deep.rb:72 | joining the pieces with dots gives back the path text |
| PathSyntax.SplitAllJoin | lib/hash_op/deep.rb:72 | cutting a dot-join of dot-free pieces gives back the pieces |
| PathSyntax.DropTrailingEmpty | lib/hash_op/deep.rb:72 | the result is a prefix that ends in a non-empty piece, and only empty pieces are dropped |
| PathSyntax.Split | lib/hash_op/deep.rb:72 | `split('.')` returns dot-free segments with no trailing empty segment |
| PathSyntax.SplitJoin | lib/hash_op/deep.rb:72 | `split('.')` inverts `join('.')` when the last piece is not empty; inner empty pieces survive |
| PathSyntax.SplitEmpty | lib/hash_op/deep.rb:72 | a path splits into no segment iff it is made only of dots |
| PathSyntax.Segments | lib/hash_op/deep.rb:71-75 | a String path yields String segments and a Symbol path yields Symbol segments, with the names `split('.')` gives |
| PathSyntax.KeyDuality | lib/hash_op/deep_access.rb:45-49 | the same dotted text as a String and as a Symbol yields same-length segment lists that differ at every position |
| Deep.FetchSegments | lib/hash_op/deep.rb:78-91 | no segment returns the value; a missing key gives `nil` without raising; a scalar met with segments left is returned as found (`fetch({a: 1}, :'a.b.c') == 1`); an Array is fanned out, element `i` of the result being the fetch of element `i` with the remaining segments; a non-Hash with segments left raises |
| Deep.FetchAll | lib/hash_op/deep.rb:84-87 | the fan-out fetches every element with the remaining segments, in order and to the same length, and fails iff some element fails |
| Deep.Fetch | lib/hash_op/deep.rb:19-28 | a non-Hash root raises ArgumentError as `Deep` (a plain RuntimeError as `DeepAccess`); an empty path returns the root; any other failure is a non-Hash element met on the way |
| Deep.Build | lib/hash_op/deep.rb:126-129 | `build_with_segments` gives a chain of one-key Hashes whose value at the path is the given value |
| Deep.MergeSegments | lib/hash_op/deep.rb:101-123 | an empty path returns the value; otherwise only the first segment's binding changes, keys keep their order and a new key goes last; a single segment binds the value itself |
| Deep.MergeBranch | lib/hash_op/deep.rb:108-121 | with segments left, a Hash is merged into, an Array keeps its length, and a scalar or missing value becomes a built branch |
| Deep.MergeAll | lib/hash_op/deep.rb:112-115 | merge fan-out rewrites every element with the same value, keeping the order and length |
| Deep.Merge | lib/hash_op/deep_access.rb:31-40 | a non-Hash root raises a plain RuntimeError as `DeepAccess` (ArgumentError as `Deep`); an empty path returns the value |
| Deep.ToArray | lib/hash_op/deep.rb:62 | `Array(key)` is `[]` for `nil`, the Array itself, a Hash's `[key, value]` pairs, and the one-element list of any other key except a Time |
| Deep.HashPaths | lib/hash_op/deep.rb:55-66 | the listed paths have no duplicates |
| Deep.Paths | lib/hash_op/deep.rb:55-66 | `paths` answers iff it is given a Hash |
| DeepProperties.FetchAfterMerge | lib/hash_op/deep.rb:101-129 | after `merge` writes `x` at a path with no Array below the root, `fetch` at that path returns `x`, whether the branch existed, was a scalar or was missing |
| DeepProperties.FetchAfterMergeLast | lib/hash_op/deep.rb:119-122 | merging at a single segment and fetching it back returns the value |
| DeepProperties.FetchAfterMergeDeeper | lib/hash_op/deep.rb:108-122 | if the merged branch reads the value back, so does the merged Hash |
| DeepProperties.FetchLast | lib/hash_op/deep.rb:81-90 | fetching one segment returns the value bound to it, even an Array |
| DeepProperties.MergeIntoBuilt | lib/hash_op/deep.rb:126-129 | merging a value into the branch built for it changes nothing |
| DeepProperties.MergeIdempotent | lib/hash_op/deep.rb:101-123 | merging the same value at the same path twice equals merging it once, Arrays included |
| DeepProperties.MergeBranchIdempotent | lib/hash_op/deep.rb:108-121 | the branch computation is idempotent |
| DeepProperties.MergeAllIdempotent | lib/hash_op/deep.rb:112-115 | the merge fan-out is idempotent |
| DeepProperties.BuildWellFormed | lib/hash_op/deep.rb:126-129 | a built branch around a well-formed value is well formed |
| DeepProperties.MergeKeepsWellFormed | lib/hash_op/deep.rb:101-123 | merging a well-formed value into a well-formed Hash never binds a key twice at any depth |
| DeepProperties.MergeBranchKeepsWellFormed | lib/hash_op/deep.rb:108-121 | the branch computation keeps values well formed |
| DeepProperties.MergeAllKeepsWellFormed | lib/hash_op/deep.rb:112-115 | the merge fan-out keeps Arrays well formed |
| DeepProperties.InEntryPaths | lib/hash_op/deep.rb:57-63 | an entry contributes its key followed by each path of a Hash value, or its key alone for any other value |
| DeepProperties.InHashPaths | lib/hash_op/deep.rb:55-66 | a path is listed iff its first segment is a key, and the rest is a listed path of the Hash there, or nothing for a leaf |
| DeepProperties.PathsAreLeafPaths | lib/hash_op/deep.rb:55-66 | `paths` lists exactly the key paths that walk through Hashes and end on a non-Hash value |
| DeepProperties.FetchLeafPath | lib/hash_op/deep.rb:78-91 | fetching a leaf path returns that leaf, which is not a Hash |
| DeepProperties.EnumeratedPathsResolve | lib/hash_op/deep.rb:55-66 | every path `paths` lists resolves through `fetch` to a non-Hash value |
| Read.ValuesAtPath | lib/hash_op/read.rb:10-12 | succeeds iff every fetch does; then it has the input's length, and element `i` is `Deep.fetch(hashes[i], path)`, `nil` for a missing key |
| Read.ValuesAtPathRaises | lib/hash_op/read.rb:11 | a non-Hash element makes it raise; with only Hashes, the only failure is a non-Hash met inside one |
| Read.ValuesAtPathFirstError | lib/hash_op/read.rb:11 | the error raised is that of the first Hash whose fetch raises |
| Filter.MatchAll | lib/hash_op/filter.rb:64-73 | the criteria fold is true iff every criterion's fetched value equals its expected value, and fails iff some fetch fails |
| Filter.Match | lib/hash_op/filter.rb:58-74 | a non-Hash raises ArgumentError; empty criteria match; otherwise it is the conjunction of the criteria |
| Filter.Select | lib/hash_op/filter.rb:17-21 | `filter` succeeds iff every `match?` does, and returns a subsequence of its input |
| Filter.SelectKeepsMatches | lib/hash_op/filter.rb:17-21 | everything `filter` returns matches, and each matching Hash is kept with its multiplicity, the others never |
| Filter.FilterDeep | lib/hash_op/filter.rb:34-40 | a non-Hash raises ArgumentError; a non-Array at the path raises; a result is a Hash, and the path was not empty |
| Filter.FilterDeepKeepsOthers | lib/hash_op/filter.rb:38-39 | `filter_deep` keeps the key list, and every key except the path's first segment keeps its value |
| Filter.FilterDeepRoundTrip | lib/hash_op/filter.rb:34-40 | with no Array above the path, fetching the path afterwards gives the filtered Array of the original elements |
| Filter.FilterDeepOk | lib/hash_op/filter.rb:34-40 | on a Hash with no Array above the path, `filter_deep` succeeds exactly when the path holds an Array and every element's `match?` succeeds; the write-back never fails |
| Grouping.MembersAreKeyed | lib/hash_op/grouping.rb:15 | a group's reference members are exactly the items carrying that key |
| Grouping.AddToGroup | lib/hash_op/grouping.rb:14-15 | one grouping step appends the item to its key's group, creating the group last when the key is new, and leaves the other groups alone |
| Grouping.GroupBy | lib/hash_op/grouping.rb:11-18 | group keys are the distinct keys in order of first appearance |
| Grouping.GroupByGet | lib/hash_op/grouping.rb:11-18 | each key is bound to the Array of its items in input order; any other key is `nil` |
| Grouping.GroupByPartition | lib/hash_op/grouping.rb:11-18 | the groups together hold exactly as many items as were given |
| Grouping.GroupByPlacement | lib/hash_op/grouping.rb:11-18 | every item sits in the group of its own key, and a group holds only items with that key |
| Grouping.GroupByMembersFromInput | lib/hash_op/grouping.rb:15 | every group member is one of the input items |
| Grouping.GroupOnPath | lib/hash_op/grouping.rb:11-18 | `group_on_path` succeeds iff `values_at_path` does, and groups the Hashes on those values |
| Grouping.GroupOnPathPartition | lib/hash_op/grouping.rb:11-18 | group keys are the fetched values in first-appearance order; each Hash is in its value's group, `nil` when the key is missing; the total count is preserved |
| Grouping.GroupOnPaths | lib/hash_op/grouping.rb:25-33 | one path is `group_on_path`; no path raises unless the input is empty; with several paths a result needs the first grouping to succeed |
| Grouping.GroupAll | lib/hash_op/grouping.rb:30-32 | every group is regrouped on the remaining paths under the same key, in order |
| Grouping.GroupOnPathsNested | lib/hash_op/grouping.rb:25-33 | nested grouping has the first grouping's keys, and each binds that group regrouped on the remaining paths |
| HashMerge.MergeEntries | lib/hash_op/merge.rb:8 | the keys of `a.merge(b)` are the union of both key sets, unique when `a`'s are |
| HashMerge.MergeEntriesGet | lib/hash_op/merge.rb:8 | in `a.merge(b)`, a key of `b` has `b`'s value and any other key has `a`'s |
| HashMerge.Flat | lib/hash_op/merge.rb:6-10 | `flat([])` is `{}`; `flat` succeeds iff every element is a Hash, and yields a Hash with unique keys |
| HashMerge.FlatKeys | lib/hash_op/merge.rb:6-10 | the keys of `flat` are the union of the inputs' keys |
| HashMerge.FlatGetLast | lib/hash_op/merge.rb:8 | a key of the last Hash gets that Hash's value |
| HashMerge.FlatGetOther | lib/hash_op/merge.rb:8 | a key the last Hash lacks keeps its value from the earlier Hashes |
| HashMerge.FlatGet | lib/hash_op/merge.rb:6-10 | each key takes its value from the last Hash that has it |
| HashMerge.FlatCommonValue | lib/hash_op/merge.rb:6-10 | if every Hash gives a key the same value, so does `flat` |
| HashMerge.KeyValues | lib/hash_op/merge.rb:16 | `h[key]` is read from every element, in order, and fails iff some element is not a Hash |
| HashMerge.FlatGroups | lib/hash_op/merge.rb:17 | `flat` of every group, in group order; it fails iff some group's `flat` fails |
| HashMerge.ByGroup | lib/hash_op/merge.rb:15-18 | succeeds iff every element is a Hash, giving one output per distinct key value |
| HashMerge.ByGroupOutputs | lib/hash_op/merge.rb:15-18 | output `j` is `flat` of the group of the `j`-th distinct value, and holds that value at the key |
| Mapping.MapOne | lib/hash_op/mapping.rb:53-57 | an item without `:path` raises, and a non-Hash source raises RuntimeError |
| Mapping.ApplyMapping | lib/hash_op/mapping.rb:51-61 | a successful `apply_mapping` returns a Hash |
| Mapping.Inject | lib/hash_op/mapping.rb:52-60 | a successful run of the `inject` loop returns a Hash |
| Mapping.InjectOk | lib/hash_op/mapping.rb:51-61 | the loop succeeds iff every remaining outcome does |
| Mapping.InjectRaises | lib/hash_op/mapping.rb:51-61 | the loop raises the error of the first failed outcome |
| Mapping.PutNextKey | lib/hash_op/mapping.rb:58 | binding the next of distinct keys extends the bound keys by that key |
| Mapping.InjectKeys | lib/hash_op/mapping.rb:51-61 | with distinct keys, the result has exactly the keys, in order |
| Mapping.InjectOthers | lib/hash_op/mapping.rb:58 | the loop leaves alone every key it does not bind |
| Mapping.InjectValue | lib/hash_op/mapping.rb:58 | with distinct keys, each key is bound to the value of its own outcome |
| Mapping.Process | lib/hash_op/mapping.rb:64-67 | the dispatch: type defaults to raw, and raw returns the value unchanged; `mapped_hash`, `parseable_string` and `array` map `nil` to `{}`, `{}` and `[]`, raise for a missing sub-mapping only on non-`nil` values, and otherwise recurse; `array` maps an Array element by element and a Hash pair by pair (`[key, value]`), keeping length and order, and raises on any other non-`nil` value |
| Mapping.ProcessTime | lib/hash_op/mapping.rb:75-82 | `nil` stays `nil`; an unparseable String becomes `nil` without raising; a parsed String becomes its Time |
| Mapping.ProcessAll | lib/hash_op/mapping.rb:112-114 | the element-wise map keeps length and order, processes each element with the item mapping, and fails iff some element does |
| Mapping.ParseString | lib/hash_op/mapping.rb:94-105 | a successful `parseable_string` returns a Hash |
| Mapping.ParseOne | lib/hash_op/mapping.rb:99-102 | an entry without `:regexp` raises; a value that is neither a String nor a Symbol raises; otherwise, matching the String or the Symbol's name, no match gives `nil` and a match processes capture group 1 with the entry's own type |
| Mapping.ApplyMappingOk | lib/hash_op/mapping.rb:51-61 | `apply_mapping` succeeds iff every item maps, so an item without `:path` anywhere makes it raise |
| Mapping.ApplyMappingRaises | lib/hash_op/mapping.rb:55-57 | `apply_mapping` raises the error of the first item that raises |
| Mapping.ApplyMappingContents | lib/hash_op/mapping.rb:51-61 | the result has exactly the mapping's keys in order, even when a value is `nil` or missing, and each is bound to its item's processed value |
| Mapping.ParseStringOk | lib/hash_op/mapping.rb:94-105 | `parseable_string` succeeds iff every entry does, so an entry without `:regexp` makes it raise |
| Mapping.ParseStringContents | lib/hash_op/mapping.rb:98-104 | the result has exactly the parsing entries' keys, each bound to that entry's outcome (`nil` when there is no match) |
| HashMath.Add | lib/hash_op/math.rb:25 | `+` on an Integer succeeds iff the other operand is an Integer, and then is their sum; `nil`, booleans, Symbols and Hashes cannot be added to |
| HashMath.SumInto | lib/hash_op/math.rb:23-29 | the `each` loop keeps keys unique |
| HashMath.SumTwo | lib/hash_op/math.rb:22-31 | a non-Hash `hash_b` raises; an empty `hash_b` returns `hash_a` unchanged; a non-Hash `hash_a` raises once there is a key to add |
| HashMath.SumIntoKeys | lib/hash_op/math.rb:23-29 | the keys of the sum are laid out as those of `hash_a.merge(hash_b)` |
| HashMath.SumIntoGet | lib/hash_op/math.rb:24-28 | a shared key with a truthy value gets the sum; a key of `hash_b` with a falsy value in `hash_a` gets `hash_b`'s value; other keys keep `hash_a`'s |
| HashMath.SumIntoOk | lib/hash_op/math.rb:23-29 | the loop succeeds iff every shared key with a truthy value holds values that can be added |
| HashMath.FreshHead | lib/hash_op/math.rb:26-27 | a first key that `hash_a` lacks is appended |
| HashMath.SumIntoFresh | lib/hash_op/math.rb:23-29 | summing Hashes with no shared keys appends `hash_b`'s entries in order |
| HashMath.SumTwoContents | lib/hash_op/math.rb:22-31 | `sum_two` on Hashes: keys are the union in merge order; shared keys are added, keys only in `b` are copied, keys only in `a` are kept |
| HashMath.SumTwoOk | lib/hash_op/math.rb:22-31 | `sum_two` on Hashes raises iff a shared key with a truthy value holds values that cannot be added |
| HashMath.SumTwoEmptyLeft | lib/hash_op/math.rb:22-31 | `{}` is a left identity of `sum_two` |
| HashMath.FlattenValue | lib/hash_op/math.rb:11 | flattening leaves no Array, and a non-Array stays itself |
| HashMath.FlattenFrom | lib/hash_op/math.rb:11 | flattening part of an Array leaves no Array |
| HashMath.Flatten | lib/hash_op/math.rb:11 | `flatten!` leaves no Array among the arguments |
| HashMath.FlattenFromFlat | lib/hash_op/math.rb:11 | an Array without nested Arrays flattens to its own items |
| HashMath.FlattenFlat | lib/hash_op/math.rb:11 | arguments without Arrays are already flat, so `flatten!` is idempotent |
| HashMath.Sum | lib/hash_op/math.rb:10-19 | `sum` of no argument is `{}` and of one argument is that argument |
| HashMath.SumRecurses | lib/hash_op/math.rb:17 | with three or more arguments, `sum` equals `sum` of the first two's `sum_two` followed by the rest |
| HashMath.SumFlatIsFold | lib/hash_op/math.rb:12-18 | on flat arguments, the recursion is the left fold of `sum_two` |
| HashMath.SumIsFold | lib/hash_op/math.rb:10-19 | `sum` is the left fold of `sum_two` over the flattened arguments |
| HashMath.SumFromEmpty | lib/hash_op/math.rb:10-19 | starting the fold from `{}` gives the same `sum` when the first argument is a Hash |
| HashMath.AddFold | lib/hash_op/math.rb:61 | the running `+=` of a group's Integer values is their sum |
| HashMath.WorkStep | lib/hash_op/math.rb:54-64 | one turn of the `inject` keeps every group entry a Hash |
| HashMath.SumWork | lib/hash_op/math.rb:54-64 | the `inject` succeeds only if every element is a Hash, and its work Hash holds only Hashes |
| HashMath.SumOnGroups | lib/hash_op/math.rb:53-66 | `sum_on_groups` succeeds only on Hashes and returns Hashes |
| HashMath.SumWorkKeys | lib/hash_op/math.rb:54-65 | the work Hash has one key per distinct group value, in order of first appearance |
| HashMath.WorkStepOther | lib/hash_op/math.rb:55-63 | one turn leaves the other groups' sums alone |
| HashMath.WorkStepNew | lib/hash_op/math.rb:55-59 | a new group value starts its group as `{group_key => g, value_key => v}` |
| HashMath.WorkStepSeen | lib/hash_op/math.rb:60-61 | a group value seen before adds the new value to the group's sum |
| HashMath.SumWorkGroup | lib/hash_op/math.rb:54-64 | each group value is bound to `{group_key => k, value_key => s}`, where `s` is the running `+=` over its members in input order |
| HashMath.SumOnGroupsOutputs | lib/hash_op/math.rb:53-66 | one output per distinct group value in first-appearance order; output `j` holds only the group key and the group's sum |
| HashMath.SumWorkOk | lib/hash_op/math.rb:54-64 | the `inject` never raises on Hashes whose values at `value_key` are Integers, and every group's running sum stays an Integer |
| HashMath.SumOnGroupsOk | lib/hash_op/math.rb:53-66 | `sum_on_groups` succeeds on Hashes whose values at `value_key` are Integers, and each Hash it returns holds an Integer sum |
| HashMath.SumFetched | lib/hash_op/math.rb:78-81 | from Integers, a successful sum is an Integer |
| HashMath.SumAtPath | lib/hash_op/math.rb:77-82 | no Hash gives `zero`; an Integer `zero` gives an Integer result |
| HashMath.SumFetchedTotal | lib/hash_op/math.rb:78-81 | the running sum succeeds iff every fetch succeeds and every coerced value is an Integer, and is then the start plus their total |
| HashMath.SumAtPathTotal | lib/hash_op/math.rb:77-82 | `sum_at_path` is `zero` plus every fetched value, with `nil` and `false` counted as `zero`, and succeeds exactly when that sum exists |
| HashMath.IntMin | lib/hash_op/math.rb:88 | the minimum is one of the Integers and no larger than any |
| HashMath.IntMax | lib/hash_op/math.rb:95 | the maximum is one of the Integers and no smaller than any |
| HashMath.Extreme | lib/hash_op/math.rb:88 | `min`/`max` is `nil` on no element and the shared value when all elements are equal (`[nil, nil].min` is `nil`); on Integers it is the least or greatest element; anything else raises in the model |
| HashMath.DeepMin | lib/hash_op/math.rb:87-89 | `deep_min` is `nil` on no Hash and the shared value when all fetched values are equal; otherwise it is one of the fetched values, no larger than any when they are Integers |
| HashMath.DeepMax | lib/hash_op/math.rb:94-96 | `deep_max` is `nil` on no Hash and the shared value when all fetched values are equal; otherwise it is one of the fetched values, no smaller than any when they are Integers |
| HashMath.ExtremeOfMissing | lib/hash_op/math.rb:87-96 | a path whose first segment no Hash has gives `nil` for both `deep_min` and `deep_max`, not an error |

## Left out

- `Time.parse` and regular-expression matching are foreign calls. They are the
  functions `parseTime` and `matchRegexp` of `Mapping.Env`. An invalid regular
  expression (`RegexpError`) is not modelled.
- `process_with_mapping_item` dispatches with `send` on the type name. The model
  uses the closed `Mapping.Kind`, so the NoMethodError for an unknown type
  cannot arise.
- Mapping.ApplyMapping and Mapping.ParseString: both fold over outcomes computed
  up front (`MapAll`, `ParseAll`). This is equivalent to the Ruby loops because
  each outcome is pure and the fold stops at the first failure. The contents
  lemmas need the mapping's keys to be distinct; a Ruby Hash literal's keys
  are distinct by construction.
- `String#[]`, `Integer#[]`, `Array#[]` and `Symbol#[]` reached by a fan-out
  over non-Hash elements are not modelled. In Ruby they take substrings, bits,
  elements and substrings of the name, so `fetch({a: [[1, 2]]}, [:a, 0])` is
  `[1]` and `fetch({'a' => [:xy]}, 'a.x')` is `["x"]`. Any non-Hash element
  with segments left is `NotIndexable` in the model instead. The same goes for indexing a
  non-Hash `hash_a` in `sum_two` and a non-Hash element in `by_group` and
  `sum_on_groups`.
- Invalid path classes (`Invalid attribute`) cannot be written with the typed
  `PathSyntax.Path`. The one case left is `group_on_paths` with no path, which
  is `InvalidPath`.
- `Deep.paths` on a non-Hash: Ruby's `each` on other classes is not modelled;
  `Deep.Paths` returns an error there.
- Ruby's `Hash#==` ignores key order; the model compares Hashes as ordered
  lists. Results are built in Ruby's own insertion order, so the contracts
  state the exact order.
- HashMath.Add: models `+` for Integers, Strings, Arrays and Time plus Integer
  only. Floats, Rationals and other numeric classes are outside the value
  model.
- HashMath.SumTwo: is stated on a fresh result. Ruby mutates `hash_a` in place,
  and callers holding it see the change; this aliasing is not modelled.
- HashMath.SumTwo: an Array of pairs as `hash_b` (which `each` destructures) is
  treated as an error. It cannot arise inside `sum`, which flattens every Array.
- HashMath.Extreme: values are compared only when they are all Integers or
  all equal. Ruby's `<=>` also orders Strings, Symbols, Times and Arrays of
  comparable elements among themselves; two or more such values that are not
  all equal are an error in the model.
- HashMath.DeepMin: inherits that limit from `HashMath.Extreme`.
- HashMath.DeepMax: inherits that limit from `HashMath.Extreme`.
- Filter.Match: only equality criteria. Proc and Regexp matching objects are
  foreign calls and are left out.
- Filter.MatchAll: `uniq == [true]` over the per-criterion results is modelled
  as a conjunction. This is equivalent for boolean results, the only kind
  equality criteria produce.
- Deep.ToArray: `Array(time)` is `Time#to_a` in Ruby, the ten calendar fields
  of the Time; the model has no calendar and keeps a Time key whole, and its
  contract says nothing about a Time key.
- DeepProperties.InEntryPaths: stated for keys other than `nil`, Arrays,
  Hashes and Times (`PlainKey`); a Time leaf key's path is its `to_a` fields
  in Ruby, which are not modelled.
- DeepProperties.InHashPaths: stated under `PlainKeys`, so Hashes with a Time
  key at any level are not covered, for the same reason.
- DeepProperties.PathsAreLeafPaths: stated under `PlainKeys`; a Time leaf key
  gives Ruby a path of calendar fields, which is not a leaf path.
- DeepProperties.EnumeratedPathsResolve: stated under `PlainKeys`, for the
  same reason.
- HashMath.Sum / HashMath.SumIsFold: the fold assumes no Hash object is passed
  twice. Ruby's `sum_two` adds into `hash_a` in place, so when the first Hash
  recurs later its already-summed contents are added again: `sum(h, h, h)` is
  4×`h` in Ruby and 3×`h` in the model, and `sum(a, b, a)` is `2a + 2b` in
  Ruby and `2a + b` in the model.
- Values.Value: a Time is `TimeVal(stamp)`, whole seconds since the epoch,
  with no sub-second part and no zone. Two Times within the same second are
  equal in the model, so they share a group in `Grouping.GroupBy` and
  `HashMath.SumWork` and match each other in `Filter`, where Ruby tells them
  apart. `Time + Integer` keeps no zone either.
- ActiveSupport helpers (`in?`, `blank?`, `present?`) are used with their plain
  meaning. The require loader in `lib/hash_op.rb` is not part of this model.
