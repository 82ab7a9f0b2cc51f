# task_diff, modelled in Dafny

`task_diff` compares two JSON documents, usually two revisions of a task
definition, and prints the difference as indented lines. Each line carries
a marker: `+` added, `-` removed, `~` changed, `.` a structural bracket.
This project models the core of the program and proves properties of it:

- the diff engine (`src/parser.rs`);
- its line record (`src/line.rs`);
- the positional zip (`src/util.rs`);
- the input normaliser and splitter (`src/pair.rs`);
- the earlier flat, sorted differ (`src/lib.rs`).

JSON values are a datatype:

- `Null`, `Bool`, `Number` (an `int`), `String`, and `Array` (a sequence);
- `Object`, an association list of members.

Lookup (`Get`) finds the first binding. `Without` drops every binding of a
key, as `Map::remove` does on a map with unique keys. `Insert` replaces a
binding where it stands or appends a new one. Deep equality (`JsonEq`)
follows serde_json's: objects are equal when they have the same number of
members and every key of one is found in the other with an equal value, in
any order. The `{}` formatting of values is `Text`, a compact serialiser
without string escaping.

Form of each module:

| module | file | form |
|---|---|---|
| `Parser` | parser.dfy | The spec functions are `Diff`, `ObjectDiff`, `ArrayDiff` and `KeyLines`, one per arm of the source's matches. `DiffObj` and `MemberLines` are methods that mirror `diff_obj`'s clone, remove and push loop. Each method is proved equal to its spec function. |
| `Lines` | line.dfy | `Wrap` mirrors the `for`/`push` loop and is proved equal to `Wrapped`. |
| `Util` | util.dfy | `ZipToEnd` mirrors the `loop` over two iterators and is proved equal to `Zip`. |
| `Pairing` | pair.dfy | `ReplaceInTree` and `ParseEnvironment` mirror the source's loops and early exits. They are proved equal to `Replaced` and `EnvironmentOf`. The JSON text parser is a parameter. |
| `Legacy` | lib.dfy | `Diff` is a method: the map/filter chain, the leftover loop, then the sort. Its contract is "sorted by text and a permutation of the unsorted lines". |

## Model

| member | source | states |
|---|---|---|
| Json.Get | src/parser.rs:32 | Lookup of a key. The result is absent exactly when no member has the key, and a found value is bound to the key by some member. |
| Json.Without | src/parser.rs:32 | `Map::remove`. The result has no binding of the key, holds only members of the input, and is no larger. |
| Json.Insert | src/pair.rs:45 | `Map::insert`. The length is unchanged when the key is present and grows by one otherwise. |
| Json.InsertGet | src/pair.rs:45 | After inserting, the key maps to the new value and every other key keeps its lookup. |
| Json.InsertPresent | src/pair.rs:45 | On unique keys with the key present, the binding is replaced in place. Every other member stays at its index. |
| Json.InsertAbsent | src/pair.rs:45 | An absent key is appended at the end, in the model's member order. |
| Json.InsertUnique | src/pair.rs:64-67 | Inserting keeps keys unique. |
| Json.GetWithout | src/parser.rs:32 | Removing one key does not change the lookup of any other key. |
| Json.Unmatched | src/parser.rs:48-50 | The members of b whose key a lacks: each one is a member of b, and its key is not a's. |
| Json.UnmatchedWithout | src/parser.rs:32-48 | Removing a's keys one by one from b's clone leaves exactly the members of b that a does not match. |
| Json.JsonEqRefl | src/parser.rs:33 | `val == bval` holds of every well-formed value against itself. |
| Json.JsonEq | src/parser.rs:33 | serde_json's `==`: values of different kinds (object, array, scalar) are never equal. Reflexivity is `Json.JsonEqRefl`, and order-insensitivity is `Json.JsonEqReordered`. |
| Json.JsonEqReordered | src/parser.rs:33 | Member order does not matter. A well-formed object equals every object with as many members and the same lookup for every key. |
| Json.GetHeight | src/parser.rs:32-43 | A member's value is no more deeply nested than its object's members. |
| Lines.NewLine | src/line.rs:20-26 | `Line::new` gives depth 0 and keeps the marker and the text. |
| Lines.Render | src/line.rs:9-16 | The rendered length is `2*depth` plus the text, plus two for a non-`.` marker. The layout is `Lines.RenderLayout`. |
| Lines.RenderLayout | src/line.rs:9-16 | A rendered line starts with `2*depth` spaces. The marker and a space follow unless the marker is `.`, then the text. |
| Lines.Wrapped | src/line.rs:28-39 | `wrap`'s result has no line for an empty block, otherwise two more lines than the block. The line-by-line shape is `Lines.WrappedShape`, the markers `Lines.WrappedMarkers`, the depths `Lines.WrappedDepth`. |
| Lines.WrappedShape | src/line.rs:28-39 | Empty in, empty out. Otherwise `n+2` lines: a `.` line `name+"{"` (or `"["`), the inputs in order with depth+1 and the same marker and text, then a `.` line `"}"` (or `"]"`). |
| Lines.WrappedMarkers | src/line.rs:31-36 | Wrapping adds only `.` lines. |
| Lines.WrappedDepth | src/line.rs:31-36 | Wrapping adds exactly one level: depths below `h` become depths below `h+1`. |
| Lines.Wrap | src/line.rs:28-39 | The push loop gives exactly `Wrapped(lines, name, kind)`. |
| Util.Zip | src/util.rs:3-16 | The length is `max(len(a), len(b))`. |
| Util.ZipAt | src/util.rs:8-13 | Pair i is `(a[i] or None, b[i] or None)`. |
| Util.ZipNoEmptyPair | src/util.rs:10-12 | No pair is `(None, None)`, so the empty arm at src/parser.rs:63 is unreachable. |
| Util.ZipUnzip | src/util.rs:8-13 | The present first components give back `a` exactly, and the second components give back `b`. |
| Util.ZipToEnd | src/util.rs:3-16 | The loop terminates and returns `Zip(a, b)`. |
| Parser.DropSentinels | src/parser.rs:46 | No `x` line remains, and a block with only visible markers stays visible. |
| Parser.DropSentinelsMembers | src/parser.rs:46 | A line is kept exactly when it is in the input and is not an `x` line. |
| Parser.DropSentinelsAppend | src/parser.rs:46 | Filtering a concatenation concatenates the filtered parts, so kept lines stay in order. |
| Parser.DropSentinelsKeepsAll | src/parser.rs:46 | A block with no `x` line is kept whole. |
| Parser.DropSentinelsDepth | src/parser.rs:46 | Filtering never deepens a line. |
| Parser.AddedLines | src/parser.rs:48-50 | One depth-0 `+` line `"k": v` per member, in order. |
| Parser.Diff | src/parser.rs:13-22 | `Ok` exactly when both inputs are objects or both are arrays. Every output line has a visible marker, and every depth is below the deeper input's nesting height. |
| Parser.ObjectDiff | src/parser.rs:28-52 | No sentinel escapes, and every depth is below one plus the members' nesting height. |
| Parser.ObjWalk | src/parser.rs:30-47 | Per-key lines with visible markers and bounded depth. |
| Parser.KeyLines | src/parser.rs:32-45 | Markers in `+-~.x`, and depths bounded by the two values' height. Each nested `diff(...).expect` is reached only on two objects or two arrays, so it is always `Ok`. |
| Parser.ArrayDiff | src/parser.rs:54-72 | Visible markers and bounded depth. The `unwrap`s on the paired elements never fail. |
| Parser.PairBlocks | src/parser.rs:58-64 | The flat_map over the zipped pairs: visible markers, bounded depth. |
| Parser.PairBlock | src/parser.rs:59-63 | One pair's block, with `{}` standing for an absent side: visible markers, bounded depth. |
| Parser.ZipHeight | src/parser.rs:57 | Zipping two arrays of objects creates no deeper value. |
| Parser.DiffObj | src/parser.rs:28-52 | The clone, remove, filter and push loops give exactly `ObjectDiff(a, b)`. |
| Parser.WalkMembers | src/parser.rs:29-47 | The clone-and-remove chain gives exactly the walk's lines and what is left of b2. |
| Parser.PushAdded | src/parser.rs:48-50 | The loop appends exactly one `+` line per member left in b2. |
| Parser.MemberLines | src/parser.rs:32-45 | The closure body gives exactly `KeyLines`. |
| Parser.ObjWalkUnique | src/parser.rs:29-48 | With unique keys in a: the walk yields each key's block looked up in b itself, and leaves b's unmatched members. |
| Parser.ObjectDiffShape | src/parser.rs:28-52 | The output is each key of a's block in a's order, then one `+` line per key of b that a lacks, in the model's order of b. The leftover `+` lines come after every line of a's keys. |
| Parser.KeyBlockCases | src/parser.rs:32-45 | Per key: one depth-0 `-` line `"k": a[k]` when b lacks k. Nothing when the values are equal. A wrapped nested diff for two objects or two arrays. Otherwise one `~` line `"k": a[k] => b[k]`. |
| Parser.DiffSelfObject | src/parser.rs:28-52 | `diff(v, v)` is `Ok([])` for every well-formed object. |
| Parser.DiffSelfObjectArray | src/parser.rs:54-64 | `diff(v, v)` is `Ok([])` for every array whose elements are all objects, `[]` included. |
| Parser.DiffSelfOpaqueArray | src/parser.rs:65-70 | An array holding a non-object gives one `~` line `text(v) => text(v)`, even against itself. |
| Parser.ZipObjectPairs | src/parser.rs:55-57 | Zipping two arrays of objects gives pairs whose present sides are all objects. |
| Parser.PairBlockPositional | src/parser.rs:59-62 | Pair i's block is the wrapped object diff of element i's members, `{}` standing for a missing element. |
| Parser.PairBlocksPositional | src/parser.rs:55-64 | From index i on, the zipped blocks are the index-by-index wrapped object diffs. |
| Parser.ArrayDiffPositional | src/parser.rs:55-64 | Arrays of objects give the concatenation over `i < max(len(a), len(b))` of `wrap(diff_obj(a[i] or {}, b[i] or {}), "", Object)`. |
| Parser.ArrayDiffOpaque | src/parser.rs:65-70 | If either array has a non-object element, the output is exactly one `~` line `text(a) => text(b)`. |
| Pairing.FirstIndex | src/pair.rs:19 | `find('"')`: absent exactly when there is no quote. Otherwise it is the index of the first quote. |
| Pairing.LastIndex | src/pair.rs:20 | `rfind('"')`: absent exactly when there is no quote. Otherwise it is the index of the last quote. |
| Pairing.Trim | src/pair.rs:18-22 | `None` exactly when the input has no `"`. Otherwise the slice from the first quote (included) to the last quote (excluded). |
| Pairing.Find | src/pair.rs:28-30 | `find(" => ")`: absent exactly when the pattern does not occur. Otherwise it is the first position where it occurs. |
| Pairing.SplitAtSeparator | src/pair.rs:28-32 | Fails exactly when there is no `" => "`. Otherwise `left + " => " + right` gives back the trimmed text. Where it splits is `Pairing.SplitAtSeparatorSpec`. |
| Pairing.SplitAtSeparatorSpec | src/pair.rs:28-32 | The split is at the first separator: one starts right after `left`, none starts anywhere before that, and `left` holds none. |
| Pairing.SplitAtSeparatorUnique | src/pair.rs:28-32 | Any `left + " => " + right` of the text with no separator starting inside `left` is the split `find` makes. |
| Pairing.TrimMatching | src/pair.rs:12 | `trim_matches` keeps at most the input. A non-empty result starts and ends with a character that does not match, and an input of matching characters only gives the empty string. |
| Pairing.TrimMatchingSpec | src/pair.rs:12 | `trim`/`trim_matches` keep a slice of the input. Everything dropped on either side matches, and a non-empty result starts and ends with a non-matching character. |
| Pairing.CleanedText | src/pair.rs:12 | `s.trim().trim_matches('"')` keeps at most the input, and a non-empty result neither starts nor ends with a double quote. |
| Pairing.CleanString | src/pair.rs:11-16 | `SyntaxError` exactly when the parser rejects the cleaned text. After a successful parse, `InvalidInput` exactly when the `environment` rewrite fails. Otherwise it returns the rewritten value. |
| Pairing.CleanStringObject | src/pair.rs:11-16 | For a parsed object with unique keys: returned unchanged without an `environment` member. With one, `InvalidInput` exactly when that member is not an array or has a malformed element. Otherwise only that member changes, to its normalised form. |
| Pairing.ReplaceInTree | src/pair.rs:37-58 | The clone/insert and the `for`/push loop with early `?` exits give exactly `Replaced`. |
| Pairing.Replaced | src/pair.rs:37-58 | The result, when there is one, has the kind of the input: object, array or other. Its cases are `Pairing.ReplacedObject`, `Pairing.ReplacedArray` and `Pairing.ReplacedScalar`. |
| Pairing.ReplacedScalar | src/pair.rs:56 | Anything but an object or an array comes back unchanged. |
| Pairing.ReplacedObject | src/pair.rs:42-48 | On an object without the key: unchanged. With the key: fails exactly when `f` fails. Otherwise the same length and keys, the key's value becomes `f(value)`, and every other member is copied verbatim. Fields are not recursed into. |
| Pairing.ReplacedArray | src/pair.rs:49-55 | Fails exactly when some element fails. Otherwise the same length, and element i is `replace_in_tree` of element i. |
| Pairing.ReplacedItemsSpec | src/pair.rs:51-53 | The loop's sequence fails exactly when some element fails. Otherwise it is pointwise. |
| Pairing.ParseEnvironment | src/pair.rs:60-70 | The loop with early exits gives exactly `EnvironmentOf`. |
| Pairing.EnvironmentOf | src/pair.rs:60-70 | On success the input was an array, and the result is an object with unique keys and no more members than the array has elements. Its failure cases are `Pairing.EnvironmentFails`, and what it binds is `Pairing.EnvironmentLastWins`. |
| Pairing.EnvEntryFails | src/pair.rs:63-66 | An element is rejected exactly when it is not an object, has no string `name`, or has no `value`. |
| Pairing.EntriesPointwise | src/pair.rs:62-67 | When collecting succeeds, entry i is element i's. |
| Pairing.EntriesFailure | src/pair.rs:62-66 | When collecting fails, some element is rejected. |
| Pairing.EntriesSpec | src/pair.rs:62-67 | Collecting entries fails exactly when some element is rejected. Otherwise it is pointwise. |
| Pairing.EnvironmentFails | src/pair.rs:60-66 | `parse_environment` fails exactly when the input is not an array or some element is malformed. |
| Pairing.LastWithSpec | src/pair.rs:64-67 | Absent exactly when no entry has the name. Otherwise it is the value of an entry with the name that no later entry shares. |
| Pairing.BuildEnvSpec | src/pair.rs:61-67 | The inserted map has unique keys, and each name is bound to its last entry's value. |
| Pairing.EnvironmentLastWins | src/pair.rs:60-70 | On success: an object with unique keys, exactly the names, each bound to the value of the last element with that name. |
| Pairing.NewPair | src/pair.rs:24-34 | A success or a `SyntaxError` only ever follows a successful trim and split. |
| Pairing.NewPairSpec | src/pair.rs:24-34 | `InvalidInput` when there is no quote or no separator. Otherwise it succeeds exactly when both halves of the split clean, giving the pair of the cleaned halves. A failure is the error of the first half that does not clean. |
| Pairing.NewPairOfSplit | src/pair.rs:24-34 | A quoted part `left + " => " + right` with no separator starting inside `left`, whose halves both clean, gives `Ok` of the two cleaned halves. |
| Legacy.RenderFlat | src/lib.rs:12-16 | The marker, a space, the text. |
| Legacy.FlatKeyLine | src/lib.rs:41-51 | The line is `-` exactly when u lacks the key, and `x` exactly when u's value is equal. Every other line starts with the key's label. |
| Legacy.FlatWalk | src/lib.rs:39-51 | One line per key of t, marked `-`, `~` or `x`. |
| Legacy.Visible | src/lib.rs:52 | No `x` line remains. |
| Legacy.VisibleMembers | src/lib.rs:52 | A line is kept exactly when it is in the input and is not an `x` line. |
| Legacy.VisibleAppend | src/lib.rs:52 | Filtering a concatenation concatenates the filtered parts, so kept lines stay in order. |
| Legacy.VisibleKeepsAll | src/lib.rs:52 | Lines with no `x` among them are kept whole. |
| Legacy.Pluses | src/lib.rs:54-56 | One `+` line `"k": v` per leftover member of u, in order. |
| Legacy.Unsorted | src/lib.rs:37-56 | Every line before sorting is marked `+`, `-` or `~`. |
| Legacy.StrLeTotal | src/lib.rs:57 | The text order is total. |
| Legacy.StrLeAntisymmetric | src/lib.rs:57 | The text order is antisymmetric. |
| Legacy.StrLeTransitive | src/lib.rs:57 | The text order is transitive. |
| Legacy.InsertByText | src/lib.rs:57 | Inserting into a sorted sequence keeps it sorted and adds exactly the one line. |
| Legacy.SortByText | src/lib.rs:57 | The result is sorted ascending by text and is a permutation of the input. |
| Legacy.Diff | src/lib.rs:36-59 | `None` unless both are objects. Otherwise the result is sorted ascending by text, and it is a permutation of the per-key lines and the leftover `+` lines. Every line is `+`, `-` or `~`, and `diff(t, t)` is empty for every well-formed object. |
| Legacy.MapAndFilter | src/lib.rs:37-53 | The map/remove/filter chain gives the kept lines and u's leftover members. |
| Legacy.KeyLine | src/lib.rs:41-51 | The closure body gives exactly the key's line. |
| Legacy.PushLeftovers | src/lib.rs:54-56 | The loop appends exactly one `+` line per leftover member. |
| Legacy.FlatWalkUnique | src/lib.rs:39-54 | With unique keys in t: each key's line looked up in u itself, and u's unmatched members left over. |
| Legacy.FlatShape | src/lib.rs:41-56 | Before sorting, per key of t: `-` when u lacks it, nothing when the values are equal, otherwise one `~` line (no recursion, so a nested difference is one line). Then a `+` line per key of u that t lacks. |
| Legacy.FlatDiffSelf | src/lib.rs:41-53 | A well-formed object against itself gives no line. |
| Legacy.ParseEnvironment | src/lib.rs:24-34 | The same code as pair.rs's `parse_environment`, so it is the same function `Pairing.EnvironmentOf`, with the same failure conditions and last-write-wins result. |

## Left out

- JSON text parsing (`serde_json::from_str`) is a parameter `parse` of `Pairing.CleanString` and `Pairing.NewPair`. Its syntax errors are the `SyntaxError` case.
- `Json.Text` is a compact serialiser without string escaping and with integer numbers only. serde_json's exact output is not reproduced.
- Floating-point numbers are not modelled: JSON numbers are `int`.
- Map iteration order is the model's own choice. Objects are association lists: `Insert` appends a new key at the end, and `Without` keeps the order of the other members. serde_json's `Map` is instead sorted by key by default, which puts an inserted key at its key position. With the `preserve_order` feature, `Map::remove` is a swap-remove that moves the last member into the freed slot. The orders stated in `Json.InsertAbsent`, `Parser.ObjectDiffShape`, `Parser.AddedLines`, `Legacy.FlatShape` and `Legacy.Pluses` (leftover `+` lines "in b's order") and the member order `Pairing.BuildEnv` produces are therefore the model's. The unordered facts hold under either configuration: which lines appear, their lookups, and their count.
- A `serde_json::Map` never holds a key twice. Values with repeated keys are representable here, and the identity lemmas require `WellFormed` (unique keys throughout) for that reason.
- The `io::Error` values are reduced to an error tag, and their message strings are not modelled.
- `usize` overflow of `Line.depth` is not modelled: depth is a `nat`.
- `Lines.Wrap`: src/line.rs:28-39 defines `Line::wrap(lines, name)` with braces only, while src/parser.rs:7,34-43 calls a free `wrap(lines, name, kind)` with object and array kinds. `Wrap` takes the kind, and its brace case is exactly line.rs's.
- `Pairing.Replaced`: `replace_in_tree` rewrites only the `environment` member of the object it is given, and descends only through arrays (src/pair.rs:42-55). It does not recurse into object fields.
- `Legacy.Diff` checks u before t, as the source does, and both checks lead to `None`, so the order cannot be observed.
- `Legacy.SortByText` is an insertion sort that stands in for `sort_unstable_by`. Only the library sort's promise is stated (sorted by text, a permutation), not which of several equal-text lines comes first.
- Depth is only ever incremented, by `wrap`. This is stated per wrap (`Lines.WrappedShape`, `Lines.WrappedDepth`) and as a bound on every line of `Parser.Diff` by the inputs' nesting height. No lemma counts the wraps a line passed through.
- src/bin/main.rs is not part of this model: it is terminal I/O, key capture, colouring and the exit code.
- The test files under tests/ are not modelled.
