# Documentation maintenance scripts of the Psychic guides, in Dafny

The Psychic guides site keeps its pages as `.md`/`.mdx` files under `docs/`. Each page may open
with a YAML front-matter block between `---` fences. Three maintenance scripts work on that tree,
and this project models all three:

- **The pagination linker** (`scripts/fix-pagination.ts`). It visits every directory under
  `docs/` except those whose names start with `.` or `_`. In each one it orders the `.mdx` pages
  by `sidebar_position` and then by file name. It then marks the first page
  `pagination_prev: null` and the last page `pagination_next: null`, and removes stale `null`
  markers from the pages in between. It rewrites only the pages whose front matter changed.
- **The aggregator** (`scripts/combine-docs.ts`). It collects every `.md`/`.mdx` document below
  `docs/` into a record holding a title, a position and a directory group. It orders the groups
  by a fixed table and sorts each group by position. The output is one document: a preamble,
  then one section per page with the page's headings demoted by one level.
- **The ID assigner** (`scripts/add-bearbnb-ids.ts`). It gives every `.md`/`.mdx` page of the
  bearbnb tutorial directory the front-matter ID `bearbnb-<file name without extension>`. It
  writes only the pages that lack that exact ID, and counts them.

## Modules

- `Wrappers`: `Option`.
- `Text`: the runtime's string operations, namely white space as `\s` sees it, `trim`, `join`
  and decimal rendering.
- `FrontMatter`: a loaded YAML document as an insertion-ordered list of properties, with the
  JavaScript property read, assignment and `delete`, and truthiness. `yaml.load` is a parameter
  of type `Loader`.
- `Fence`: the two front-matter patterns, each an exact model of the regular expression's
  backtracking, and the layouts the scripts write back.
  - The strict pattern `^---\n([\s\S]*?)\n---\n([\s\S]*)$` is shared by the linker and the
    aggregator.
  - The lenient pattern `^---\s*\n([\s\S]*?)\n---\s*\n([\s\S]*)$` is used by the ID assigner.
- `Sorting`: a stable insertion sort, standing for `Array.prototype.sort`, plus filtering and
  distinctness.
- `Files`: a directory tree (`Node`), listings in `readdirSync` order, and whole-file writes.
- `Pagination`, `Headings` and `Combine`, `BearbnbIds`: the three scripts.
  - `Headings` holds the aggregator's chain of six heading replacements.

Each script's external effects are modelled as values:
- every operation returns the writes it would make instead of performing them;
- `yaml.load`, `yaml.dump`, `localeCompare` and the clock are parameters;
- the lemmas state what they require of those parameters, for example that the dumper's output
  loads back to the same mapping.

## Model

| member | source | states |
|---|---|---|
| Fence.FindClose | scripts/fix-pagination.ts:40 | The lazy first group ends at the first `\n---\n` at or after the given index. There is none before it, and there is no result when none exists. |
| Fence.SplitStrictSound | scripts/fix-pagination.ts:40 | When the strict pattern matches, the text is exactly `---\n` + group 1 + `\n---\n` + group 2, and group 1 holds no line that is exactly `---`. |
| Fence.SplitStrictFenced | scripts/combine-docs.ts:25 | A fenced text splits back into exactly its payload and body if and only if the payload has no line that is exactly `---`. |
| Fence.ParseStrictFallback | scripts/combine-docs.ts:24-30 | A text that does not open with `---\n`, has no closing fence, or whose YAML fails to load, parses to the empty mapping with the whole text as content. |
| Fence.ParseStrictFalsy | scripts/fix-pagination.ts:48 | A block whose YAML is falsy (`null`, `false`, `0`, `""`) gives `{}` and still drops the block from the body. |
| Fence.WriteStrictBody | scripts/fix-pagination.ts:59-68 | Re-parsing the text the linker writes gives back exactly the body it was given if and only if the trimmed dump has no line that is exactly `---` and loads without error. |
| Fence.WriteStrictRoundTrip | scripts/fix-pagination.ts:59-68 | When the trimmed dump loads back to the mapping and has no `---` line, re-parsing the written text gives back the same front matter and body. |
| Fence.LastNewline | scripts/add-bearbnb-ids.ts:18 | The greedy `\s*\n` stops at the last newline of a white space run. There is none in the range when it gives nothing. |
| Fence.SplitLooseSound | scripts/add-bearbnb-ids.ts:18 | Every split the lenient pattern reports is a genuine match: opening `---`, white space, newline, group 1, `\n---`, white space, newline, group 2. |
| Fence.SplitLooseComplete | scripts/add-bearbnb-ids.ts:18-23 | Whenever some match of the lenient pattern exists, the split succeeds. No text is misread as having no front matter. |
| Fence.DropLeadingBlankLines | scripts/add-bearbnb-ids.ts:18 | The closing `\s*\n` swallows the body's leading white space up to its last newline. What is removed is white space ending in a newline, and what remains has no newline in its leading white space. |
| Fence.WriteLooseReparse | scripts/add-bearbnb-ids.ts:18-88 | The layout the ID assigner writes, `---\n` + YAML + `\n---\n\n` + body, splits back into the same YAML. The body loses its leading blank lines, provided the YAML starts with a non-space character and has no later line starting with `---`. |
| FrontMatter.Get | scripts/fix-pagination.ts:160-161 | A property read is `undefined` exactly when the key is absent, and otherwise gives a value stored under that key. |
| FrontMatter.Assign | scripts/add-bearbnb-ids.ts:84 | After `fm[k] = v` the key reads `v` and every other key reads as before. An existing key keeps its place in the key order, and a new key is appended last. |
| FrontMatter.Delete | scripts/fix-pagination.ts:173 | After `delete fm[k]` the key is absent and every other key reads as before. Nothing changes when the key was absent. |
| FrontMatter.DeleteAt | scripts/fix-pagination.ts:173 | With unique keys, `delete fm[k]` removes exactly the one property keyed `k`. The remaining properties keep their order, which is the order the dump writes them in. |
| FrontMatter.AssignKeepsKeysUnique | scripts/add-bearbnb-ids.ts:84 | Assignment never duplicates a key. |
| FrontMatter.DeleteKeepsKeysUnique | scripts/fix-pagination.ts:173 | Deletion never duplicates a key and introduces no property. |
| FrontMatter.AssignSameValueIsIdentity | scripts/fix-pagination.ts:164-169 | Assigning the value a key already has leaves the front matter unchanged. |
| FrontMatter.GetUnique | scripts/fix-pagination.ts:160 | With unique keys, reading the key of any property gives that property's value. |
| Text.TrimSlice | scripts/fix-pagination.ts:66 | `trim` keeps one contiguous slice of its input, and everything it removes before and after the slice is white space. |
| Text.TrimStart | scripts/fix-pagination.ts:66 | The leading white space removed is white space, and the result is a suffix that starts with a non-space character. |
| Text.TrimEnd | scripts/fix-pagination.ts:66 | The trailing white space removed is white space, and the result is a prefix that ends with a non-space character. |
| Text.NatToDecimalValue | scripts/add-bearbnb-ids.ts:55 | The decimal rendering of a number reads back as that number. |
| Text.IntToDecimal | scripts/add-bearbnb-ids.ts:55 | The rendering is non-empty and starts with `-` exactly for negative numbers. The rest consists of decimal digits whose value is the number's magnitude. |
| Files.WrittenText | scripts/fix-pagination.ts:202 | The text a file holds after a series of whole-file writes comes from a write to it that no later write to the same name follows. It gives nothing exactly when no write went to it. |
| Files.ApplyWrites | scripts/fix-pagination.ts:202 | Writing files keeps the listing's names and order and leaves subdirectories untouched. Each file either keeps its old text, when no write names it, or holds the text of the last write to its name. |
| Sorting.InsertionSort | scripts/fix-pagination.ts:104-105 | Sorting is a permutation of its input. |
| Sorting.InsertionSortSorted | scripts/fix-pagination.ts:104-131 | Under a total preorder, the result is sorted. |
| Sorting.InsertionSortStable | scripts/combine-docs.ts:87 | The sort is stable: elements the order cannot tell apart keep their relative order. |
| Sorting.InsertionSortOfSorted | scripts/fix-pagination.ts:104-131 | An already sorted sequence is left unchanged. |
| Sorting.SortedUnique | scripts/fix-pagination.ts:104-131 | Two sorted permutations of the same elements are equal when the order ties no two distinct elements. |
| Sorting.InsertionSortMap | scripts/fix-pagination.ts:104-131 | Sorting commutes with a rewrite of the elements that preserves the order between them. |
| Sorting.FilterCount | scripts/combine-docs.ts:77-83 | Filtering keeps every occurrence of an element that passes and none of the others. |
| Sorting.FilterConcat | scripts/combine-docs.ts:77-83 | Filtering distributes over concatenation. |
| Sorting.DistinctPermutation | scripts/fix-pagination.ts:104 | A permutation of a duplicate-free sequence is duplicate-free. |
| Pagination.MdxFiles | scripts/fix-pagination.ts:75-99 | The pages read from a listing are at most as many as its entries, and each is named `*.mdx`. |
| Pagination.MdxFilesMembers | scripts/fix-pagination.ts:83-95 | Exactly the regular files named `*.mdx` are read, each parsed with the strict pattern. |
| Pagination.MdxFilesUnique | scripts/fix-pagination.ts:81-95 | Distinct entry names give distinct page names. |
| Pagination.SortFiles | scripts/fix-pagination.ts:104-131 | Ordering the pages is a permutation of them. |
| Pagination.PageOrderTotal | scripts/fix-pagination.ts:105-130 | When the name order is total, the comparator is a total preorder. |
| Pagination.SortFilesOrder | scripts/fix-pagination.ts:104-131 | Positioned pages come first in non-decreasing position. Unpositioned pages come last. Pages at equal positions, or both unpositioned, are in name order. |
| Pagination.SortFilesCanonical | scripts/fix-pagination.ts:104-131 | With unique names, the sorted order does not depend on the listing order. |
| Pagination.PageLeByKey | scripts/fix-pagination.ts:105-130 | The comparator looks only at the positions and the file names. |
| Pagination.SortFilesExample | scripts/fix-pagination.ts:9-15 | Pages listed c, d, b, a with positions —, 3, 1, 1 are ordered a, b, d, c. |
| Pagination.Relink | scripts/fix-pagination.ts:155-191 | After the loop body, the first page has `pagination_prev: null` and the last has `pagination_next: null`. Pages in between carry neither null marker: a stale `null` marker is removed, not replaced, and a non-null link is kept. Every other key reads as before. The page counts as changed exactly when a link changed. |
| Pagination.RelinkSettled | scripts/fix-pagination.ts:155-191 | Relinking a relinked page at the same place changes nothing. |
| Pagination.LinkAll | scripts/fix-pagination.ts:155-191 | Over a sorted directory, only the first page has `pagination_prev: null` and only the last has `pagination_next: null`. On the other pages a stale `null` marker is removed and any other link is kept. Names and bodies are kept. |
| Pagination.WritesOfMembers | scripts/fix-pagination.ts:193-203 | Exactly the changed pages are written, each with its relinked front matter. |
| Pagination.ProcessDirectory | scripts/fix-pagination.ts:136-205 | A directory pass writes only `.mdx` files. |
| Pagination.ProcessDirectoryWrites | scripts/fix-pagination.ts:136-205 | After a directory pass, a page holds the written front matter of its relinked self over its unchanged body if relinking changed it, and is otherwise untouched. |
| Pagination.ProcessDirectoryIdempotent | scripts/fix-pagination.ts:136-205 | When the YAML dump loads back faithfully, a second pass over the directory it rewrote writes nothing. |
| Pagination.TraverseExactly | scripts/fix-pagination.ts:210-227 | The traversal writes exactly what the directory passes of the directories it reaches write. A directory is reached by descending only through subdirectories whose names do not start with `.` or `_`. |
| Pagination.FixPaginationSkips | scripts/fix-pagination.ts:210-236 | Every write of the whole run goes to an `.mdx` file, along a path with no skipped directory name. |
| Pagination.OrdinalLeTotalOrder | scripts/fix-pagination.ts:115 | Character order of file names, an instance of the name order, is a total order. |
| Headings.ReplaceByLines | scripts/combine-docs.ts:149-154 | One `replace(/^<marker>/gm, …)` rewrites each line on its own, replacing the marker at its start if present. |
| Headings.LinesSound | scripts/combine-docs.ts:149-154 | Cutting a text into lines loses nothing. Every line but the last ends in one line terminator. |
| Headings.ChainDown | scripts/combine-docs.ts:148-154 | The six replacements, deepest first, demote a line of levels 1 to 6 by exactly one `#` and leave every other line alone. No line is demoted twice. |
| Headings.DemoteByLines | scripts/combine-docs.ts:148-154 | The whole chain acts line by line and keeps the number of lines. |
| Headings.DemoteLevels | scripts/combine-docs.ts:148-154 | After the chain, every heading of levels 1 to 6 is one level deeper, every other line is unchanged, and no level-1 heading remains. |
| Combine.LastDot | scripts/combine-docs.ts:61 | Finds the last `.` of a name, which `path.extname` cuts at. |
| Combine.StemOfDocName | scripts/combine-docs.ts:61 | `path.basename(name, path.extname(name))` of `x.md`/`x.mdx` is `x`. A name that is only the extension is kept whole. |
| Combine.TitleChoice | scripts/combine-docs.ts:61 | The title is a truthy front-matter title, rendered as a string. Otherwise, including for an empty title, it is the file name without its extension. |
| Combine.PositionChoice | scripts/combine-docs.ts:64 | The position is the front-matter `sidebar_position` when truthy and 999 otherwise, so position 0 becomes 999. |
| Combine.RootGroupShared | scripts/combine-docs.ts:56-65 | Top-level documents form the group `root`, a top-level directory named `root` shares that group, and every other top-level directory is its own group. |
| Combine.DocOfPlain | scripts/combine-docs.ts:53-66 | A document without front matter keeps its whole text, has the file stem as title and is at position 999. |
| Combine.CollectDirExactly | scripts/combine-docs.ts:41-73 | A record is collected if and only if it is the record of some `.md`/`.mdx` regular file anywhere below the root, read from that file's directory chain. |
| Combine.Directories | scripts/combine-docs.ts:77-83 | The directory groups, each named once, are exactly the directories of the documents. |
| Combine.DirectoriesFirstSeen | scripts/combine-docs.ts:77-83 | The groups are keyed in the order their first document was collected: for any two groups, a document of the earlier one comes before every document of the later one. This is the order in which the groups outside the table are emitted. |
| Combine.ListedOrder | scripts/combine-docs.ts:91-120 | The table loop emits exactly the table's directories that are present, each once, in table order. |
| Combine.GroupOrderSound | scripts/combine-docs.ts:112-125 | The emitted group order names every present directory exactly once. Table directories come first in table order, followed by the rest. |
| Combine.SortGroup | scripts/combine-docs.ts:86-88 | Sorting a group is a permutation of it. |
| Combine.BlocksOfDir | scripts/combine-docs.ts:112-125 | In the output, the documents of a directory are exactly that directory's group, sorted. |
| Combine.SortByStructurePermutation | scripts/combine-docs.ts:75-128 | Ordering the documents neither loses nor duplicates any of them. |
| Combine.SortByStructureContiguous | scripts/combine-docs.ts:112-125 | Each directory's documents are contiguous in the output. |
| Combine.SortByStructureTableOrder | scripts/combine-docs.ts:91-125 | Documents of table directories come before all others, in table order. |
| Combine.SortByStructureWithinGroup | scripts/combine-docs.ts:86-88 | Within a directory positions do not decrease, and documents at equal positions keep their collection order. |
| Combine.SectionTitleShape | scripts/combine-docs.ts:142 | A section heading is the bare title exactly for the `root` group, and `directory/title` otherwise. |
| Combine.CombinedStartsWithHeader | scripts/combine-docs.ts:130-139 | The combined document opens with the preamble. |
| Combine.CombinedHasSection | scripts/combine-docs.ts:141-158 | Each document's section appears whole, right after the preamble and the sections of the documents before it. |
| Combine.CombineDocsComplete | scripts/combine-docs.ts:163-178 | A document is produced exactly when `docs` is a directory. It then starts with the preamble and contains the section of every `.md`/`.mdx` file below `docs`. |
| BearbnbIds.DocExtension | scripts/add-bearbnb-ids.ts:64 | The stripped extension is `.mdx`, `.md` or nothing, and the name ends with it. |
| BearbnbIds.BaseName | scripts/add-bearbnb-ids.ts:64 | The name is its base name followed by the stripped extension. |
| BearbnbIds.GenerateIdOf | scripts/add-bearbnb-ids.ts:62-67 | The ID of `x.md` or `x.mdx` is `bearbnb-x`. |
| BearbnbIds.GenerateIdCollides | scripts/add-bearbnb-ids.ts:62-67 | Two document names get the same ID exactly when their base names agree. Two different names with one base name differ in extension. |
| BearbnbIds.EscapeQuotesInverse | scripts/add-bearbnb-ids.ts:53 | Escaping `"` as `\"` can be undone, so no two strings escape alike. |
| BearbnbIds.JsonQuote | scripts/add-bearbnb-ids.ts:55 | `JSON.stringify` of a string is enclosed in double quotes. |
| BearbnbIds.JsonQuoteInverse | scripts/add-bearbnb-ids.ts:55 | The escaping inside the quotes loses nothing. Reading `\"`, `\\`, `\b`, `\f`, `\n`, `\r`, `\t` and `\u00xx` back gives the original string. |
| BearbnbIds.FallbackLineValue | scripts/add-bearbnb-ids.ts:50-56 | What a fallback line holds after `key: ` reads back as the value: a string is enclosed in double quotes and unescapes to the original, and a number is an optional `-` followed by the decimal digits of its magnitude. |
| BearbnbIds.Stringify | scripts/add-bearbnb-ids.ts:37-60 | When the dump succeeds, the output is one contiguous slice of the dump with only white space removed before and after it, and it neither starts nor ends with white space. When the dump throws, the output is the line-by-line fallback. |
| BearbnbIds.AddIdToFile | scripts/add-bearbnb-ids.ts:69-96 | A file is rewritten exactly when the front matter the lenient pattern reads lacks the expected ID as a string value, including when no front matter is found. What the rewrite holds is stated by `BearbnbIds.AddIdReadBack`. |
| BearbnbIds.WithIdKeeps | scripts/add-bearbnb-ids.ts:84 | Assigning the ID sets `id` and keeps every other property. An existing `id` keeps its place, and a new one is appended. |
| BearbnbIds.AddIdReadBack | scripts/add-bearbnb-ids.ts:86-90 | When the serialised YAML loads back and is a safe payload, the rewritten file parses to the front matter with the ID and the old body without its leading blank lines. |
| BearbnbIds.AddIdIdempotent | scripts/add-bearbnb-ids.ts:69-96 | Under the same condition, processing the rewritten file again changes nothing. |
| BearbnbIds.UpdateEntries | scripts/add-bearbnb-ids.ts:104-114 | There are no more writes than listing entries. |
| BearbnbIds.UpdateEntriesExactly | scripts/add-bearbnb-ids.ts:104-114 | The writes are, in listing order, exactly the rewrites of the document files that lack their ID. |
| BearbnbIds.WrittenByUpdate | scripts/add-bearbnb-ids.ts:104-114 | With unique names, a file ends up holding its rewrite if it needed the ID, and is untouched otherwise. |
| BearbnbIds.AddIds | scripts/add-bearbnb-ids.ts:98-120 | A missing directory is reported and nothing is written. Otherwise the updated count is the number of writes. |
| BearbnbIds.AddIdsCount | scripts/add-bearbnb-ids.ts:104-114 | The updated count is the number of `.md`/`.mdx` files lacking their ID. |
| BearbnbIds.NothingNeeded | scripts/add-bearbnb-ids.ts:117-118 | When every file already has its ID, nothing is written. |
| BearbnbIds.AddIdsIdempotent | scripts/add-bearbnb-ids.ts:98-120 | When the serialised YAML loads back, a second run over the rewritten directory writes nothing and reports 0 files updated. |

## Left out

- **Console output, process exit, file I/O.** Console output and `process.exit` are not modelled. I/O failures of `existsSync`, `statSync`, `readdirSync`, `readFileSync` and `writeFileSync` are not modelled either. The aggregator's final log line of the output size is not modelled.
- **`yaml.load` and `yaml.dump`.** They are foreign library calls and appear as parameters. Their options (`flowLevel`, `lineWidth`, `quotingType`, …) therefore live inside the parameter. The round-trip lemmas state, as a precondition, what they need from the dumper.
- **`localeCompare`.** It is a parameter `nameLe`, and the lemmas require it to be a total order. `Pagination.OrdinalLe` is one instance.
- **Numbers.** Numbers are integers. Fractional and exponent-formatted numbers, and `JSON.stringify`'s float rendering, are not modelled.
- Pagination.PositionOf: a `sidebar_position` that is a string, a list or a mapping is read as 0. The runtime's subtraction converts it instead: `"3"` counts as 3, and text that is not a number gives NaN, which makes the comparator inconsistent. Neither is modelled. A `null` position counts as positioned: the source tests it against `undefined`, finds it defined, and subtracts it as 0, and the model reads it as position 0.
- Pagination.PageLe: two positions that are different JavaScript values with the same number (`null` and `0`, `false` and `0`, `true` and `1`, `""` and `0`) are tied by file name in the model. The source compares them with `!==`, finds them different, subtracts them to 0, and so leaves the two pages in listing order. On such values the source's comparator is not transitive, and the model does not follow it there.
- Combine.PositionLe: the same reading of a non-numeric position as 0.
- **Array.prototype.sort internals.** The sort is a stable insertion sort and its comparator is read as "may stay before". Calls that compare an element with itself, and the engine's particular merge order, are not modelled. For a consistent comparator the result is the same, by `Sorting.SortedUnique`.
- FrontMatter.MappingOf: a truthy scalar or sequence YAML document is read as the empty mapping. For reads this agrees with the source, where every property of such a value is `undefined`.
- Pagination.Relink: for a page whose YAML document is a truthy scalar or list, the model reads it as the empty mapping and writes back a mapping holding only the pagination markers. The source assigns `pagination_prev`/`pagination_next` on the loaded value itself: on a string or number this throws or has no effect, and on a list `yaml.dump` writes the list back without the markers.
- BearbnbIds.AddIdToFile: for a truthy non-mapping document the runtime's `frontMatter.id = …` either throws or has no effect. The model instead writes a mapping holding only the ID.
- **Key order of JavaScript objects.** `Object.keys`/`Object.entries` put integer-like keys first in numeric order, and the model keeps plain insertion order.
  - This affects the aggregator's remaining directory groups (for example a directory named `2024`).
  - It also affects the fallback serialiser's line order.
  - Directory names that are special object properties (`constructor`, `__proto__`) are not modelled either.
- BearbnbIds.Stringify: the fallback serialiser follows the source as written. A `true` value is written as an empty value, which YAML reads back as null, and a string is escaped only for `"`, so backslashes and newlines pass through. Neither is assumed to round-trip: the idempotence lemmas require a serialisation that loads back.
- BearbnbIds.GenerateIdCollides: `intro.md` and `intro.mdx` in one directory receive the same ID. The lemma states this collision, and the model does not prevent it.
- Combine.CollectDirExactly: states membership in both directions, not multiplicity. That each file gives exactly one record would need unique entry names in every listing and file names free of `/`. The model's tree does not impose either, and that is not proved.
- Pagination.ProcessDirectoryIdempotent: idempotence is proved for one directory pass. The whole traversal is idempotent as a consequence, but that is not stated as a separate lemma.
- **Symbolic links and special files.** Directory entries are regular files or directories only. The aggregator would read a non-directory entry named `*.md`, such as a symbolic link, and that is not modelled. (A directory named `*.md` makes the ID assigner's `readFileSync` throw inside its `try`, so it is skipped, as in the model.)
- **Aggregator timestamp.** The aggregator's `new Date().toISOString()` is a parameter `stamp`.
- Text.Trim: the function's own contract states lengths and ends only. What is removed, and that the rest is one slice of the input, is stated separately by `Text.TrimSlice`.
- **Regular expressions.** No general engine is modelled. The front-matter patterns and the `^<marker>` heading patterns are modelled one by one.
