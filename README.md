# POI filter: greedy spatial suppression, node labels, output rewrites

This project models the core of the POI extractor's `filter_nodes.py`. The extractor turns OpenStreetMap extracts into Garmin POI files.

For each POI category, `filter_nodes` walks the `<node>` children of the parsed document in document order:

- A node is compared, in insertion order, with the nodes kept so far.
- The comparison stops at the first kept node closer than the threshold `dist`. The node is then removed from the document.
- A node that is far enough from every kept node is kept.
- Every node then gets a label written into its `id` attribute:
  - Its `amenity`, `shop`, `website` and `opening_hours` tags are selected.
  - They are stably sorted by the position of their key in that list.
  - Each value gets a `\` marker spliced in for every `i` in `range(35, len(value), 35)`.
  - The values are joined with `\`.
- When the document is written out, two rewrites follow:
  - every `\` becomes the character reference `&#xA;`;
  - every ` />` becomes `/>`.

The Dafny modules follow that structure:

- `Geo`: points, and the distance as a function parameter together with the properties some lemmas assume (never negative, symmetric, zero on a point itself).
- `Wrapping`: the 35-character marker insertion. The loop is `WrapValue`; `Spliced` is what it has built after `k` steps. The closed form is `Wrapped`/`Wrap`, and `Unwrap` is its inverse.
- `Labels`: tag selection (whitelist, then a stable insertion sort by key position), the `\` join and the label. `WrapValues` is the loop over the selected tags, and `ComposeLabel` joins what it collects.
- `NodeFilter`:
  - the node record and the document (a class whose `children` sequence is changed by `Remove` and `SetId`);
  - the greedy selection as a specification function (`KeptUpTo`/`Kept`/`Filtered`);
  - the imperative pass `FilterNodes`, proved equal to that specification;
  - the properties of the selection.
- `XmlText`: the two string rewrites of `write_xml`, with an inverse for the first and a reference definition for the second.

The wrap positions come from the value's original length, but each marker goes into the string as it has grown so far. So the first chunk has 35 characters and every later full chunk has 34. The last chunk is whatever remains, and it can be longer than 35: a 105-character value is cut 35, 34, 36 (`Wrapping.LastChunkCanExceedWidth`). The model follows the code exactly here.

## Model

| member | source | states |
|---|---|---|
| Wrapping.InsertCount | filter_nodes.py:142 | the number of markers is the length of `range(35, n, 35)`: zero exactly when `n <= 35`, otherwise the `k` with `35k < n <= 35(k+1)` |
| Wrapping.Wrap | filter_nodes.py:142-143 | the wrapped value is `InsertCount` characters longer, and a value of at most 35 characters is unchanged |
| Wrapping.InsertStep | filter_nodes.py:143 | splicing the `k`-th marker in at `35k` of the string built so far turns the closed form with `k - 1` markers into the one with `k` |
| Wrapping.SplicedIsWrapped | filter_nodes.py:142-143 | the string the loop builds splice by splice after `k` steps is the closed form with `k` markers |
| Wrapping.WrapValue | filter_nodes.py:141-143 | the source's loop over `range(35, len(v), 35)` returns exactly `Wrap(v)` |
| Wrapping.UnwrapWrapped | filter_nodes.py:142-143 | deleting the inserted positions, highest first, gives back the original value |
| Wrapping.UnwrapWrap | filter_nodes.py:142-143 | round trip for the full wrap: `Unwrap(Wrap(v), InsertCount(|v|)) == v` |
| Wrapping.WrapChunks | filter_nodes.py:142-143 | for a value longer than 35: the first chunk is the first 35 characters; a marker sits at each `35t`; every middle chunk is the next 34 characters; the last chunk is the rest; the first and last characters are the value's own |
| Wrapping.LastChunkCanExceedWidth | filter_nodes.py:142-143 | a 105-character value gets two markers and becomes 35 + marker + 34 + marker + 36 characters |
| Labels.IndexOfFinds | filter_nodes.py:137 | `tag_order.index(k)`: the first position holding `k`, or the length exactly when `k` is absent |
| Labels.RankOfOrder | filter_nodes.py:137 | in a list without repetitions, the key at position `q` has rank `q` |
| Labels.Whitelisted | filter_nodes.py:136 | the comprehension keeps only tags whose key is in the order list, and never more tags than it was given |
| Labels.SelectByOrderIsGrouped | filter_nodes.py:135-137 | for any repetition-free key order, filtering then sorting by key position gives the tags of each key in turn, each group in source order |
| Labels.SelectTagsIsGrouped | filter_nodes.py:135-137 | `SelectTags` is the `amenity` tags, then `shop`, then `website`, then `opening_hours`, each group in source order |
| Labels.SelectTagsOrdered | filter_nodes.py:135-137 | every selected key is recognised, and the key positions never decrease along the result |
| Labels.SelectTagsStable | filter_nodes.py:136-137 | the selected tags with a given key are all the input tags with that key, in source order (duplicates kept); an unrecognised key contributes none |
| Labels.SelectTagsPermutation | filter_nodes.py:136-137 | the sort only rearranges: the selection has the same multiset as the whitelisted tags |
| Labels.InsertIntoBuckets | filter_nodes.py:137 | `InsertByRank` puts a recognised tag in front of the tags of its own key already in the grouped list, so inserting it into the grouping of `rest` gives the grouping of `[t] + rest` |
| Labels.InsertByRankPermutes | filter_nodes.py:137 | `InsertByRank` adds exactly the one tag: the result's multiset is the input's plus `t` |
| Labels.SortIsBuckets | filter_nodes.py:137 | `SortByRank` of recognised tags, for a key order without repetitions, is the grouping by key with each group in arrival order (the sort is stable) |
| Labels.SortByRankPermutes | filter_nodes.py:137 | `SortByRank` only rearranges: the result has the same multiset as its input |
| Labels.Join | filter_nodes.py:145 | joining no values gives `""`; otherwise the length is the values' total plus one marker between each pair |
| Labels.JoinPlaces | filter_nodes.py:145 | value `i` appears intact at offset (lengths of the values before it + `i`), preceded by a marker unless it is the first |
| Labels.LabelPlaces | filter_nodes.py:135-145 | in `Label(tags)`, the `i`-th selected tag's wrapped value sits intact at its offset, after a marker unless it is the first, and deleting its wrap markers gives the tag's value back |
| Labels.LabelEmpty | filter_nodes.py:135-145 | the label is empty exactly when no tag is selected, or exactly one is and its value is empty |
| Labels.LabelWithoutRecognisedTags | filter_nodes.py:136-145 | a node without recognised tags gets the empty label, not an error |
| Labels.LabelDependsOnRecognisedTags | filter_nodes.py:135-145 | two tag lists with the same recognised tags per key, in the same order, get the same label |
| Labels.ComposeLabel | filter_nodes.py:139-145 | the source's loop (wrap each selected value, append it, join) returns `Label(tags)` |
| Labels.WrapValues | filter_nodes.py:140-144 | the `for tag in tags` loop collects, in order, the wrapped value of every selected tag: the result is `WrapAll(selected)` |
| NodeFilter.RelabelKeepsNode | filter_nodes.py:145 | `Relabel` (`node.set("id", …)`) sets the id to the node's label and leaves coordinates and tags alone; doing it twice is the same as once |
| NodeFilter.KeptUpTo | filter_nodes.py:118-131 | the kept list after `n` visits holds increasing positions below `n`, no more than `n` of them |
| NodeFilter.Document.Remove | filter_nodes.py:126 | `root.remove`: the child at the given position is deleted and the others keep their order |
| NodeFilter.Document.SetId | filter_nodes.py:145 | `node.set("id", …)`: only the `id` of that one child changes |
| NodeFilter.ScanKept | filter_nodes.py:124-127 | the inner scan finds nothing exactly when every kept point is at least `dist` away; otherwise it stops at the first kept point closer than `dist`, and every point before it is far |
| NodeFilter.CloseToKept | filter_nodes.py:123-131 | with no kept node the answer is "keep"; otherwise a node is close exactly when some kept point is closer than `dist` |
| NodeFilter.ScanDecides | filter_nodes.py:123-129 | a scan over the kept coordinates decides the same as the selection's test against the kept positions |
| NodeFilter.Visit | filter_nodes.py:120-145 | one iteration moves the kept list, the kept coordinates and the document children from their state after `i` visits to their state after `i + 1` |
| NodeFilter.Settle | filter_nodes.py:126-145 | a close node is removed from the document; any other node stays in place with its label as id |
| NodeFilter.FilterNodes | filter_nodes.py:118-146 | the pass leaves as children exactly `Filtered(old children)`: the kept nodes, in document order, each with its label as id |
| NodeFilter.KeptStable | filter_nodes.py:120-131 | later visits never change whether an earlier node was kept |
| NodeFilter.KeptPrefix | filter_nodes.py:128-131 | kept nodes are only ever appended: the list after `m` visits is a prefix of the list after `n >= m` |
| NodeFilter.KeptIff | filter_nodes.py:123-131 | a node is kept exactly when it is at least `dist` from every earlier kept node |
| NodeFilter.RemovedHasCloseKept | filter_nodes.py:124-127 | a removed node has an earlier kept node strictly closer than `dist` |
| NodeFilter.FirstKept | filter_nodes.py:130-131 | the first node is always kept |
| NodeFilter.KeepAllUpTo | filter_nodes.py:125 | with a non-negative distance and `dist <= 0`, every node is kept |
| NodeFilter.KeptFarFromEarlier | filter_nodes.py:124-129 | each kept node is at least `dist` from every node kept before it |
| NodeFilter.KeptPairwiseFar | filter_nodes.py:124-129 | with a symmetric distance, kept nodes are pairwise at least `dist` apart |
| NodeFilter.ReselectKeepsAll | filter_nodes.py:124-129 | selecting again among the kept points keeps all of them |
| NodeFilter.GreedyAgreesBelow | filter_nodes.py:123-131 | any set with the greedy property agrees with the kept positions below `n` |
| NodeFilter.KeptIsUniqueGreedySelection | filter_nodes.py:123-131 | `Kept`, the positions the whole pass keeps, has the greedy property (each position is kept exactly when it is far from every earlier kept one), and it is the only set that has it |
| NodeFilter.DuplicateRemoved | filter_nodes.py:125-126 | with a positive threshold, a node at the same position as any earlier node is removed, whether or not that node was kept |
| NodeFilter.ChainKeepsEnds | filter_nodes.py:124-129 | order matters: if B is close to A and C is not, then A, B, C keeps A and C, even when C is close to B |
| NodeFilter.FilteredIsSubsequence | filter_nodes.py:120-145 | `Filtered`, the children the pass leaves, are input nodes at increasing positions, each relabelled, and there are no more of them than inputs |
| NodeFilter.FilteredSmallInputs | filter_nodes.py:120-131 | empty input gives no children; the first node always survives |
| NodeFilter.FilteredKeepsAllWhenNonPositive | filter_nodes.py:125 | with `dist <= 0` every node survives, relabelled |
| NodeFilter.FilteredPairwiseFar | filter_nodes.py:124-129 | with a symmetric distance, the surviving nodes are pairwise at least `dist` apart |
| NodeFilter.FilteredIdempotent | filter_nodes.py:120-145 | filtering the output again with the same threshold changes nothing |
| XmlText.EscapeMarkers | filter_nodes.py:163 | no marker remains, and the text grows by four characters per marker |
| XmlText.EscapeWithoutMarkers | filter_nodes.py:163 | text without a marker is unchanged |
| XmlText.EscapeKeepsPrefix | filter_nodes.py:163 | a prefix without `&` or a marker is present after the rewrite exactly when it was present before |
| XmlText.UnescapeEscape | filter_nodes.py:163 | reading the entities back gives the original text, whenever that text did not already contain `&#xA;` |
| XmlText.CollapseSelfClosing | filter_nodes.py:165 | the rewrite never makes the text longer |
| XmlText.CollapseDropsSpaces | filter_nodes.py:165 | the left-to-right, non-overlapping substitution equals deleting the space of every ` />`, wherever it occurs; all other characters stay in order |
| XmlText.CollapseLength | filter_nodes.py:165 | exactly one character goes per occurrence of ` />` |
| XmlText.CollapseWithoutMatch | filter_nodes.py:165 | text without ` />` is unchanged |
| XmlText.CollapseKeepsCharacters | filter_nodes.py:165 | the rewrite introduces no character that was not already there |
| XmlText.CollapseNotIdempotent | filter_nodes.py:165 | one pass turns `"  />"` into `" />"`, which a second pass would change again |
| XmlText.PostProcess | filter_nodes.py:163-165 | the text written after the XML declaration contains no marker |

## Left out

- The haversine distance (filter_nodes.py:125) is floating-point library code. It is a parameter `d`. `NonNegative`, `Symmetric` and `ZeroOnSelf` are assumed only by the lemmas that name them.
- Parsing the input with `ElementTree`, the `ParseError` exit, and `ET.tostring` with its UTF-8 decode (filter_nodes.py:112-117, 159-161) are library code and I/O. The model starts from a parsed sequence of node records and from the serialised text.
- `float(node.get("lat"))` and `float(node.get("lon"))` are modelled as `real` fields of the node record. Float parsing and rounding are not modelled. Nor is the `TypeError` the source raises for a `<node>` without `lat` or `lon` (`float(None)`, filter_nodes.py:121-122) or a `<tag>` without `v` (`len(None)`, filter_nodes.py:141-142): every field of the node and tag records is present, so those inputs cannot be represented.
- `NodeFilter.Document`: the document holds only its `<node>` children. Other children that the source leaves untouched, such as `<bound>`, are not modelled.
- `NodeFilter.Document.Remove`: it removes by position, not by element identity. In the pass the two coincide, because the visited node always sits right after the kept ones.
- `NodeFilter.Visit`: the source also composes a label for a removed node and writes it into that detached element. The model composes the label for every node but writes it only into kept nodes, since a detached element is never seen again.
- The `print` calls, the timing, `argparse` and the coloured output are user-interface glue.
- The `osmosis` and `gpsbabel` subprocesses, `sys.exit` on those error paths, directory creation, file writes, YAML loading and the default `.pbf` glob are external processes and filesystem I/O.
- The `multiprocessing.Pool` fan-out over categories is concurrency. `process_poi` and `main_single` are exception-driven orchestration around the core.
- The `PermissionError` handler of `write_xml` is file I/O.
