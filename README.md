# replit-database-api: the document path engine

This project models the HTTP key-value API wrapped around a Replit database (`main.py`) and proves properties of that model. Each key of the store holds one string. The handlers read that string, decode it as JSON, change it along a `/`-separated path, and write it back. The model covers:

- **Values** (`values.dfy`). A JSON value is `Null | Bool | Int | Str | Arr | Obj`. A dict is an association list in insertion order, as a Python dict keeps its keys. A value is well formed (`WF`) when no dict, at any depth, repeats a key. Python truthiness, `in` on a dict, list or str, and key lookup, assignment and deletion are modelled here.
- **JSON text** (`json_text.dfy`, `json_parse.dfy`, `json_laws.dfy`). `Dumps` is `json.dumps` with its default separators and `ensure_ascii` escaping. `Parse` is `json.loads` on the values above. It returns None where `json.loads` raises `JSONDecodeError`; the other errors `json.loads` can raise are listed under "## Left out". For every well-formed value, `Parse(Dumps(v)) == Some(v)` is proved, and so is the fact that every parsed dict has distinct keys.
- **Codec** (`codec.dfy`). Reading a document is `json.loads`, with the raw string kept when the text is not JSON. Writing stores a dict or list as its JSON text and a str as it is.
- **Python text** (`pytext.dfy`). `str.split('/')` and `int()` applied to a path segment.
- **Path lookup** (`resolver.dfy`). The `value = value[part]` loop of a GET with a path.
- **Merge** (`merge.dfy`). `merge_dicts` as a loop over the new dict's items, proved equal to a recursive definition. When a key is in both dicts, two lists are concatenated, two dicts are merged recursively, and anything else is replaced by the new value. Keys only in the new dict are appended at the end.
- **Delete** (`delete.dfy`). `traverse_and_delete`, the removal of a list element by value with a fallback to `pop(int(segment))`, and the filtering of falsy entries.
- **Handlers** (`handlers.dfy`). A class `Database` whose field `db: map<string, string>` is the store. `Home` is a function returning the page text. GetAllData, GetDbKeys and GetDbPrefix are methods that leave `db` alone and return the data the route answers with 200. MassDelete, GetDbKey, AddToDb, UpdateDb and DeleteFromDb return a status with a JSON body, and all but GetDbKey may change `db`. An uncaught Python exception is the outcome `Crash` (a 500 response).

A request body is given to a handler as an already decoded JSON value. Such a value is well formed because it came from `json.loads`, so the body handlers require `WF(body)`.

Five behaviours of the code that a reader of the handlers may not expect; the model follows the code:

- After a nested delete, only the top-level container is filtered of falsy entries. `traverse_and_delete` builds filtered copies at every level, but each caller ignores what its recursive call returns. So `DELETE a/b/c` on `{a: {b: {c: 1}}}` stores `{"a": {"b": {}}}`, not an emptied document (`Delete.DeleteNestedKeepsEmpty`, `Handlers.DeleteNestedExample`).
- A path segment is a str. Removing `"6"` from `[5, 6, 7]` by value therefore finds nothing. The fallback `pop(6)` is then out of range, so the list is left unchanged (`Delete.DeleteListSegmentIsNotAnInt`).
- In a nested delete, a missing intermediate key or a scalar on the path is not an error. The document is written back after top-level filtering, or the key is deleted when nothing truthy is left at the top level. Descending into a list raises `TypeError`, because a list index must be an int, and that is a 500 response.
- A last segment that reads as an int too wide for a 64-bit `Py_ssize_t` makes `list.pop` raise `OverflowError`, which neither `except` clause catches: the request is a 500 response and nothing is written (`Delete.DeleteHugeIndexRaises`, `Handlers.DeleteHugeIndexCrashes`). An index that is merely out of range is caught, and the pruned document is written back, or the key is deleted when nothing truthy is left at the top level.
- A nested delete can delete the whole key even when nothing was removed. When no top-level entry of the document is truthy after the walk, the filtered root is empty and `traverse_and_delete` returns None, so the handler deletes the key. `DELETE a/b` on `{a: 0}` (a path that stops at a scalar) and `DELETE a/5` on `{a: []}` (an index out of range) both delete the key (`Handlers.DeleteMissingPathErasesDocument`, `Handlers.DeleteOutOfRangeErasesDocument`).

## Model

| member | source | states |
|---|---|---|
| Codec.Decode | main.py:70-73 | decoding yields a value with distinct dict keys; a str result different from the raw text is what json.loads parsed |
| Codec.DecodeEncode | main.py:115-123 | a dict, list, int, bool or None that is written and then read back is that same value |
| Codec.DecodeEncodeStr | main.py:115-123 | a str written as it is reads back as itself exactly when it is not JSON text |
| Codec.DecodeDumpsStr | main.py:261-265 | the JSON text of a str, written when a nested delete returns a str document (and at main.py:170 when an update merges {} into a str), always reads back as that str |
| Codec.StrLooksLikeInt | main.py:118-123 | the str "123", stored as it is, reads back as the int 123 |
| Codec.ParseStrShorter | main.py:121 | a str parsed from JSON text is shorter than the text |
| JsonLaws.ParseDumps | main.py:115-121 | json.loads(json.dumps(v)) == v for every value whose dicts have distinct keys |
| JsonLaws.ParseWF | main.py:70-73 | every value json.loads returns has distinct keys in each dict |
| Values.Put | main.py:140-142 | after a dict assignment the keys are the old keys plus k; a new key is appended at the end, and an existing key is reassigned without adding an entry |
| Values.PutGet | main.py:140-142 | after `d[k] = v`, `d[k]` is v and every other key keeps its value |
| Values.Remove | main.py:211 | `del d[k]` removes exactly k and keeps every other key's value |
| Values.Contains | main.py:209 | `item in value` raises TypeError exactly for an int, bool or None; for a dict it holds when some entry has the item as key, for a list when some element is the str item, and for a str when the item occurs at some position |
| Values.SubstringAt | main.py:209 | the substring test holds exactly when the item occurs at some position of the str |
| PyText.Split | main.py:77 | `str.split('/')` returns at least one part, and no part contains '/' |
| PyText.JoinSplit | main.py:77 | joining the parts of a split with '/' gives the path back |
| PyText.SplitJoin | main.py:204 | splitting '/'-joined parts that contain no '/' gives the parts back |
| PyText.PyIntText | main.py:32 | `int(str(n)) == n` for every int n |
| PyText.PyIntSpacedNegative | main.py:243 | `int(" -7 ")` is -7: surrounding whitespace and a minus sign are accepted |
| PyText.PyIntPlus | main.py:243 | `int("+3")` is 3 |
| PyText.PyIntLeadingZeros | main.py:243 | `int("007")` is 7 |
| PyText.PyIntUnderscore | main.py:243 | `int("1_000")` is 1000 |
| PyText.PyIntSeparatorNotStripped | main.py:243 | `int()` does not strip U+001C, so a segment starting with it is not an int |
| PyText.PyIntRejects | main.py:243 | `int()` raises ValueError on "", "x", "1__0" and "_1" |
| Resolver.ResolvePath | main.py:75-82 | the lookup loop returns the value at the end of the path, or None at the first KeyError or TypeError |
| Resolver.ResolveAppend | main.py:77-78 | looking up `p + q` is looking up p and then q from there |
| Resolver.ResolveFails | main.py:76-80 | a lookup fails exactly when, at some segment, the value reached is not a dict holding that segment |
| Resolver.ResolveWF | main.py:77-78 | every value reached inside a well-formed document is well formed |
| DictMerge.MergeDicts | main.py:128-144 | the loop over the new dict's items gives the recursive merge of the two dicts |
| DictMerge.MergeStep | main.py:129-142 | merging one more new item assigns that key its merged entry |
| DictMerge.MergeKeys | main.py:129-142 | the merged dict's keys are the union of both dicts' keys |
| DictMerge.MergeGet | main.py:129-142 | a key only in the old dict keeps its value, a key only in the new one gets the new value, and a shared key gets the two values merged |
| DictMerge.MergeKeepsOrder | main.py:140-142 | the old dict's keys keep their positions at the front |
| DictMerge.MergeEmptyNew | main.py:128-144 | merging an empty dict changes nothing |
| DictMerge.MergeEmptyOld | main.py:128-144 | merging into an empty dict gives the new dict |
| DictMerge.MergeListsAppend | main.py:131-135 | two lists under the same key are concatenated, old elements first |
| DictMerge.MergeNested | main.py:137-138 | two dicts under the same key are merged recursively |
| DictMerge.MergeWF | main.py:128-144 | merging two well-formed dicts gives a dict with distinct keys |
| Delete.FilterItems | main.py:251 | the filtered list keeps exactly the truthy elements, each as often as before |
| Delete.FilterFields | main.py:254 | the filtered dict keeps only keys it had, and all its values are truthy |
| Delete.FilterFieldsGet | main.py:254 | a key survives the filter exactly when its value is truthy, and it keeps that value |
| Delete.Prune | main.py:251-259 | the tail of a call never returns the error, and a returned container is non-empty |
| Delete.PruneIdempotent | main.py:251-257 | pruning a pruned container again changes nothing |
| Delete.PruneNone | main.py:256-257 | a list or dict prunes to None exactly when all its entries are falsy |
| Delete.FilterFieldsEmpty | main.py:254-257 | a dict filters to empty exactly when all its values are falsy |
| Delete.RemoveFirst | main.py:240 | `list.remove` of an absent element changes nothing |
| Delete.RemoveFirstCount | main.py:240 | `list.remove` of a present element drops exactly one occurrence |
| Delete.RemoveFirstSplit | main.py:240 | `list.remove` drops the first occurrence and keeps everything else in order |
| Delete.PopAt | main.py:243-245 | `pop(i)` succeeds exactly when -len <= i < len, and shortens the list by one |
| Delete.PopNegative | main.py:243 | `pop(i - len)` is `pop(i)`, and `pop(-1)` drops the last element |
| Delete.DeleteFromList | main.py:237-248 | an element equal to the segment is removed first; otherwise the element is popped exactly when the segment reads as an int that fits `Py_ssize_t` and is in range, and the delete raises OverflowError exactly when it reads as an int that does not fit |
| Delete.Traverse | main.py:223-259 | with two or more segments the result is the pruned node; the invalid-path error only comes from a one-segment list delete that leaves the list alone |
| Delete.DeleteHugeIndexRaises | main.py:243-248 | deleting `a/<n>` from {a: [1], b: 0}, for an int n outside the 64-bit range, raises |
| Delete.TraverseSpec | main.py:223-259 | the walk raises exactly when the path above the last segment meets a list, or reaches a list from which the last segment cannot be popped for overflow; otherwise the result is the document with the last segment deleted at the node reached, or the document unchanged where the path leads nowhere |
| Delete.LocateResolve | main.py:229-233 | the delete's walk reaches a node exactly when the GET lookup finds it, and it is the same node |
| Delete.UpdateAtSame | main.py:229-233 | writing a node back at the place it was read from changes nothing |
| Delete.ResolveUpdateAt | main.py:229-233 | after a node is written at the end of a path, looking up that path gives the node |
| Delete.DeletedKeyGone | main.py:229-231 | after a nested delete of a dict's key, the path no longer resolves in the document or in what is stored |
| Delete.TraverseWF | main.py:223-259 | a nested delete of a well-formed document leaves and returns well-formed values |
| Delete.DeleteNestedKeepsEmpty | main.py:229-233 | deleting a/b/c from {a: {b: {c: 1}}} leaves {a: {b: {}}} |
| Delete.DeleteListSegmentIsNotAnInt | main.py:239-245 | deleting "6" from [5, 6, 7] leaves the list unchanged |
| Delete.DeleteListIndex | main.py:243 | deleting "1" from [5, 6, 7] pops index 1 |
| Delete.DeleteListValue | main.py:240 | deleting "b" from ["a", "b"] removes the element "b" |
| Delete.DeleteListIndexFallback | main.py:239-243 | deleting "0" from ["a", "b"] falls back to popping index 0 |
| Delete.DeleteThroughListRaises | main.py:247 | descending with a str into a list raises |
| Handlers.Database.Home | main.py:31-32 | the home page is text that `int()` reads as the number of keys |
| Handlers.Database.GetAllData | main.py:47-57 | every key appears, with its decoded document |
| Handlers.Database.GetDbKeys | main.py:99-101 | every key appears exactly once |
| Handlers.Database.GetDbPrefix | main.py:90-93 | exactly the keys starting with the prefix appear, each once |
| Handlers.Database.MassDelete | main.py:37-42 | the store is emptied and the answer is 200 with {} |
| Handlers.Database.GetDbKey | main.py:64-84 | 404 for a missing key, the decoded document without a path, and with a path either the value found or 400 |
| Handlers.Database.AddToDb | main.py:107-125 | the invalid-input checks answer 400 or raise without writing; otherwise the value is stored under the key, and an int, bool or None raises after the write while a dict or list is echoed back unchanged |
| Handlers.Database.UpdateDb | main.py:149-182 | 404 for a missing key and a raise for a non-dict body leave the store alone; otherwise the store and the answer follow UpdateText, merging via MergeDicts |
| Handlers.Database.DeleteFromDb | main.py:188-267 | 404 for a missing key; no path deletes the key and shows its document; with a path the store and the answer follow PathDelete |
| Handlers.UpdateMerges | main.py:162-175 | a non-empty dict merged into a stored dict is stored as text that reads back as the merge |
| Handlers.UpdateWithEmptyDict | main.py:160-175 | a body without "value", or with {}, rewrites the document as JSON that reads back as the document |
| Handlers.UpdateWithListRaises | main.py:162-169 | a list value always raises, because the parsed list has no `.items()` |
| Handlers.UpdateWithScalar | main.py:162-180 | an int, bool or None value replaces the document and reads back as itself |
| Handlers.UpdateNonDictDocument | main.py:165-175 | a non-empty dict sent for a document that is not a dict replaces the document |
| Handlers.SplitOne | main.py:204-207 | a segment without '/' is a path of one segment |
| Handlers.DeleteOneField | main.py:207-218 | one segment naming a dict key removes exactly that key, prunes nothing, deletes the store key when nothing is left, and otherwise writes text that reads back as the dict shown |
| Handlers.DeleteOneFieldMissing | main.py:209-210 | one segment that is not a key of the dict answers 404 |
| Handlers.DeleteNestedWrites | main.py:261-267 | with two or more segments, the text written reads back as the value shown, which is the pruned document after the delete |
| Handlers.DeletedPathUnreadable | main.py:223-267 | after a nested delete of a dict key, GET on the same path finds nothing in what is stored |
| Handlers.DeleteHugeIndexCrashes | main.py:204-267 | DELETE a/<n> on {a: [1], b: 0}, for an int n outside the 64-bit range, raises instead of writing {"a": [1]} |
| Handlers.DeleteMissingPathErasesDocument | main.py:253-263 | DELETE a/b on {a: 0} deletes the whole key, because the top level filters to {} |
| Handlers.DeleteOutOfRangeErasesDocument | main.py:243-263 | DELETE a/5 on {a: []} deletes the whole key: the IndexError return is ignored and the top level filters to {} |
| Handlers.DeleteNestedExample | main.py:223-267 | DELETE a/b/c on {a: {b: {c: 1}}} writes {"a": {"b": {}}} |

## Left out

- Flask routing, the API-key check (`require_api_key`), the log file and the port setting are not modelled. They decide who may call a handler, not what it does to the store.
- `print(index)` in the list delete writes to standard output and changes nothing, so it is not modelled.
- How `jsonify` formats a response is not modelled; a response body is the JSON value itself.
- The order of `replit.db.keys()` and `replit.db.prefix()` is not modelled. The store is a `map`, so GetDbKeys and GetDbPrefix state which keys appear and that each appears once, not their order.
- The Replit client's own serialisation of stored values is not modelled. The store holds strings. An int, bool or None that the handlers store as it is goes into the model as its JSON text, which reads back as the same value.
- JSON floats, `NaN`, `Infinity`, lone surrogate escapes and other non-standard inputs that `json.loads` accepts are not modelled; `Parse` rejects them.
- Codec.Decode: `json.loads` raising something other than `JSONDecodeError` is not modelled. An integer literal of more than 4300 digits raises ValueError, and very deep nesting raises RecursionError. Neither is caught at main.py:51-54, 70-73, 121, 156-158, 165-173, 177-180 or 194-197, so those requests are 500 responses, where the model decodes the text. For the same reason `Dumps` does not model `json.dumps` raising on such an int.
- PyText.PyInt: `int()` is modelled for ASCII digits only. Non-ASCII decimal digits are not read, and the 4300-digit limit, beyond which `int()` raises ValueError, is not modelled.
- Delete.DeleteFromList: because of that limit, a segment of more than 4300 digits gives the caught invalid-path error in Python, so the pruned document is written back, or the key is deleted when nothing truthy is left at the top level. The model reads it as an int too wide for `pop` and raises.
- Delete.FitsSsize: `Py_ssize_t` is taken to be 64 bits wide, as on a 64-bit build.
- Handlers.Database.AddToDb: a POST body whose "key" is not a str is modelled as raising (Crash), because the model's store holds str keys only. What the Replit client does with such a key is not modelled.
- `merge_dicts` and `traverse_and_delete` change their arguments in place. The model computes the new document as a value. Aliasing cannot be observed here, because the document comes fresh from `json.loads` and is written back as text.
- Strings are sequences of Unicode code points; there is no encoding or normalisation.
