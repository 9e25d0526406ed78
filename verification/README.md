# Merit-badge curriculum loader — Dafny model

This project models the static-data loader of the camp achievement tracker: the code that
reads merit-badge curriculum files (JSON) into in-memory `MeritBadge` and `Requirement`
objects, groups the badges by department, walks a requirement tree to print and count it,
and flattens the tree into `merit_badge` / `merit_badge_rqmt` rows whose parent links point
at ids the database returned for earlier rows.

Modules:

- `Wrappers` (`wrappers.dfy`): `Option`, standing for Python's `None`.
- `JsonData` (`json_data.dfy`): the values `json.load` produces.
- `Curriculum` (`curriculum.dfy`): the `Requirement` and `MeritBadge` objects with their
  initial field values, a requirement list as a forest of optional nodes, its size, its
  pre-order listing with depths (`Flatten`), and the `Fresh` / `FreshBadge` / `Complete`
  predicates.
- `Conversion` (`conversion.dfy`): `convert_requirement_from_json` and
  `convert_merit_badge_from_json`, with an encoder back to JSON and round-trip lemmas.
- `Traversal` (`traversal.dfy`): `print_all_requirements` as a run that yields the global
  counter, the printed lines (indent, identifier, description) and whether it stopped on a
  `None` slot.
- `Insertion` (`insertion.dfy`): `insert_merit_badge_requirements_recursively` and
  `add_merit_badges_by_dpmt`. The database is a `Store`: the answer (`Some(id)` or `None`
  for "raised or returned no data") to the k-th insert attempt. Each pass returns the
  updated objects, the log of insert attempts, and the next attempt index.
- `Grouping` (`grouping.dfy`): the loop that converts every badge file and files the
  accepted badges under their upper-cased department name.

The loader never checks that a requirement's parent belongs to the same badge. It
establishes that rule by construction: every row of one pass carries the same badge id, and
every nested row names the id an earlier row of that pass got back (`InsertParentsPrecede`).

## Model

| member | source | states |
|---|---|---|
| Conversion.ConvertRequirement | databaseResources/static-data/meritBadge.py:15-32 | The result mirrors the dictionary all the way down. It is `None` exactly when `rqmt_idnf` or `rqmt_desc` is missing. Otherwise both values are copied as they are. Child i mirrors entry i of the nested list, at every depth, and a rejected entry stays in its slot as `None`. There are no children when the list is missing or null. Every node built has its parent, badge and row ids unset. |
| Conversion.ConvertIsOnlyMirror | databaseResources/static-data/meritBadge.py:15-32 | Any slot with unset ids that mirrors a dictionary equals its conversion, so the contract above determines the converted tree completely. |
| Conversion.ConvertMeritBadge | databaseResources/static-data/meritBadge.py:46-59 | The result is `None` exactly when one of the five badge keys is missing. Otherwise the four scalar values are copied and the badge id is unset. The requirement list has the JSON list's length, and every requirement in it is fresh. Entry i mirrors JSON entry i all the way down, so by `ConvertIsOnlyMirror` it is that entry's conversion. |
| Conversion.RequirementRoundTrip | databaseResources/static-data/meritBadge.py:15-32 | Encode a freshly built requirement tree to JSON and convert it again: the result is the same tree, `None` slots included. |
| Conversion.SlotRoundTrip | databaseResources/static-data/meritBadge.py:17-32 | The same round trip for one slot. An empty dictionary converts back to `None`. |
| Conversion.MeritBadgeRoundTrip | databaseResources/static-data/meritBadge.py:46-59 | Encode a badge that has not been inserted yet and convert it again: the result is the same badge. |
| Conversion.ConvertNormalizes | databaseResources/static-data/meritBadge.py:15-32 | Converting, encoding and converting again gives the same result as converting once. Keys other than the three read are dropped. |
| Curriculum.FlattenSize | databaseResources/static-data/merit-badge-initializer.py:20-26 | The pre-order listing holds exactly as many entries as the forest has requirement objects. |
| Traversal.PrintAll | databaseResources/static-data/merit-badge-initializer.py:20-26 | The counter rises by exactly the number of lines printed. The walk stops on an AttributeError exactly when some slot in the forest is `None`. A complete walk prints one line per node of the forest. |
| Traversal.PrintAllIsPreOrder | databaseResources/static-data/merit-badge-initializer.py:20-26 | The printed lines are the pre-order listing: a node, then its subtree, then its next sibling. Each node is indented by the base indent plus one tab per nesting level. A walk that stops early has printed a prefix of that listing. |
| Traversal.PrintAllCountsToGap | databaseResources/static-data/merit-badge-initializer.py:20-26 | The walk prints one line per requirement object that the pre-order meets before its first `None` slot. It stops exactly when the forest has such a slot. |
| Traversal.PrintAllStopsAtFirstGap | databaseResources/static-data/merit-badge-initializer.py:20-26 | Whether or not the walk crashes, it prints exactly the rendered pre-order listing up to the first `None` slot, and nothing more. |
| Traversal.CompleteIffNoGap | databaseResources/static-data/merit-badge-initializer.py:20-26 | A forest has no `None` slot exactly when its pre-order slot listing has no gap. This connects the crash condition of `PrintAll` to that of `PrintAllCountsToGap`. |
| Traversal.IndentIsTabs | databaseResources/static-data/merit-badge-initializer.py:20-26 | The indent at nesting level d is the base indent followed by exactly d tab characters. |
| Traversal.RenderShift | databaseResources/static-data/merit-badge-initializer.py:26 | Listing a forest one level deeper under an indent prints the same lines as listing it at its own level under that indent plus one tab. |
| Insertion.InsertRequirements | databaseResources/static-data/merit-badge-initializer.py:55-74 | Attempt k gets the store's answer to attempt index next+k, and the next free index is next plus the number of attempts. Every row is a requirement row of the given badge. There are never more rows than nodes, and the list keeps its length. |
| Insertion.InsertRequirement | databaseResources/static-data/merit-badge-initializer.py:58-69 | The node's own row comes first: the badge id, the description, the identifier and the caller's parent, answered by the store at the next index. If that insert returns no data, no further row follows. Otherwise the subtree adds at most one row per node. |
| Insertion.InsertStamps | databaseResources/static-data/merit-badge-initializer.py:59-67 | Every object the pass reaches gets the badge id. Its identifier, description, parent id and number of children are left alone. A `None` slot stays `None`, and a node whose row id was not written keeps its whole subtree untouched. |
| Insertion.InsertParentsPrecede | databaseResources/static-data/merit-badge-initializer.py:59-69 | A row whose parent is not the caller's parent names an id that an earlier row returned. That earlier row belongs to the same badge. So parents are inserted before their descendants and within the same badge. |
| Insertion.InsertionReplays | databaseResources/static-data/merit-badge-initializer.py:59-69 | Start from freshly converted objects. The insert log is exactly what the updated tree describes. Every node reached has one row under its parent's written row id, and that row's answer is the id written into the node. Children are inserted only below a node whose insert succeeded, and a `None` slot gives no row. |
| Insertion.AllInsertsSucceed | databaseResources/static-data/merit-badge-initializer.py:57-74 | When every insert succeeds there is one row per node, in pre-order, with each node's identifier and description. Top-level rows carry the caller's parent (none at the top), and deeper rows carry a parent id. `InsertParentsPrecede` shows that an earlier row returned that id. |
| Insertion.InsertMeritBadge | databaseResources/static-data/merit-badge-initializer.py:39-53 | The badge row, carrying the department id, is attempted first, answered by the store, and is the pass's only badge row. If it returns no data, nothing else is inserted and the badge is unchanged. Otherwise the returned id becomes the badge id and every later row is a requirement row under it. The badge keeps its four values, and its requirement tree is stamped with that id. |
| Insertion.MeritBadgeReplays | databaseResources/static-data/merit-badge-initializer.py:39-53 | For a freshly converted badge, the log is exactly what the updated badge describes. First comes its row, answered by the id written into it. If an id was written, the requirement rows of the whole tree follow under that id, with no parent at the top level; otherwise nothing follows. |
| Insertion.InsertMeritBadgeOwnsRows | databaseResources/static-data/merit-badge-initializer.py:42-48 | Every requirement row of one badge's pass follows that badge's row, and that row returned the badge id the requirement row carries. |
| Insertion.InsertDepartment | databaseResources/static-data/merit-badge-initializer.py:39-53 | There is exactly one badge row per badge, in list order, each with the department id. The attempts get the store's answers in order. Every badge keeps its values and is either untouched or stamped with its new id. Every requirement row follows the badge row that returned its badge id. |
| Insertion.DepartmentReplays | databaseResources/static-data/merit-badge-initializer.py:39-53 | For freshly converted badges, the department's log is each badge's own replay in list order. A badge whose insert fails contributes only its own row, and the badges after it are still inserted. |
| Insertion.InsertAllDepartments | databaseResources/static-data/merit-badge-initializer.py:29-53 | It takes each dictionary key exactly once, as `keys()` yields them. Every department's badges are stamped or left untouched, and the keys and list lengths are kept. The attempts get the store's answers in order. Every requirement row follows the badge row that returned its badge id. For freshly converted badges, the whole log is each department's replay under the id looked up for its name, in key order. |
| Insertion.DepartmentsReplay | databaseResources/static-data/merit-badge-initializer.py:29-53 | For freshly converted badges and a key order without repeats, the log of the walk over the listed departments is each department's replay under the id looked up for its name, in key order. |
| Grouping.GroupByDepartment | databaseResources/static-data/merit-badge-initializer.py:107-112 | A key is present exactly when some accepted badge files under it. Its list holds those badges in file order. Rejected files are dropped. The key order is the order of first appearance, without repeats. Every filed badge is freshly converted. So the result meets everything `InsertAllDepartments` asks of its input, including the freshness its replay statement needs. |
| Grouping.FiledUnderIsFilter | databaseResources/static-data/merit-badge-initializer.py:112 | A badge is in the list under a key exactly when it was accepted and its upper-cased department name is that key. |
| Grouping.AcceptedIgnoresFolders | databaseResources/static-data/merit-badge-initializer.py:96-112 | The folder a file was found in has no effect. Two file lists with the same JSON contents in the same order give the same badges. |

## Left out

- `databaseResources/static-data/department-initializer.py`: it only reads files and inserts department names, with no logic of its own.
- The Supabase client, `.env` loading, `glob` and file reading (merit-badge-initializer.py:79-102): this is file-system and network plumbing. The department-id lookup through `ilike` (lines 31-35) is the `dpmtIdOf` parameter of `InsertAllDepartments`. The crash when a department is missing is not modelled.
- Printed text and stderr logging: only the indent and the two printed values of each requirement line are kept. The printing of badge fields and the final loop over all badges (lines 115-125) are not modelled.
- Conversion.ConvertRequirement: requires a dictionary at every node it reads, and a list under a present, non-null `requirements`. Python accepts more than that. A string entry goes through substring tests and a list entry through membership tests (meritBadge.py:17). Either one usually converts to `None` without error, but an entry that contains both key names raises TypeError at line 28. A number, boolean or null entry raises TypeError at line 17. A string or dictionary under `requirements` is iterated by character or by key (line 22), and a number or boolean there raises. None of these paths is modelled.
- Conversion.ConvertMeritBadge: requires the file to hold a JSON object, and a list under `requirements` when all five keys are present. A file holding a top-level list or string also goes through membership or substring tests (meritBadge.py:49). It usually converts to `None`, and lines 107-111 then drop it, but those files are not modelled (`Grouping.BadgeFile` excludes them). A null list under `requirements` makes Python raise while iterating it. A string or dictionary there is iterated by character or by key. Neither path is modelled.
- Grouping.GroupByDepartment: upper-cases ASCII letters only, not full Unicode case mapping. It also requires the department name of every accepted badge to be a string, because `upper()` raises otherwise.
- Traversal.PrintAll: the AttributeError on a `None` slot ends the whole script. The model records only the lines printed before it and the flag.
- The store's answer depends only on the attempt index and not on the row content. Database uniqueness constraints, cascades, timestamp triggers and role-based authorization are not modelled: the initializer itself checks none of them.
- JSON numbers are integers, and object key order and duplicate keys are not represented. The loader never inspects either.
