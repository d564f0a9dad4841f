# A verified model of libmowgli's containers, parsers and allocators

This project models the algorithmic core of libmowgli in Dafny and proves what that
code is for. `dafny verify dfyconfig.toml` checks all of it. Modules follow the C
files; code that updates fields and arrays in place is modelled by classes, arrays
and loops, each method proved against a specification function or a ghost view, and
the properties of those are proved as lemmas. `Common` and `Sequences` hold what
several modules use.

- **Patricia trie** (`container/patricia.c`; `Keys`, `Trie`, `TrieOrder`, `Patricia`,
  `PatriciaCases`).
  Elements are objects with branches and parent links. The invariant says, for every
  element, which keys it holds; splitting an edge, attaching, detaching and collapsing
  are each proved to keep it. So over every sequence of operations the trie is a finite
  map from canonical keys to data, and iteration is in strcmp order even while the
  current entry is deleted.
- **Splay dictionary** (`container/dictionary.c`; `Comparators`, `SplayShape`,
  `Dictionary`). The top-down splay with its temporary header is a state of three
  trees over one sequence; the tree, the list threaded through it and the positions
  always describe that sequence.
- **List and its sort** (`container/list.c`; `ListSort`, `List`). The
  quadratic sort moves nodes under both of its running iterators; it ends and sorts.
- **JSON** (`ext/json.c` and `core/mowgli_string.c`; the `Json` modules and
  `StringBuffer`). Values and members (`JsonValue`), the LL(1) tables (`JsonGrammar`),
  the pushdown machine with its build stack (`JsonMachine`, `JsonBuild`, `JsonStacks`),
  the exact height of its stack (`JsonHeight`, `JsonDepth`), text and lexer (`JsonText`,
  `JsonLexer`), the growing string they collect characters in (`StringBuffer`), the
  round trip (`JsonRoundTrip`, `JsonParser`, with the growing string `JsonStream` and
  `JsonReread`, and cut at a NUL `JsonCut`), and the imperative parser and serializer
  (`JsonReader`, `JsonWriter`) proved equal to those functions. What these functions
  mean is said a second time from RFC 4627 alone: documents as phrases (`JsonPhrase`),
  every way to spell strings, numbers and documents (`JsonSpelling`), that all of them
  are read as what they mean (`JsonReading`), and that what is written is one of them
  (`JsonPrinting`).
- **getopt** (`ext/getopt_long.c`; `Rotation`, `Permute`, `Getopt`). The rotation by
  gcd-many cycles of swaps, and the permuting scan above it over a whole run.
- **Random numbers** (`base/random.c`; `Words`, `Random`, `RandomAnswers`). The in-place
  Mersenne Twister against its infinite recurrence, tempering as a bijection, exact ranged
  draws, and the recurrence itself bit by bit and by its first outputs.
- **DNS names** (`dns/evloop_reslib.c`; `DnsNames`, `DnsText`, `DnsSpelling`, `DnsExpand`,
  `DnsReading`, `DnsPack`, `DnsComp`). Printing and parsing, all spellings of a name,
  expansion with its loop check on any message at all, packing with compression, and the
  way of a text through all four.
- **Block heap** (`core/heap.enabled.c`; `Heap`). Which slots are live, and the block
  order that makes looking at the head of the list enough.
- **Timers** (`eventloop/timer.c`; `Timer`) and the **resolver's request table**
  (`dns/evloop_res.c`; `Resolver`), with the history of each timer and query.

## Where the code departs from what is said about it

The model follows the code. Where a stated intent fails there is an input that shows it,
and the exact condition under which the intent is met, proved for all inputs.

- `container/patricia.h:101` says that a nonzero result of the callback stops
  `mowgli_patricia_foreach`; the code ignores the result. `Patricia.Patricia.Foreach`: the
  entries visited are those of a stopping iteration if and only if no entry but the
  greatest has a nonzero result. Input: `PatriciaCases.ForeachGoesOn`.
- `mowgli_patricia_search` promises null for "not found"; its loop does not end at the
  root. `Patricia.Patricia.Search`: with nothing to find it returns if and only if there
  is at most one entry. Input: `PatriciaCases.SearchRunsOff`.
- `mowgli_patricia_clear` and every loop with `MOWGLI_PATRICIA_FOREACH` stop at the
  first entry whose data is null, which `mowgli_patricia_elem_set_data` can produce.
  `Patricia.Patricia.Clear` and `Patricia.Patricia.Sweep`: all entries are met if and only
  if there is none. Input: `PatriciaCases.ClearStops`.
- `mowgli_dictionary_link` stores the result of the comparator, a `ptrdiff_t`, in an
  `int`. `Dictionary.Dictionary.Link` and `Dictionary.Dictionary.Add`: the entry gets its
  place if and only if the comparison with the neighbour that the splay brought to the
  root has the same sign in an `int`. Input: `Dictionary.LosesEntry`.
- A string that grows copies its contents as a C string and loses what follows a NUL.
  `StringBuffer.StoredWhole`: it keeps what was appended if and only if nothing but zeros
  follows the first zero at each length at which it grows. Input:
  `StringBuffer.LosesLetters`.
- A NUL byte in a JSON string is written raw after a backslash, because `strchr` finds
  the terminator of its own table. `JsonWriter.PrintAndParse`: `mowgli_json_parse_string`
  returns the document that was serialized if and only if it has no NUL byte; otherwise
  its text is cut at the first one, and `JsonCut.CutDocument` shows that no error is
  raised and nothing comes out. For `mowgli_json_parse_data`, which takes a length,
  `JsonReread.WhatComesBack` says what every document is read as, and
  `JsonReread.ShortComesBack` that one whose escaped strings are shorter than 64 bytes
  comes back if and only if it has no NUL byte. Inputs: `JsonReread.NulIsLost`, read as
  another document, and `JsonReread.ManyNuls`, a longer string of NUL bytes that survives.
- The symbol stack of the JSON parser has 128 slots and no check. `JsonDepth.DocumentFits`:
  a document fits if and only if no container is nested deeper than 127 and no object with
  members deeper than 125. Inputs on both sides: `JsonDepth.TheLimits`.
- After asking a server again, `timeout_query_list` returns a time 600 seconds away
  although that request is due within 16. `Resolver.Resolver.TimeoutQueryList`: the
  returned time is right if and only if nothing was asked again. Input:
  `Resolver.LooksTooLate`, where it is 604 for a request due at 12.
- `mowgli_getopt` takes every argument that begins with two dashes for the end of the
  options, where its comments speak of "--". `Getopt.Run` and `Getopt.DashesIff`: a run is
  as intended if and only if the argument at which it ends the options, if there is one,
  is "--". Input: `Getopt.DashesDiffer`.
- A JSON string may name any character by four hexadecimal digits; the code keeps the
  lowest eight bits. `JsonSpelling.SpelledExactly`: a spelled string is read as what it
  spells if and only if no character is beyond 255. Input: `JsonSpelling.BeyondAByte`.
- A number may have an exponent with a plus sign, or a capital E and no fraction; the
  lexer refuses the sign and takes the second for an integer. `JsonReading.ReadsNumberExactly`:
  a number is read as what it is if and only if it has no plus sign and, unless it is an
  integer, a point or a small e. Inputs: `JsonReading.PlusInDocument`, which is refused, and
  `JsonReading.CapitalInDocument`, read as another document. An integer is kept as itself if and
  only if it fits an int (`JsonReading.WholeRead`); input: `JsonReading.WideInDocument`.
- Any other word than the three names of JSON is taken for null, which a comment beside it
  calls an error. `JsonReading.WordsExactly`: a word is read as what it spells if and only if
  it is one of the three. Input: `JsonReading.AnyWordInDocument`.
- The loop check of `mowgli_dns_ns_name_unpack` says that there must be a loop once as many
  octets were looked at as the message has. `DnsReading.ExpandsExactly`: a name is expanded if
  and only if it fits the buffer and the way up to its last pointer is shorter than the
  message. Input without a loop that is refused: `DnsReading.RefusedWithoutLoop`. Names
  whose pointers lead backwards, as packing makes them, are never refused
  (`DnsExpand.ExpandReads`).

## Model

| member | source | states |
|---|---|---|
| Keys.NibbleVal | src/libmowgli/container/patricia.c:66 | reading a nibble of a C string no further than its terminator gives the nibble of the key continued with infinitely many zeros |
| Keys.FirstDifferenceExists | src/libmowgli/container/patricia.c:794-796 | two different keys have a first differing nibble, and it is no later than the terminator of the shorter one |
| Keys.NextInside | src/libmowgli/container/patricia.c:794-796 | while two different keys agree, the scan for their first difference stays inside both |
| Keys.StrcmpIsKeyLess | src/libmowgli/container/patricia.c:595-600 | strcmp on C strings is the nibble-wise lexicographic order, and 0 exactly for equal keys |
| Keys.StrcmpSign | src/libmowgli/container/patricia.c:595-600 | the sign of strcmp is decided by the first nibble at which the keys differ |
| Keys.KeyLessTransitive | src/libmowgli/container/patricia.c:595-600 | the key order is transitive |
| Trie.Chain | src/libmowgli/container/patricia.c:754-764 | two nodes holding one key are on one downward path: equal nibble numbers mean the same node, smaller ones lead through the branch the key selects |
| Trie.RootIsTop | src/libmowgli/container/patricia.c:799-803 | the root tests the earliest nibble of all nodes, and no other node tests the same one |
| Trie.SharingIsBelow | src/libmowgli/container/patricia.c:682-690 | a stored key that shares the first nibbles of a node lies below that node |
| Trie.LeafUnique | src/libmowgli/container/patricia.c:766-772 | no key has two leaves |
| Trie.ChildStep | src/libmowgli/container/patricia.c:682-690 | the branch a key selects holds it exactly if the node does, and holds strictly fewer keys |
| Trie.FirstBranch | src/libmowgli/container/patricia.c:133-141 | the keys below the first used branch precede all other keys of the node |
| Trie.PlaceSplits | src/libmowgli/container/patricia.c:798-812 | where the climb ends there is an edge that can be split, unless the nibble is already tested there |
| Trie.SplitEdgeOk | src/libmowgli/container/patricia.c:805-851 | putting a node into an edge keeps the whole invariant but for the new node having one branch, and keeps the stored keys |
| Trie.AttachOk | src/libmowgli/container/patricia.c:860-870 | storing a key in the empty branch its nibbles lead to restores the whole invariant and adds exactly that key |
| Trie.DetachOk | src/libmowgli/container/patricia.c:933-938 | removing a leaf keeps the invariant but for the branches of its parent, and removes exactly its key |
| Trie.CollapseOk | src/libmowgli/container/patricia.c:948-975 | replacing a node with one branch by its only child restores the whole invariant and keeps the keys |
| TrieOrder.AroundChild | src/libmowgli/container/patricia.c:353-357 | passing a used branch passes exactly the keys stored there |
| TrieOrder.AheadThroughEdge | src/libmowgli/container/patricia.c:366-382 | going down into a node, or up from its end, changes nothing of what is still ahead |
| TrieOrder.AheadOfLeaf | src/libmowgli/container/patricia.c:359-365 | passing a leaf passes its key, which precedes everything still ahead |
| TrieOrder.WalkDone | src/libmowgli/container/patricia.c:329-384 | a walk with nothing left ahead has met every entry once, in increasing strcmp order |
| TrieOrder.DocumentedIs | src/libmowgli/container/patricia.h:101 | iteration as documented: a prefix of the entries, on which only the last callback result can be nonzero, and is if any entry is left |
| TrieOrder.DocumentedIff | src/libmowgli/container/patricia.h:101 | it makes no difference to a whole iteration if and only if no entry but the one with the greatest key has a nonzero result |
| Patricia.Patricia.constructor | src/libmowgli/container/patricia.c:189-207 | a new trie is valid and stands for the empty map |
| Patricia.Patricia.ElemFind | src/libmowgli/container/patricia.c:645-703 | blind descent and one comparison find a leaf exactly if the canonical key is stored, and then its leaf |
| Patricia.Patricia.Retrieve | src/libmowgli/container/patricia.c:1009-1017 | the data stored under the canonical key, or null |
| Patricia.Patricia.DataOk | src/libmowgli/container/patricia.c:1028-1033 | data is no part of the shape of a trie |
| Patricia.Patricia.SetData | src/libmowgli/container/patricia.c:1028-1033 | the data of one entry is replaced, by null too; keys, order and all other entries stay |
| Patricia.Patricia.FirstLeaf | src/libmowgli/container/patricia.c:129-144 | the leaf of the least key of a subtree |
| Patricia.Patricia.Descend | src/libmowgli/container/patricia.c:747-764 | the path of nodes a key selects, where it ends, and that a stored key is found at its end |
| Patricia.Patricia.Locate | src/libmowgli/container/patricia.c:747-776 | reports a duplicate exactly if the key is stored, and otherwise a leaf below the end of the path to compare with |
| Patricia.Patricia.FirstDifference | src/libmowgli/container/patricia.c:794-796 | the first nibble at which two different keys differ, without reading past a terminator |
| Patricia.Patricia.Climb | src/libmowgli/container/patricia.c:798-803 | climbing parent links ends where the differing nibble has to be tested |
| Patricia.Patricia.Splice | src/libmowgli/container/patricia.c:807-851 | the pointer writes that put a node into an edge; everything else is unchanged |
| Patricia.Patricia.InsertNode | src/libmowgli/container/patricia.c:805-851 | the trie after a node was put into an edge |
| Patricia.Patricia.MakePlace | src/libmowgli/container/patricia.c:805-858 | a node testing the nibble is found or made, its branch for the new key is empty, and the contents are unchanged |
| Patricia.Patricia.PutLeaf | src/libmowgli/container/patricia.c:860-870 | hanging the leaf makes the trie valid again, with one entry more |
| Patricia.Patricia.AddFirst | src/libmowgli/container/patricia.c:778-792 | adding to an empty trie |
| Patricia.Patricia.AddBeside | src/libmowgli/container/patricia.c:794-871 | adding next to the leaf the descent found |
| Patricia.Patricia.ElemAdd | src/libmowgli/container/patricia.c:723-872 | adds the entry and nothing else; refused exactly for null data or a stored key, and then nothing changes |
| Patricia.Patricia.Add | src/libmowgli/container/patricia.c:875-878 | true exactly if the entry was added |
| Patricia.Patricia.SoleBranch | src/libmowgli/container/patricia.c:940-944 | which branch is the only used one: none, one, or several |
| Patricia.Patricia.Unhook | src/libmowgli/container/patricia.c:933-938 | the pointer write that removes a leaf from its node |
| Patricia.Patricia.Lift | src/libmowgli/container/patricia.c:948-975 | the pointer writes that put an only child in the place of its parent |
| Patricia.Patricia.RemoveBelow | src/libmowgli/container/patricia.c:933-976 | removing a leaf below a node, with the collapse, keeps the invariant and removes exactly its key |
| Patricia.Patricia.RemoveOnly | src/libmowgli/container/patricia.c:977-981 | removing the last leaf leaves no root |
| Patricia.Patricia.DropCount | src/libmowgli/container/patricia.c:983-989 | the count goes down, and is 0 exactly when the root is gone already |
| Patricia.Patricia.ElemDelete | src/libmowgli/container/patricia.c:916-990 | the entry of a leaf is removed and no other, over every valid trie |
| Patricia.Patricia.Delete | src/libmowgli/container/patricia.c:900-913 | the data stored under the key is returned and its entry removed; nothing changes for an absent key |
| Patricia.Patricia.Size | src/libmowgli/container/patricia.c:1058-1063 | the count is the number of entries |
| Patricia.Patricia.Scan | src/libmowgli/container/patricia.c:355-357 | the next used branch; nothing ahead is skipped |
| Patricia.Patricia.ClimbOut | src/libmowgli/container/patricia.c:373-382 | leaving finished nodes changes nothing of what is ahead |
| Patricia.Patricia.Step | src/libmowgli/container/patricia.c:353-382 | one round passes one leaf, the least of all ahead, or comes closer to one without passing any |
| Patricia.Patricia.Walk | src/libmowgli/container/patricia.c:351-383 | the loop ends and has passed everything |
| Patricia.Patricia.VisitAll | src/libmowgli/container/patricia.c:329-384 | every entry is visited exactly once, in strictly increasing strcmp order |
| Patricia.Patricia.Foreach | src/libmowgli/container/patricia.c:329-384 | so it is whatever the callback returns; what the header promises for nonzero results is kept if and only if no entry but the greatest has one |
| Patricia.Patricia.TwoEntries | src/libmowgli/container/patricia.c:422-468 | a trie whose root is a node has at least two entries |
| Patricia.Patricia.Search | src/libmowgli/container/patricia.c:405-469 | the first result, in key order, that is not null; if there is none, null for at most one entry, and otherwise the loop goes on past the root through a null pointer |
| Patricia.Patricia.SearchBelow | src/libmowgli/container/patricia.c:422-468 | the loop for a trie whose root is a node |
| Patricia.Patricia.Found | src/libmowgli/container/patricia.c:590-605 | a leaf met by the iterator is the one it started from or the next one; it never goes backwards |
| Patricia.Patricia.Successor | src/libmowgli/container/patricia.c:578-625 | the leaf of the next greater key, found from a leaf alone |
| Patricia.Patricia.ForeachNext | src/libmowgli/container/patricia.c:554-626 | moves on to the next entry; after the end nothing changes |
| Patricia.Patricia.ForeachStart | src/libmowgli/container/patricia.c:486-506 | current and next are the two least entries |
| Patricia.Patricia.SweepOne | src/libmowgli/container/patricia.c:270-276 | deleting the current entry leaves the remembered next one the least of those to come |
| Patricia.Patricia.SweepStep | src/libmowgli/container/patricia.c:268-277 | one step of an iteration that may delete its current entry keeps the order and loses nothing |
| Patricia.Patricia.Sweep | src/libmowgli/container/patricia.c:268-277 | an iteration deleting any chosen entries visits all entries once, in order, and deletes exactly those, if and only if no entry has null data; otherwise it stops at the first such entry, with those before it dealt with |
| Patricia.Patricia.SweepEnds | src/libmowgli/container/patricia.c:268-277 | the iteration ends with everything visited if and only if no entry has null data |
| Patricia.Patricia.Clear | src/libmowgli/container/patricia.c:259-278 | the destructor is called once per entry in order and the trie ends empty, if and only if no entry has null data; otherwise exactly the entries from the first such one on remain |
| PatriciaCases.EnumerationIs | src/libmowgli/container/patricia.c:329-384 | two entries are enumerated in one way |
| PatriciaCases.ForeachGoesOn | src/libmowgli/container/patricia.c:360-364 | the failing input for the documented short-circuit: two entries, a callback that returns 1, both visited |
| PatriciaCases.NothingCleared | src/libmowgli/container/patricia.c:259-278 | clearing that meets null data first clears nothing |
| PatriciaCases.ClearStops | src/libmowgli/container/patricia.c:259-278 | the failing input for clearing: two entries, the first given null data, nothing destroyed and both left |
| PatriciaCases.SearchRunsOff | src/libmowgli/container/patricia.c:405-469 | the failing input for a search: two entries, and a callback that finds neither |
| SplayShape.RotateRightOk | src/libmowgli/container/dictionary.c:267-272 | a right rotation at the current node keeps all three trees of the top-down splay in order |
| SplayShape.RotateLeftOk | src/libmowgli/container/dictionary.c:287-292 | a left rotation does |
| SplayShape.LinkRightOk | src/libmowgli/container/dictionary.c:278-280 | hooking the current node into the right-hand tree keeps the trees in order; the right edge is where the next node goes |
| SplayShape.LinkLeftOk | src/libmowgli/container/dictionary.c:298-300 | the same to the left |
| SplayShape.AssembleOk | src/libmowgli/container/dictionary.c:304-310 | putting the three trees together under the current node gives one tree with the same in-order sequence |
| SplayShape.LinkBeforeOk | src/libmowgli/container/dictionary.c:358-370 | a new root right before the old one |
| SplayShape.LinkAfterOk | src/libmowgli/container/dictionary.c:374-386 | a new root right after the old one |
| SplayShape.NextIsLeftmost | src/libmowgli/container/dictionary.c:435-438 | the element after the root has no left child |
| SplayShape.UnlinkOk | src/libmowgli/container/dictionary.c:425-460 | the tree without its root is a tree over the remaining sequence |
| Dictionary.Beyond | src/libmowgli/container/dictionary.c:256-302 | one comparison decides for all entries on that side |
| Dictionary.FrontierMoves | src/libmowgli/container/dictionary.c:256-302 | what the splay knows about the key after comparing it with the current node |
| Dictionary.RotateRightAt | src/libmowgli/container/dictionary.c:267-272 | the pointer writes are the rotation |
| Dictionary.LinkRightAt | src/libmowgli/container/dictionary.c:278-280 | the pointer writes through the temporary header are the link step |
| Dictionary.AssembleAt | src/libmowgli/container/dictionary.c:304-310 | the final four pointer writes are the assembly |
| Dictionary.TurnRight | src/libmowgli/container/dictionary.c:262-276 | the zig-zig step: rotate if the key is also below the left child |
| Dictionary.TurnLeft | src/libmowgli/container/dictionary.c:283-296 | its mirror image |
| Dictionary.SplayLeft | src/libmowgli/container/dictionary.c:262-281 | one round towards smaller keys narrows the range the key can be in |
| Dictionary.SplayRight | src/libmowgli/container/dictionary.c:282-301 | one round towards greater keys does |
| Dictionary.Round | src/libmowgli/container/dictionary.c:257-302 | every round narrows the range or ends with a root that splits the entries at the key |
| Dictionary.Splayed | src/libmowgli/container/dictionary.c:243-310 | the splay ends, keeps the in-order sequence, and its root splits the entries at the key |
| Dictionary.RankIs | src/libmowgli/container/dictionary.c:157-185 | a position with only smaller keys before it and none from it on is the rank |
| Dictionary.RankAtRoot | src/libmowgli/container/dictionary.c:343-387 | the rank of a key next to a root that splits the entries at it |
| Dictionary.PresentIs | src/libmowgli/container/dictionary.c:711-723 | a key is present exactly if some entry compares equal, and that entry is at its rank |
| Dictionary.PutSorted | src/libmowgli/container/dictionary.c:335-397 | inserting at the rank, or replacing an equal entry, keeps the order |
| Dictionary.LinkedIff | src/libmowgli/container/dictionary.c:352-395 | linking beside the entry that splits the others gives the entry its place, or replaces the equal one, if and only if the result of the comparison with that entry has the same sign when stored into an int |
| Dictionary.GraftBefore | src/libmowgli/container/dictionary.c:358-360 | the pointer writes for a root before the old root |
| Dictionary.GraftAfter | src/libmowgli/container/dictionary.c:374-376 | the pointer writes for a root after it |
| Dictionary.ParentOfNext | src/libmowgli/container/dictionary.c:447-454 | the walk down the left edge ends at the parent of the next element |
| Dictionary.PromoteNext | src/libmowgli/container/dictionary.c:433-460 | the next element takes the place of the root |
| Dictionary.UnlinkNarrow | src/libmowgli/container/dictionary.c:425-432 | a root with at most one child gives way to that child |
| Dictionary.NumberFrom | src/libmowgli/container/dictionary.c:178-179 | every element is numbered with its place in the list |
| Dictionary.Dictionary.constructor | src/libmowgli/container/dictionary.c:77-90 | a new dictionary is valid and empty |
| Dictionary.Dictionary.Retune | src/libmowgli/container/dictionary.c:236-311 | keeps elements, order and list; the new root is the key itself or splits the entries at it, so it is an immediate neighbour |
| Dictionary.Dictionary.Find | src/libmowgli/container/dictionary.c:711-723 | the element of the key exactly if it is present, which is then the root |
| Dictionary.Dictionary.Retrieve | src/libmowgli/container/dictionary.c:814-822 | the data of the key, or null |
| Dictionary.Dictionary.GetLinearIndex | src/libmowgli/container/dictionary.c:157-185 | the rank of the key, or -1, whether or not the positions had to be renumbered |
| Dictionary.Dictionary.Renumber | src/libmowgli/container/dictionary.c:175-182 | positions are ranks and the dictionary is clean |
| Dictionary.Dictionary.ThreadBefore | src/libmowgli/container/dictionary.c:362-369 | the list writes for an element before the root; head follows |
| Dictionary.Dictionary.ThreadAfter | src/libmowgli/container/dictionary.c:378-385 | the list writes for an element after the root; tail follows |
| Dictionary.Dictionary.LinkFirst | src/libmowgli/container/dictionary.c:344-349 | linking into an empty dictionary |
| Dictionary.Dictionary.LinkBeforeRoot | src/libmowgli/container/dictionary.c:356-371 | linking in front of the root puts the entry before the root's in tree and list |
| Dictionary.Dictionary.LinkAfterRoot | src/libmowgli/container/dictionary.c:372-387 | linking behind the root puts it after |
| Dictionary.Dictionary.ReplaceRoot | src/libmowgli/container/dictionary.c:388-395 | key and data of the root are replaced |
| Dictionary.Dictionary.LinkAtRoot | src/libmowgli/container/dictionary.c:352-395 | which of these it is, by the comparison stored into an int |
| Dictionary.Dictionary.Link | src/libmowgli/container/dictionary.c:335-397 | the entry is at its rank in tree and list, or replaces the equal one, and all other entries stay, if and only if the comparison with the neighbour that the splay brought to the root survives being stored into an int; the whole new state in any case |
| Dictionary.Dictionary.Unthread | src/libmowgli/container/dictionary.c:462-473 | the list writes that take the root off the list |
| Dictionary.Dictionary.UnlinkTree | src/libmowgli/container/dictionary.c:425-460 | the tree writes of unlinking |
| Dictionary.Dictionary.UnlinkPointers | src/libmowgli/container/dictionary.c:418-475 | all writes of unlinking, with count and dirty flag |
| Dictionary.Dictionary.UnlinkRoot | src/libmowgli/container/dictionary.c:414-476 | the entry of the root is removed from tree and list, and nothing else |
| Dictionary.Dictionary.Add | src/libmowgli/container/dictionary.c:743-759 | refused exactly for null data or a present key, and then nothing changes; otherwise a new element holding the key and the data, at its rank among the others, if and only if the comparison with the neighbour of the key survives being stored into an int |
| Dictionary.Dictionary.Delete | src/libmowgli/container/dictionary.c:781-795 | the data of the key is returned and its entry removed; nothing changes for an absent key |
| Dictionary.WideOrders | src/libmowgli/container/dictionary.c:352-354 | differences times 2^32 are a consistent order whose results, stored into an int, all read as equal |
| Dictionary.LosesEntry | src/libmowgli/container/dictionary.c:352-395 | the failing input: with that comparator, adding a second, greater key replaces the first entry |
| ListSort.MoveKeepsSettled | src/libmowgli/container/list.c:415-428 | moving a node past another that is out of order keeps "everything smaller precedes it" for all nodes already dealt with |
| ListSort.SettledIsSorted | src/libmowgli/container/list.c:395-431 | when that holds of all nodes the list is sorted |
| ListSort.ShiftBackOk | src/libmowgli/container/list.c:419-423 | taking the outer node in front of the inner one keeps what both running iterators rely on |
| ListSort.ShiftForthOk | src/libmowgli/container/list.c:424-428 | taking it behind does |
| List.WalkEnds | src/libmowgli/container/list.c:404-429 | after the inner loop everything smaller than the outer node precedes it |
| List.BackStep | src/libmowgli/container/list.c:419-423 | a move backwards is progress of the inner loop |
| List.ForthStep | src/libmowgli/container/list.c:424-428 | a move forwards is |
| List.List.NodeAdd | src/libmowgli/container/list.c:71-104 | the node is last |
| List.List.NodeAddHead | src/libmowgli/container/list.c:108-132 | the node is first |
| List.List.NodeAddBefore | src/libmowgli/container/list.c:136-161 | the node is in front of the given one, or last |
| List.List.NodeAddAfter | src/libmowgli/container/list.c:165-183 | the node is behind the given one, or last |
| List.List.NodeDelete | src/libmowgli/container/list.c:257-276 | the node is gone, the others keep their order, and its own links still hold |
| List.List.NodeIndex | src/libmowgli/container/list.c:240-253 | the position of a node, or -1 |
| List.List.SwapLinks | src/libmowgli/container/list.c:380-386 | every node has its two links exchanged although the loop follows them |
| List.List.Reverse | src/libmowgli/container/list.c:374-391 | the nodes in reverse order |
| List.List.MoveBack | src/libmowgli/container/list.c:419-423 | deleting a node and adding it before another is one move |
| List.List.MoveForth | src/libmowgli/container/list.c:424-428 | deleting a node and adding it after another is one move |
| List.List.InnerStep | src/libmowgli/container/list.c:406-428 | one step of the inner loop keeps the invariant and makes progress |
| List.List.InnerWalk | src/libmowgli/container/list.c:404-429 | the inner loop ends, settles its node, and leaves the outer iterator with only dealt-with nodes before it |
| List.List.Sort | src/libmowgli/container/list.c:395-431 | sorting ends and leaves a well-formed list of the same nodes with the same data, in order, for every consistent comparator |
| JsonValue.AddMemberSorted | src/libmowgli/ext/json-inline.h:91-95 | adding a member keeps the members in key order |
| JsonValue.LookupAdded | src/libmowgli/ext/json-inline.h:91-95 | a key already present keeps its value; another key gets the new one |
| JsonValue.BuildObjectIs | src/libmowgli/ext/json.c:857-885 | collecting members from the last to the first leaves, for every key, the value of its last occurrence |
| JsonValue.BuildSorted | src/libmowgli/ext/json.c:857-885 | members already in key order are kept as they are |
| JsonGrammar.Table | src/libmowgli/ext/json.c:646-712 | a table entry names a rule of that symbol, and following it always goes down a rank, so expansion ends |
| JsonGrammar.TableSelects | src/libmowgli/ext/json.c:646-742 | the LL(1) condition: a token that can begin a right-hand side selects that rule |
| JsonGrammar.YieldStarts | src/libmowgli/ext/json.c:646-742 | every derivation begins with a token its symbol can start with |
| JsonMachine.RunTwice | src/libmowgli/ext/json.c:980-1028 | a run over two pieces is a run over the first and then over the second |
| JsonMachine.FollowsTree | src/libmowgli/ext/json.c:980-1028 | the parser follows every derivation of the symbol on top of its stack, with its actions |
| JsonMachine.AcceptedDerives | src/libmowgli/ext/json.c:980-1028 | an accepted run is the yield of derivations of the stacked symbols, and its build stack is their effect |
| JsonBuild.CloseObjectStops | src/libmowgli/ext/json.c:857-885 | closing an object collects the pairs above its own marker and no more |
| JsonBuild.CloseArrayStops | src/libmowgli/ext/json.c:894-913 | closing an array collects the values above its own marker and no more |
| JsonBuild.EffectOfValue | src/libmowgli/ext/json.c:844-913 | the actions of any derived value push exactly that value |
| JsonBuild.EffectOfMembers | src/libmowgli/ext/json.c:857-885 | the rest of an object replaces its marker and pairs by the object, later duplicates winning |
| JsonBuild.EffectOfElements | src/libmowgli/ext/json.c:894-913 | the rest of an array replaces its marker and values by the array |
| JsonStacks.AcceptsDerived | src/libmowgli/ext/json.c:980-1028 | a document of the grammar is accepted and leaves exactly the value of its derivation |
| JsonStacks.AcceptsExactly | src/libmowgli/ext/json.c:980-1028 | exactly the documents of the grammar are accepted |
| JsonStacks.RefusesEarly | src/libmowgli/ext/json.c:999-1009 | a token is refused exactly when no document continues with it |
| JsonStacks.ValueArrives | src/libmowgli/ext/json.c:844-848 | a value pushed where one is awaited couples the two stacks again |
| JsonStacks.EndObjectStops | src/libmowgli/ext/json.c:857-885 | with coupled stacks the end of an object meets its own marker |
| JsonStacks.EndArrayStops | src/libmowgli/ext/json.c:894-913 | with coupled stacks the end of an array meets its own marker |
| JsonStacks.ExpansionMirrors | src/libmowgli/ext/json.c:1011-1024 | every expansion with its action keeps the build stack coupled to the symbol stack |
| JsonStacks.ConsumeMirrors | src/libmowgli/ext/json.c:980-1028 | every accepted token does |
| JsonHeight.SlimHeight | src/libmowgli/ext/json.c:944-948 | a stack of the shape that occurs is at most three higher than the number of open containers |
| JsonHeight.PeakBound | src/libmowgli/ext/json.c:980-1028 | while a token is processed the symbol stack is never more than three higher than the containers open before it |
| JsonHeight.RunOpen | src/libmowgli/ext/json.c:980-1028 | along every accepted run the stack counts the open containers |
| JsonHeight.PeakExact | src/libmowgli/ext/json.c:1003-1024 | the exact greatest height while a token is processed: above the open containers three for a key, two for an opening bracket or a colon, none for a closing bracket, one for anything else |
| JsonHeight.TokenNeeds | src/libmowgli/ext/json.c:980-1028 | that height after any accepted tokens, in terms of their nesting |
| JsonHeight.BoundReached | src/libmowgli/ext/json.c:22 | a key in an object n + 2 deep makes the stack n + 5 high, so 126 deep would overrun the 128 slots |
| JsonText.HexReads | src/libmowgli/ext/json.c:344-354 | a byte written as two hexadecimal digits is read back |
| JsonText.ScanEscapedByte | src/libmowgli/ext/json.c:325-358 | an escaped byte is read back as that byte, and a NUL as nothing |
| JsonText.ScanEscaped | src/libmowgli/ext/json.c:314-362 | escaping and scanning gives every string without NUL bytes back |
| JsonText.DigitsRead | src/libmowgli/ext/json.c:292-299 | decimal digits are read back |
| JsonText.DecimalReads | src/libmowgli/ext/json.c:292-299 | every int is read back from its decimal text |
| StringBuffer.CopiedIs | src/libmowgli/core/mowgli_string.c:89-95 | growing copies the contents as a C string: all that follows the first NUL is zero |
| StringBuffer.CopiedWhole | src/libmowgli/core/mowgli_string.c:89-95 | it loses nothing if and only if nothing but zeros follows the first zero |
| StringBuffer.ZerosStay | src/libmowgli/core/mowgli_string.c:83-100 | however it grows, the length is the number of bytes appended and a zero stays a zero |
| StringBuffer.AppendedWhole | src/libmowgli/core/mowgli_string.c:83-100 | appending leaves exactly what was appended if and only if all contents copied on the way lose nothing |
| StringBuffer.StoredWhole | src/libmowgli/core/mowgli_string.c:83-100 | a new string is what was appended to it if and only if, at each length 63, 127, 255 and so on that it passes, nothing but zeros follows its first zero |
| StringBuffer.LosesLetters | src/libmowgli/core/mowgli_string.c:89-95 | the failing input: one NUL byte and 63 letters |
| StringBuffer.StoredNulFree | src/libmowgli/core/mowgli_string.c:83-100 | so strings without NUL bytes never lose anything |
| JsonLexer.LexChar | src/libmowgli/ext/json.c:1167-1281 | tokens handed over are well formed, and a character is sent again only finitely often |
| JsonLexer.LexSpaces | src/libmowgli/ext/json.c:1199-1202 | white space between tokens vanishes |
| JsonLexer.LexEscaped | src/libmowgli/ext/json.c:1208-1249 | an escaped string goes into the buffer as it is written |
| JsonLexer.LexAnyQuoted | src/libmowgli/ext/json.c:1208-1224 | a quoted string is one string token, whose bytes are those of the escaped text as the new string keeps them |
| JsonLexer.LexQuoted | src/libmowgli/ext/json.c:1208-1224 | without NUL bytes it is the token of that string |
| JsonLexer.LexEnd | src/libmowgli/ext/json.c:1251-1275 | the character after a number or identifier ends it and is read again on its own |
| JsonLexer.LexWord | src/libmowgli/ext/json.c:1184-1193 | a number or identifier before a delimiter is one token |
| JsonLexer.LexDecimal | src/libmowgli/ext/json.c:1123-1132 | a serialized int is read as that int |
| JsonRoundTrip.TreeDerives | src/libmowgli/ext/json.c:487-540 | every value has a derivation in the grammar |
| JsonRoundTrip.TreeValue | src/libmowgli/ext/json.c:844-913 | the value of that derivation is the document |
| JsonRoundTrip.LexValue | src/libmowgli/ext/json.c:455-461 | the text of a value is read as the yield of its derivation, in every layout |
| JsonRoundTrip.LexElements | src/libmowgli/ext/json.c:371-391 | so are the elements of an array, with separators and indentation |
| JsonRoundTrip.LexMembers | src/libmowgli/ext/json.c:401-424 | so are the members of an object |
| JsonRoundTrip.LexContainer | src/libmowgli/ext/json.c:427-441 | so are whole arrays and objects |
| JsonParser.ParseSplit | src/libmowgli/ext/json.c:1359-1373 | parsing two pieces is parsing their concatenation |
| JsonParser.SplitAnywhere | src/libmowgli/ext/json.c:1359-1373 | the text may be split across calls in any way |
| JsonParser.ErrorIsStuck | src/libmowgli/ext/json.c:980-1028 | an error is raised exactly where the table has no entry or input follows the document |
| JsonParser.DocumentDone | src/libmowgli/ext/json.c:966-977 | a finished document is put out, and the parser is ready for the next one if there may be one |
| JsonParser.ParserIsExact | src/libmowgli/ext/json.c:980-1028 | output without an error exactly for the documents of the grammar; an error exactly when no document continues the tokens |
| JsonParser.RunMirrors | src/libmowgli/ext/json.c:980-1028 | after every accepted run the two stacks are coupled |
| JsonParser.ParsesWhatIsLexed | src/libmowgli/ext/json.c:1359-1373 | lexing and parsing character by character is parsing the tokens of the text |
| JsonParser.RoundTrip | src/libmowgli/ext/json.c:455-461 | parsing the serialization of any array or object, pretty or compact and split anywhere, gives that document and no error, if it has no NUL byte and while the lexer's string is taken to be unbounded; section 2 of RFC 4627 |
| JsonDepth.DocumentNeeds | src/libmowgli/ext/json.c:980-1028 | the run over a document of the grammar goes exactly as high as the slots of its derivation |
| JsonDepth.SlotsOfValue | src/libmowgli/ext/json.c:944-948 | the slots of a value: one more than its depth, or three more than its deepest object with members |
| JsonDepth.FitsByTokens | src/libmowgli/ext/json.c:1359-1373 | a text fits the stack if and only if its tokens do |
| JsonDepth.TokensFitByTop | src/libmowgli/ext/json.c:980-1028 | accepted tokens fit if and only if their run goes no higher than 128 |
| JsonDepth.DocumentFits | src/libmowgli/ext/json.c:22 | a document fits the 128 slots, in every layout, if and only if no container is nested deeper than 127 and no object with members deeper than 125 |
| JsonDepth.TheLimits | src/libmowgli/ext/json.c:22 | 127 nested arrays fit and 128 do not; an object with a member fits 125 deep and not 126 deep |
| JsonStream.ReadSplit | src/libmowgli/ext/json.c:1359-1373 | reading two pieces of input, with the string of the lexer growing as it does, is reading their concatenation |
| JsonStream.ReadAnywhere | src/libmowgli/ext/json.c:1359-1373 | so the input may be split across calls in any way |
| JsonStream.ReadNulFree | src/libmowgli/ext/json.c:1037-1040 | on input without NUL bytes the growth of the string changes nothing |
| JsonStream.TextNul | src/libmowgli/ext/json.c:314-362 | the text of a document has a NUL byte if and only if the document has |
| JsonStream.RoundTrip | src/libmowgli/ext/json.c:455-461 | parsing the serialization of any array or object without NUL bytes, in every layout and split anywhere, gives exactly that document and no error, whatever size the string of the lexer has grown to; section 2 of RFC 4627 |
| JsonReread.ReadsWhatIsLexed | src/libmowgli/ext/json.c:1359-1373 | reading input character by character is parsing the tokens that the lexer with its growing string reads |
| JsonReread.OnQuoted | src/libmowgli/ext/json.c:1208-1224 | a quoted string, whatever its bytes, is one token, of what the string of the lexer and the new string made from it keep |
| JsonReread.OnValue | src/libmowgli/ext/json.c:455-461 | the text of any value is read as the yield of the derivation of the value with each string as it is kept |
| JsonReread.WhatComesBack | src/libmowgli/ext/json.c:455-461 | parsing the serialization of any array or object, NUL bytes included, in every layout and split anywhere, gives the document with each string as it is kept, and no error |
| JsonReread.ShortString | src/libmowgli/ext/json.c:325-342 | a string whose escaped text is shorter than 64 bytes is read as it is if and only if it has no NUL byte |
| JsonReread.RereadIff | src/libmowgli/ext/json.c:325-342 | a document without NUL bytes is read as it is, and one with short strings only then |
| JsonReread.ShortComesBack | src/libmowgli/ext/json.c:455-461 | so a document with short strings comes back from mowgli_json_parse_data if and only if it has no NUL byte |
| JsonReread.NulIsLost | src/libmowgli/ext/json.c:325-342 | the failing input: an array of one string of one NUL byte is read as an array of the empty string |
| JsonReread.ManyNuls | src/libmowgli/ext/json.c:325-342 | with longer strings there are others: 62 NUL bytes are read as 62 NUL bytes |
| JsonCut.CStringIs | src/libmowgli/ext/json.c:1457 | what strlen leaves of a text: all before its first NUL |
| JsonCut.QuoteTokens | src/libmowgli/ext/json.c:1208-1224 | a quotation mark always leads to a token before the lexer comes to rest |
| JsonCut.CutText | src/libmowgli/ext/json.c:1450-1473 | the text of a document cut inside a string raises no error and yields nothing |
| JsonCut.CutDocument | src/libmowgli/ext/json.c:1450-1473 | the text of a document with a NUL byte, taken as a C string, raises no error and yields nothing |
| JsonReader.ScanEscape | src/libmowgli/ext/json.c:1057-1096 | one escape sequence: its bytes and where it ends, as the function of JsonSpelling.SpelledExactly has it |
| JsonReader.ScanString | src/libmowgli/ext/json.c:1043-1106 | the loop computes the bytes the string token stands for, by JsonSpelling.SpelledExactly those it spells, as a new string keeps them |
| JsonReader.Parse.constructor | src/libmowgli/ext/json.c:1284-1301 | a new parser |
| JsonReader.Parse.Reset | src/libmowgli/ext/json.c:1323-1356 | a used parser is as new |
| JsonReader.Parse.LlPush | src/libmowgli/ext/json.c:944-948 | the symbol is on top of the array stack |
| JsonReader.Parse.LlPop | src/libmowgli/ext/json.c:950-957 | the top symbol is taken off |
| JsonReader.Parse.ActObjEnd | src/libmowgli/ext/json.c:857-885 | the loop over the build list is the closing of the object |
| JsonReader.Parse.ActArrEnd | src/libmowgli/ext/json.c:894-913 | the loop over the build list is the closing of the array |
| JsonReader.Parse.PushRhs | src/libmowgli/ext/json.c:1018-1024 | a right-hand side is pushed with its first symbol on top |
| JsonReader.Parse.LlCycle | src/libmowgli/ext/json.c:966-977 | the finished value goes to the output |
| JsonReader.Parse.Expand | src/libmowgli/ext/json.c:1003-1024 | one expansion keeps stacks coupled and within bounds and goes on with the same token |
| JsonReader.Parse.Match | src/libmowgli/ext/json.c:989-997 | the matched token; the last one ends the document |
| JsonReader.Parse.LlParse | src/libmowgli/ext/json.c:980-1028 | the loop ends, stays within the array, and is one step of the pushdown machine |
| JsonReader.Parse.Buffered | src/libmowgli/ext/json.c:1112-1147 | the token of the buffered text |
| JsonReader.Parse.LexTokenize | src/libmowgli/ext/json.c:1109-1163 | the buffered text becomes its token and is parsed |
| JsonReader.Parse.LexAppend | src/libmowgli/ext/json.c:1037-1040 | the character is appended, the string growing as it does |
| JsonReader.Parse.LexLimbo | src/libmowgli/ext/json.c:1172-1206 | a character between tokens |
| JsonReader.Parse.LexCharacter | src/libmowgli/ext/json.c:1167-1281 | one character is one step of the lexer, with its tokens parsed and its string grown |
| JsonReader.Parse.SendCharacter | src/libmowgli/ext/json.c:1368-1369 | a character sent until the lexer has had enough of it |
| JsonReader.Parse.ParseData | src/libmowgli/ext/json.c:1359-1373 | a piece of input, up to the first error, is read as the function does of which JsonReading.ReadsEverySpelling, JsonPhrase.DocumentsArePhrases and JsonStream.RoundTrip say what it gives, and the parser stays valid |
| JsonReader.Parse.ParseNext | src/libmowgli/ext/json.c:1391-1394 | the oldest finished document, or none |
| JsonReader.Parse.ParseString | src/libmowgli/ext/json.c:1450-1473 | the document of a text, as far as its first NUL, or none |
| JsonWriter.SerializePrettyIndent | src/libmowgli/ext/json.c:259-265 | four spaces per level |
| JsonWriter.SerializeByte | src/libmowgli/ext/json.c:323-358 | one byte, escaped if it has to be |
| JsonWriter.SerializeStringData | src/libmowgli/ext/json.c:314-362 | the quoted string |
| JsonWriter.SerializeItem | src/libmowgli/ext/json.c:380-386 | one element with indentation, separator and line break |
| JsonWriter.SerializeArray | src/libmowgli/ext/json.c:371-391 | the text of an array |
| JsonWriter.SerializeMember | src/libmowgli/ext/json.c:401-424 | one member, with a comma while members remain |
| JsonWriter.SerializeObject | src/libmowgli/ext/json.c:427-441 | the text of an object |
| JsonWriter.Serialize | src/libmowgli/ext/json.c:455-461 | the text of the document is appended to the sink |
| JsonWriter.PrintAndParse | src/libmowgli/ext/json.c:455-461 | serializing a document and handing its text to mowgli_json_parse_string gives the document back if it has no NUL byte, and nothing otherwise |
| JsonPhrase.PhraseDerives | src/libmowgli/ext/json.c:487-540 | every phrase, as arrays and objects of words are written in sections 2 to 2.3 of RFC 4627, is a document of the grammar, and the value of its derivation is what the phrase means |
| JsonPhrase.DocumentsArePhrases | src/libmowgli/ext/json.c:487-540 | the documents of the grammar are exactly the phrases: brackets around values separated by single commas, keys with a colon |
| JsonSpelling.SpelledScans | src/libmowgli/ext/json.c:1043-1106 | every string of characters spelled as section 2.5 of RFC 4627 allows, each as itself, as one of the eight short escapes, or as four hexadecimal digits of either case, is read as the lowest eight bits of these characters |
| JsonSpelling.SpelledExactly | src/libmowgli/ext/json.c:1087 | it is read as spelled if and only if no character is beyond 255 |
| JsonSpelling.BeyondAByte | src/libmowgli/ext/json.c:1087 | the failing input: U+0141 is read as the letter A |
| JsonReading.ReadsNumber | src/libmowgli/ext/json.c:1123-1132 | a number spelled as in section 2.4 of RFC 4627 before a delimiter is one token of its value; an integer that fits is that integer |
| JsonReading.ReadsNumberExactly | src/libmowgli/ext/json.c:1123-1127 | a number that fits is read so if and only if its exponent has no plus sign and it is an integer or has a point or a small e |
| JsonReading.WholeRead | src/libmowgli/ext/json.c:1128 | an integer of any size is read as itself if and only if it fits an int, and while it fits a long, as its number modulo 2^32 |
| JsonReading.WideInDocument | src/libmowgli/ext/json.c:1128 | the failing input: [4294967296] is read as [0] |
| JsonReading.PlusInDocument | src/libmowgli/ext/json.c:1253 | the failing input: [1e+5] is refused |
| JsonReading.CapitalInDocument | src/libmowgli/ext/json.c:1123-1127 | the failing input: [1E5] is read as [1] |
| JsonReading.ReadsString | src/libmowgli/ext/json.c:1208-1224 | a spelled string without NUL is one token of what it spells |
| JsonReading.ReadsEverySpelling | src/libmowgli/ext/json.c:1359-1373 | every spelling of every document, with any white space, any of the escapes and any readable numbers, gives exactly the document it means, and no error |
| JsonReading.ReadsAsString | src/libmowgli/ext/json.c:1450-1473 | so does handing it to mowgli_json_parse_string |
| JsonReading.TextIsPhrase | src/libmowgli/ext/json.c:1359-1373 | text whose tokens can be formed is a document for the parser if and only if these tokens are the words of a phrase |
| JsonReading.WordsExactly | src/libmowgli/ext/json.c:1133-1147 | a word of letters is read as what it spells if and only if it is null, true or false; any other is read as null |
| JsonReading.AnyWordInDocument | src/libmowgli/ext/json.c:1133-1147 | the failing input: [nul] is read as [null] |
| JsonReading.OtherEscape | src/libmowgli/ext/json.c:1093-1094 | an escape that is none of those is left out |
| JsonReading.Starts | src/libmowgli/ext/json.c:1172-1206 | a character between tokens is no error if and only if it is white space or starts a token; a text that begins with another one is refused |
| JsonPrinting.TextSpells | src/libmowgli/ext/json.c:314-461 | what is written for any array or object without floats and NUL bytes is a spelling of that document, in every layout |
| JsonPrinting.Escapes | src/libmowgli/ext/json.c:314-358 | the escapes that are written, as text |
| JsonPrinting.EscapedItself | src/libmowgli/ext/json.c:325-358 | a byte is written as itself exactly if it is between 0x20 and 0x7f and no quotation mark or backslash |
| JsonPrinting.Literals | src/libmowgli/ext/json.c:283-289 | null, true and false |
| JsonPrinting.Layouts | src/libmowgli/ext/json.c:364-441 | a document on one line, and the same one indented |
| Rotation.Gcd | src/libmowgli/ext/getopt_long.c:92-107 | the loop computes a common divisor that is a combination of both numbers |
| Rotation.GreatestDivisor | src/libmowgli/ext/getopt_long.c:92-107 | so it is the greatest |
| Rotation.PosResidue | src/libmowgli/ext/getopt_long.c:130-140 | a cycle stays in its residue class, inside the two blocks |
| Rotation.PosDistinct | src/libmowgli/ext/getopt_long.c:135-140 | the positions of one cycle are different |
| Rotation.PosCovers | src/libmowgli/ext/getopt_long.c:130-140 | every position is on the cycle of its residue: the cycles partition the range |
| Rotation.PosCloses | src/libmowgli/ext/getopt_long.c:135-140 | a cycle closes after its length and not before |
| Permute.NextSwap | src/libmowgli/ext/getopt_long.c:142-144 | one swap moves one argument to where it belongs |
| Permute.CycleDone | src/libmowgli/ext/getopt_long.c:135-145 | after the swaps of a cycle all its arguments are where they belong |
| Permute.BlocksExchanged | src/libmowgli/ext/getopt_long.c:115-147 | after all cycles the blocks are exchanged, each in its old order |
| Permute.CycledExchanges | src/libmowgli/ext/getopt_long.c:115-147 | the function the loops compute is the exchange |
| Permute.Cycles | src/libmowgli/ext/getopt_long.c:125-128 | number and length of the cycles |
| Permute.RunCycle | src/libmowgli/ext/getopt_long.c:132-145 | the inner loop |
| Permute.RunCycles | src/libmowgli/ext/getopt_long.c:130-146 | the outer loop |
| Permute.PermuteArgs | src/libmowgli/ext/getopt_long.c:115-147 | for any two adjacent non-empty blocks the swaps exchange them, keep the order in each, and touch nothing else |
| Getopt.Letter | src/libmowgli/ext/getopt_long.c:258-334 | one letter completes at most two arguments and never runs past the vector; its last letter always completes one |
| Getopt.OneKind | src/libmowgli/ext/getopt_long.c:258-306 | every letter is unknown, plain, with an argument or with an optional one: exactly as no place in the option string, or no, one or two colons after its first place, say |
| Getopt.LetterMeans | src/libmowgli/ext/getopt_long.c:258-334 | what a letter reports and how many arguments it completes, decided by the option string and the vector alone |
| Getopt.ScanIs | src/libmowgli/ext/getopt_long.c:154-338 | a whole scan reports what a left-to-right reading of the vector by the option string says, and nothing else does |
| Getopt.ArgumentTaken | src/libmowgli/ext/getopt_long.c:314-333 | p -o file with the option o and one colon reports o with the argument file |
| Getopt.ScanCovers | src/libmowgli/ext/getopt_long.c:155-338 | every argument ends up in exactly one of the groups options, non-options, tail |
| Getopt.Run | src/libmowgli/ext/getopt_long.c:346-379 | over a whole run the vector ends as options with their arguments, then non-options, then the tail, each in old order, with the index behind the options; the events are those of a left-to-right reading by the option string; the vector is a permutation. Vector, index and events are as intended if and only if the argument taken for the end of the options, if any, is "--" |
| Getopt.DashesIff | src/libmowgli/ext/getopt_long.c:248-255 | the code scans as if only "--" ended the options if and only if the argument at which it ends them, if any, is "--"; otherwise it reports fewer events |
| Getopt.DashesDiffer | src/libmowgli/ext/getopt_long.c:248-255 | the failing input: for "--x" with the option x it reports nothing, where two letters stand |
| Getopt.Permuted | src/libmowgli/ext/getopt_long.c:346-379 | the three groups together are a permutation of the vector |
| Getopt.Scanner.constructor | src/libmowgli/ext/getopt_long.c:154-174 | a fresh scan |
| Getopt.Scanner.MoveBlock | src/libmowgli/ext/getopt_long.c:235-236 | the skipped non-options move behind the options that follow them |
| Getopt.Scanner.EndOfArgs | src/libmowgli/ext/getopt_long.c:182-204 | at the end of the vector the permutation is completed |
| Getopt.Scanner.SkipNonOption | src/libmowgli/ext/getopt_long.c:206-246 | a non-option joins its block, after an earlier block was moved up to it |
| Getopt.Scanner.TakeOption | src/libmowgli/ext/getopt_long.c:248-255 | the first option after a block ends that block |
| Getopt.Scanner.NextArgument | src/libmowgli/ext/getopt_long.c:176-256 | scanning forward to an option, two dashes or the end, nothing reported |
| Getopt.Scanner.ScanLetter | src/libmowgli/ext/getopt_long.c:258-337 | the next letter of a cluster: its event is what the option string makes it mean, and it completes as many arguments |
| Getopt.Scanner.NextLetter | src/libmowgli/ext/getopt_long.c:258-337 | it adds one event and keeps the layout |
| Getopt.Scanner.GetoptInternal | src/libmowgli/ext/getopt_long.c:154-338 | one call reports the next event of the scan and keeps the three marks ordered and the vector a rearrangement of the original |
| Getopt.Scanner.Getopt | src/libmowgli/ext/getopt_long.c:346-379 | one call of the permuting getopt |
| Getopt.Scanner.EndAtDashes | src/libmowgli/ext/getopt_long.c:359-376 | two dashes end the options and complete the permutation |
| Getopt.Scanner.ToEnd | src/libmowgli/ext/getopt_long.c:346-379 | calls until the end report all events |
| Common.ToInt | src/libmowgli/base/random.c:154 | an unsigned sum stored into an int: it fits, is the same modulo 2^32, and a value that fits is kept |
| Words.SumIs | src/libmowgli/base/random.c:76-80 | adding 32-bit words adds their numbers modulo 2^32 |
| Words.WordIs | src/libmowgli/base/random.c:76-80 | a number below 2^32 is the number of its word |
| RandomAnswers.SeedStepIs | src/libmowgli/base/random.c:76-80 | a step of seeding is 1812433253 times the mixed word plus the index, modulo 2^32 |
| RandomAnswers.FoldBits | src/libmowgli/base/random.c:80 | the two upper bits of the word are mixed into the two lower ones |
| RandomAnswers.FoldKeeps | src/libmowgli/base/random.c:80 | and the other bits stay |
| RandomAnswers.TwistBits | src/libmowgli/base/random.c:101-102 | bit for bit: the upper bit of one word and the lower ones of the next move down by one, and 0x9908b0df is mixed in exactly if the lowest was set |
| RandomAnswers.Copy11 | src/libmowgli/base/random.c:119 | bit for bit: the first copy that tempering mixes in |
| RandomAnswers.Copy7 | src/libmowgli/base/random.c:120 | the second, masked |
| RandomAnswers.Copy15 | src/libmowgli/base/random.c:121 | the third, masked |
| RandomAnswers.Copy18 | src/libmowgli/base/random.c:122 | the fourth |
| RandomAnswers.FirstSeeded | src/libmowgli/base/random.c:73-84 | for the seed 5489 the word after the seed is 1301868182 |
| RandomAnswers.FirstOutput | src/libmowgli/base/random.c:88-125 | the first output for the seed 5489 is 3499211612, as with the reference implementation |
| RandomAnswers.SecondOutput | src/libmowgli/base/random.c:88-125 | the second is 581869302 |
| Random.Inverse18 | src/libmowgli/base/random.c:122 | the last tempering step can be undone |
| Random.Inverse15 | src/libmowgli/base/random.c:121 | the third can |
| Random.Inverse7 | src/libmowgli/base/random.c:120 | the second can, by repeated correction |
| Random.Inverse11 | src/libmowgli/base/random.c:119 | the first can |
| Random.TemperIsBijection | src/libmowgli/base/random.c:118-122 | tempering is a bijection on 32-bit words |
| Random.AcceptBound | src/libmowgli/base/random.c:130-145 | the computation within 32 bits gives the greatest bound below which the words fill whole widths: 2^32 less the remainder of 2^32, less one |
| Random.AcceptedIsLargestMultiple | src/libmowgli/base/random.c:133-145 | the number of accepted words is the largest multiple of the width up to 2^32, and more than half of all words |
| Random.PreimageCount | src/libmowgli/base/random.c:147-152 | a block of so many widths contains each remainder equally often |
| Random.ResultsEquallyLikely | src/libmowgli/base/random.c:147-152 | every result has equally many accepted words |
| Random.InRange | src/libmowgli/base/random.c:152-154 | the result lies in [begin, end) when begin < end |
| Random.Generator.constructor | src/libmowgli/base/random.c:60-69 | a new generator |
| Random.Generator.Reseed | src/libmowgli/base/random.c:73-84 | the state is the first 624 terms of the sequence of the seed |
| Random.Generator.Regenerate | src/libmowgli/base/random.c:95-114 | the three in-place loops replace the block by the next 624 terms of the infinite recurrence, whose twist is that of RandomAnswers.TwistBits |
| Random.Generator.RandomInt | src/libmowgli/base/random.c:88-125 | the k-th output is the tempered term 624 + k, for every seed and every k; RandomAnswers pins the recurrence |
| Random.Generator.DrawUpTo | src/libmowgli/base/random.c:147-150 | the first word not above the bound |
| Random.Generator.RandomIntRanged | src/libmowgli/base/random.c:128-155 | begin plus the remainder of the first accepted word; in [begin, end) when begin < end |
| DnsNames.ParseEscaped | src/libmowgli/dns/evloop_reslib.c:657-701 | an escaped octet is read as that octet; escapes of section 5.1 of RFC 1035 |
| DnsNames.ParseLabel | src/libmowgli/dns/evloop_reslib.c:634-761 | so is the text of a label |
| DnsNames.ParseDotted | src/libmowgli/dns/evloop_reslib.c:703-752 | so are the labels of a name |
| DnsNames.RoundTrip | src/libmowgli/dns/evloop_reslib.c:622-799 | the text of every legal name, the root included, is parsed back into the identical wire name |
| DnsNames.TextFits | src/libmowgli/dns/evloop_reslib.c:268-394 | the text of a legal name with its terminator fits 1025 bytes |
| DnsText.PutOctet | src/libmowgli/dns/evloop_reslib.c:336-371 | one octet with its escape, refused exactly when it does not fit |
| DnsText.PutLabel | src/libmowgli/dns/evloop_reslib.c:334-372 | the octets of a label |
| DnsText.Ntop | src/libmowgli/dns/evloop_reslib.c:269-394 | the loop writes the text of the name and its terminator; it fails exactly when they do not fit |
| DnsText.FinishLabel | src/libmowgli/dns/evloop_reslib.c:763-798 | the last label gets its length, and a root after it |
| DnsText.ParseText | src/libmowgli/dns/evloop_reslib.c:623-799 | the loop over the text and the buffer is the parsing function, errors included |
| DnsText.PrintAndParse | src/libmowgli/dns/evloop_reslib.c:269-394 | printing a legal name into 1025 bytes succeeds and parsing the text gives the name back |
| DnsExpand.Expand | src/libmowgli/dns/evloop_reslib.c:164-257 | expansion ends on every message, pointer cycles included, and its output stays within the buffer |
| DnsExpand.Target | src/libmowgli/dns/evloop_reslib.c:220 | a pointer is two octets, 0xC000 and the offset |
| DnsExpand.Unpack | src/libmowgli/dns/evloop_reslib.c:164-257 | the loop computes that expansion |
| DnsExpand.Skip | src/libmowgli/dns/evloop_reslib.c:428-473 | the loop computes where the name ends |
| DnsExpand.SkipAgrees | src/libmowgli/dns/evloop_reslib.c:428-473 | a successful expansion consumes exactly what skipping consumes |
| DnsExpand.LenIsKept | src/libmowgli/dns/evloop_reslib.c:164-257 | the octets consumed are settled by the first pointer |
| DnsExpand.ExpandReads | src/libmowgli/dns/evloop_reslib.c:164-257 | a name whose pointers lead backwards is expanded to itself: the loop check cannot refuse it |
| DnsExpand.NameAtFrame | src/libmowgli/dns/evloop_reslib.c:164-257 | octets written behind a name do not matter to it |
| DnsExpand.Rebase | src/libmowgli/dns/evloop_reslib.c:1108-1150 | every suffix of a name is a name |
| DnsSpelling.EverySpelling | src/libmowgli/dns/evloop_reslib.c:622-799 | every spelling of a legal name, each octet as itself, after a backslash, or as a backslash and three decimal digits, is parsed to that name, and with a final dot to the same name, fully qualified; section 5.1 of RFC 1035 |
| DnsSpelling.QualifiedText | src/libmowgli/dns/evloop_reslib.c:703-752 | so is the printed text of any legal name but the root with a final dot |
| DnsSpelling.NothingElse | src/libmowgli/dns/evloop_reslib.c:622-799 | whatever is parsed is such a spelling of the name it is parsed to, but for one backslash that may be left over at the end |
| DnsSpelling.PrintedAs | src/libmowgli/dns/evloop_reslib.c:285-372 | an octet is printed as itself exactly if it is visible and not one of eight, and as three digits exactly if it is not visible |
| DnsSpelling.DottedSpells | src/libmowgli/dns/evloop_reslib.c:268-394 | what is printed is a spelling |
| DnsReading.ReadIsExpanded | src/libmowgli/dns/evloop_reslib.c:164-257 | the labels met from a place on, over pointers in any direction, are expanded if they fit and the way up to the last pointer is shorter than the message |
| DnsReading.ExpandedIsRead | src/libmowgli/dns/evloop_reslib.c:164-257 | whatever is expanded is met in this way |
| DnsReading.ExpandsExactly | src/libmowgli/dns/evloop_reslib.c:164-257 | so expansion gives a name if and only if it is met in this way |
| DnsReading.NoWayOut | src/libmowgli/dns/evloop_reslib.c:232-241 | nothing is met from a pointer to itself |
| DnsReading.RefusedWithoutLoop | src/libmowgli/dns/evloop_reslib.c:232-241 | the failing input: a name without a loop that is refused, because all octets of the message are pointers on the way |
| DnsPack.LowerIsAlike | src/libmowgli/dns/evloop_reslib.c:1161-1168 | two octets are taken for the same exactly if they are, or are the two cases of one ASCII letter |
| DnsPack.SameIs | src/libmowgli/dns/evloop_reslib.c:1126-1128 | names are taken for the same exactly if they agree in length and label by label |
| DnsPack.LetterlessSame | src/libmowgli/dns/evloop_reslib.c:1126-1128 | names without letters only if they are identical |
| DnsPack.SameOctets | src/libmowgli/dns/evloop_reslib.c:1126-1128 | octets compared without ASCII case |
| DnsPack.SameNameAt | src/libmowgli/dns/evloop_reslib.c:1113-1146 | the comparison that follows pointers decides equality up to ASCII case |
| DnsPack.FindIn | src/libmowgli/dns/evloop_reslib.c:1100-1150 | the suffixes spelled out in one saved name |
| DnsPack.LegalLength | src/libmowgli/dns/evloop_reslib.c:845-872 | legal exactly up to 255 octets |
| DnsPack.LabelsBefore | src/libmowgli/dns/evloop_reslib.c:902-934 | labels written before a name make a longer name |
| DnsPack.PointerEnds | src/libmowgli/dns/evloop_reslib.c:895-897 | labels and a pointer make the name |
| DnsPack.Message.Find | src/libmowgli/dns/evloop_reslib.c:1092-1155 | an offset below 0x4000 of a name equal up to case, or none is spelled out in a saved name |
| DnsPack.Message.TryPointer | src/libmowgli/dns/evloop_reslib.c:887-899 | a pointer ends the name if the rest of it is found and there is room |
| DnsPack.Message.PutPointer | src/libmowgli/dns/evloop_reslib.c:895-897 | the two octets of the pointer; earlier names are untouched |
| DnsPack.Message.PutRoot | src/libmowgli/dns/evloop_reslib.c:918-920 | the root label ends the name |
| DnsPack.Message.Commit | src/libmowgli/dns/evloop_reslib.c:886-910 | the name becomes part of the message |
| DnsPack.Message.Cleanup | src/libmowgli/dns/evloop_reslib.c:926-935 | a failed name leaves no saved pointer behind |
| DnsPack.Message.Put | src/libmowgli/dns/evloop_reslib.c:1177-1220 | other content between names |
| DnsPack.Message.Pack | src/libmowgli/dns/evloop_reslib.c:819-938 | labels that cannot be found are written out, then a pointer or a root; the octets used are exactly these, it fails exactly when the name is too long or they do not fit, and earlier names are untouched |
| DnsPack.Message.PackedExpands | src/libmowgli/dns/evloop_reslib.c:164-257 | after packing any sequence of names, expanding at each start gives that name, octet by octet the same or the other case of the same letter, identical if it has no letters, and consumes exactly the octets it was packed into; section 4.1.4 of RFC 1035 |
| DnsComp.PtonIsName | src/libmowgli/dns/evloop_reslib.c:622-799 | every text that is accepted is parsed to the wire form of a legal name |
| DnsComp.ExpandIsName | src/libmowgli/dns/evloop_reslib.c:164-257 | whatever is expanded is the wire form of a name |
| DnsComp.TakesSome | src/libmowgli/dns/evloop_reslib.c:164-257 | an expansion consumes at least one octet |
| DnsComp.WireOfOne | src/libmowgli/dns/evloop_reslib.c:164-257 | a wire form belongs to one name |
| DnsComp.Outcomes | src/libmowgli/dns/evloop_reslib.c:164-257 | expansion at a position has exactly one outcome: refused, or one legal name and how many octets it took |
| DnsComp.DnExpand | src/libmowgli/dns/evloop_reslib.c:123-155 | the text of the name that stands there, the root as the empty string, if it fits; how many octets it took; -1 exactly otherwise |
| DnsComp.DnComp | src/libmowgli/dns/evloop_reslib.c:401-405 | the name of the text is packed; -1 if and only if the text is refused or the message has no room for the octets that are not to be found in it |
| DnsComp.SameText | src/libmowgli/dns/evloop_reslib.c:123-155 | names equal up to ASCII case have texts equal up to ASCII case |
| DnsComp.ComesBack | src/libmowgli/dns/evloop_reslib.c:123-155 | every name compressed into a message is expanded, at any later time, to its text, octet by octet the same or the other case of the same letter, identical without letters, and fits 1025 bytes |
| DnsComp.CompressAndExpand | src/libmowgli/dns/evloop_reslib.c:939-949 | a text compressed and expanded again gives the text of the name it stands for, up to ASCII case, and the same number of octets; a text as printing gives it comes back itself |
| DnsComp.PrintedIsItself | src/libmowgli/dns/evloop_reslib.c:267-394 | a text as printing gives it stands for the name it was printed from, and no other |
| Heap.TakeChained | src/libmowgli/core/heap.enabled.c:323-329 | pulling the first free slot leaves a chained list |
| Heap.GiveChained | src/libmowgli/core/heap.enabled.c:380-383 | putting a slot back does |
| Heap.FullFromHead | src/libmowgli/core/heap.enabled.c:314-319 | if the first block is full all are |
| Heap.Changed | src/libmowgli/core/heap.enabled.c:332-346 | a block keeping some free slot may stay where it is |
| Heap.Joined | src/libmowgli/core/heap.enabled.c:338-346 | a block with free slots may join at the head, a full one at the end |
| Heap.PageElemsEnough | src/libmowgli/core/heap.enabled.c:207-217 | rounding to the fewest pages that suffice never lowers the number of elements, overruns no page and wastes less than one element |
| Heap.AllSlotsFree | src/libmowgli/core/heap.enabled.c:390-397 | a block with nothing allocated has all its slots free |
| Heap.Block.constructor | src/libmowgli/core/heap.enabled.c:118-134 | a new block chains all its slots |
| Heap.Block.Take | src/libmowgli/core/heap.enabled.c:323-333 | the first free slot, marked used |
| Heap.Block.Give | src/libmowgli/core/heap.enabled.c:380-387 | the slot in front of the free list |
| Heap.Heap.constructor | src/libmowgli/core/heap.enabled.c:174-246 | an empty heap with at least as many elements per block as asked for, and at least two |
| Heap.Heap.Expand | src/libmowgli/core/heap.enabled.c:87-140 | one wholly free block more, unless there is one |
| Heap.Heap.SlotExists | src/libmowgli/core/heap.enabled.c:314-323 | if any slot is free, the head of the list or the spare block has one |
| Heap.Heap.TakeFrom | src/libmowgli/core/heap.enabled.c:328-333 | the slot was not live and now is; the counts follow |
| Heap.Heap.MoveBlock | src/libmowgli/core/heap.enabled.c:338-346 | a block moves to the head or the end, the others in order |
| Heap.Heap.AllocFromHead | src/libmowgli/core/heap.enabled.c:314-346 | a slot of the first block, which goes to the end when it is full |
| Heap.Heap.AllocFromEmpty | src/libmowgli/core/heap.enabled.c:318-341 | a slot of the spare block, which joins the list |
| Heap.Heap.Alloc | src/libmowgli/core/heap.enabled.c:285-355 | a slot that was not live; a new block is made only if none was free |
| Heap.Heap.GiveTo | src/libmowgli/core/heap.enabled.c:380-387 | the slot is free again |
| Heap.Heap.Shrink | src/libmowgli/core/heap.enabled.c:144-170 | the spare block is given back |
| Heap.Heap.Spare | src/libmowgli/core/heap.enabled.c:390-397 | a wholly free block becomes the spare one |
| Heap.Heap.Free | src/libmowgli/core/heap.enabled.c:359-406 | exactly that slot stops being live; blocks with free slots stay in front, and at most one block is wholly free |
| Timer.FiredLog | src/libmowgli/eventloop/timer.c:101-123 | a due timer that fires now was not early and its periods are kept |
| Timer.EventLoop.Add | src/libmowgli/eventloop/timer.c:27-56 | the timer is last, due after its wait; the cached deadline is still no later than any active timer |
| Timer.EventLoop.Destroy | src/libmowgli/eventloop/timer.c:74-84 | the timer is off the list, the cached deadline still right |
| Timer.EventLoop.NextTimer | src/libmowgli/eventloop/timer.c:128-153 | the time to sleep until is unset only with no active timer, and never later than any |
| Timer.EventLoop.Reschedule | src/libmowgli/eventloop/timer.c:107-114 | a periodic timer is due one period from now |
| Timer.EventLoop.Finish | src/libmowgli/eventloop/timer.c:107-121 | a one-shot timer that fired is gone |
| Timer.EventLoop.Fire | src/libmowgli/eventloop/timer.c:101-122 | one due timer fires; only its history grows |
| Timer.EventLoop.StepRun | src/libmowgli/eventloop/timer.c:97-123 | one round of the loop: the remembered next timer is the next of the old ones |
| Timer.EventLoop.StepList | src/libmowgli/eventloop/timer.c:97-123 | what the list holds after each round |
| Timer.EventLoop.RunTimers | src/libmowgli/eventloop/timer.c:88-124 | each timer that was due fires exactly once, now, and no other old timer; periodic ones are due a period later, one-shot ones gone, all others unchanged; over every run no timer is early and a one-shot fires at most once |
| Resolver.RemovedOk | src/libmowgli/dns/evloop_res.c:503-512 | removing a request keeps the identifiers apart |
| Resolver.ReplacedOk | src/libmowgli/dns/evloop_res.c:746-758 | changing one in place does, if it takes no other identifier |
| Resolver.AddedOk | src/libmowgli/dns/evloop_res.c:518-531 | a new request, not yet sent, does |
| Resolver.OnlyOne | src/libmowgli/dns/evloop_res.c:617-632 | a nonzero identifier belongs to one request |
| Resolver.UnusedExists | src/libmowgli/dns/evloop_res.c:752-756 | fewer requests than identifiers leave one unused |
| Resolver.SweepKept | src/libmowgli/dns/evloop_res.c:445-450 | a request that stays, in the sweep for timeouts |
| Resolver.SweepAnswered | src/libmowgli/dns/evloop_res.c:434-439 | a request that goes |
| Resolver.SweepEnd | src/libmowgli/dns/evloop_res.c:453 | the time returned is right if and only if nothing was asked again |
| Resolver.SurvivedKept | src/libmowgli/dns/evloop_res.c:440-447 | a kept request is unchanged, or deferred |
| Resolver.TurnReaches | src/libmowgli/dns/evloop_res.c:589-607 | every server gets its turn |
| Resolver.TurnMoves | src/libmowgli/dns/evloop_res.c:587-589 | the first send begins with the first server, and each later one begins one server further on, in a circle |
| Resolver.MixedIsSum | src/libmowgli/dns/evloop_res.c:752-756 | an identifier is the sum of the random numbers drawn, modulo 2^16 |
| Resolver.CallsOf | src/libmowgli/dns/evloop_res.c:436-437 | the count of answers of a query is the number of its callback calls in the log |
| Resolver.DueAtTwelve | src/libmowgli/dns/evloop_res.c:440-447 | one request sent at second 0 and asked again at second 4 is due at second 12 |
| Resolver.LooksTooLate | src/libmowgli/dns/evloop_res.c:418-454 | the failing input for the returned time: for that request it is 604 |
| Resolver.Resolver.constructor | src/libmowgli/dns/evloop_res.c:99-152 | an empty table |
| Resolver.Resolver.AnsweredOnce | src/libmowgli/dns/evloop_res.c:417-454 | over every run the callback of a query is called at most once, and not after it was cancelled; while neither, it waits |
| Resolver.Resolver.FindId | src/libmowgli/dns/evloop_res.c:617-632 | a request with the identifier, or none has it |
| Resolver.Resolver.FreshId | src/libmowgli/dns/evloop_res.c:752-756 | the loop ends with an identifier no request has |
| Resolver.Resolver.RetryFreq | src/libmowgli/dns/evloop_res.c:557-568 | 1, 3, 9, 27, 81 and from five timeouts on 243 messages until a server is tried again |
| Resolver.Resolver.SendMessage | src/libmowgli/dns/evloop_res.c:577-611 | the first server in turn that the message gets to, those without timeouts and those whose time has come being tried in a first round, all that timed out in a second one; -1 if and only if it gets to none in either round |
| Resolver.Resolver.QueryName | src/libmowgli/dns/evloop_res.c:731-765 | one more send under an identifier no request had, noting the first server in turn that got it; nothing if no query can be made |
| Resolver.Resolver.ResendQuery | src/libmowgli/dns/evloop_res.c:768-782 | the same for the types that are asked again |
| Resolver.Resolver.Retry | src/libmowgli/dns/evloop_res.c:440-447 | one retry less, twice the time from now, one more timeout of the server |
| Resolver.Resolver.TimeoutQueryList | src/libmowgli/dns/evloop_res.c:418-454 | exactly the requests whose third time is up are reported as timed out, after at most three sends and at least 28 seconds; the overdue others are deferred, the rest unchanged, and nothing is left overdue; the time returned is no later than every deadline if and only if nothing was asked again |
| Resolver.Resolver.MakeRequest | src/libmowgli/dns/evloop_res.c:661-725 | a new request at the end of the table, sent once if a query can be made |
| Resolver.Resolver.Answer | src/libmowgli/dns/evloop_res.c:436-437 | the callback once, and the request is gone |
| Resolver.Resolver.DeleteQueries | src/libmowgli/dns/evloop_res.c:538-551 | exactly the requests of the query are gone |
| Resolver.Resolver.ReadReply | src/libmowgli/dns/evloop_res.c:945-1059 | replies with unknown identifiers, from foreign servers or to other questions leave the table alone; otherwise the one request of that nonzero identifier is answered: as not found for a name error, as invalid for any other error, no answers or one that cannot be decoded, and as found for an address; a name found for an address is handed on and nothing answered |
| Resolver.Resolver.Settle | src/libmowgli/dns/evloop_res.c:994-1056 | the same, case by case, for the request at hand |
| Resolver.Resolver.HandOn | src/libmowgli/dns/evloop_res.c:1033-1041 | the name found for an address is looked up for the same query |

## Left out

- Patricia.Patricia.constructor: the canonizing callback is a function that keeps the length of a key and is idempotent; one that is not is outside the model.
- Patricia.Patricia.Foreach: the callback is a function that does not change the trie; calls are represented by the sequence of entries visited. The same holds of Patricia.Patricia.Search.
- Patricia.Patricia.Size: the count is unbounded; wrap-around of the unsigned counter is not modelled.
- Dictionary.Dictionary.constructor: comparators are consistent total preorders; any results are allowed, and what an int does to them is part of Dictionary.Dictionary.Link.
- Dictionary.Dictionary.Add: after an addition that misplaces an entry the tree, the list and the count are still described, but later operations are not.
- Dictionary.Dictionary.Delete: the memory of the removed element, which the code frees, is not modelled afterwards.
- List.List.Sort: the comparator is a consistent total preorder on the data and reads nothing else.
- JsonReader.Parse.LlParse: requires that the token does not need more than the 128 slots, because the code pushes without a bounds check; what happens beyond the array is not modelled.
- JsonReader.Parse.ParseData: requires the same of the whole input; tokens after the first error are ignored, while the code still delivers what the failing character completes.
- StringBuffer.StoredWhole: strings are modelled on values, their memory zeroed by the default allocator when it is taken; appending whole pieces with mowgli_string_append is not modelled.
- JsonLexer.LexChar: the texts of error messages are not modelled, only that an error is raised.
- JsonValue.BuildObjectIs: an object is the sorted sequence of its members, standing for the trie's iteration; reference counts are not modelled.
- JsonRoundTrip.LexValue: documents with floats are excluded; a float is carried as its text and neither strtod nor %g is modelled.
- JsonReading.ReadsEverySpelling: spellings whose strings contain a NUL character are not covered; what becomes of NUL bytes is said by JsonReread.WhatComesBack and JsonCut.CutDocument. Whether the text fits the 128 slots is JsonDepth.FitsByTokens.
- JsonReading.TextIsPhrase: which other texts the lexer takes for numbers (as 1-2, or 010 for 8) is its own function and not characterised further.
- Getopt.Run: only the permuting mode; leading '+' or '-', POSIXLY_CORRECT, "W;", optreset, long options and diagnostics are not modelled.
- Permute.PermuteArgs: both blocks are non-empty, as in every call the code makes.
- Random.Generator.RandomIntRanged: end - begin overflows an int for ranges wider than 2^31 - 1, which C leaves undefined; the model takes the difference modulo 2^32. The width is not 0, for which the code divides by 0.
- Random.Generator.DrawUpTo: needs some acceptable word to come, given by a ghost argument; that one always comes is a matter of the sequence's distribution and not proved.
- DnsExpand.Unpack: the output buffer is not empty; bit-string labels are refused.
- DnsExpand.Skip: bit-string labels are refused; as in the code a name may end with the message without a root label.
- DnsText.ParseText: bit-string labels are refused.
- DnsPack.Message.Pack: names are sequences of labels of 1 to 63 octets in wire form; other wire forms, which the code refuses or treats as bit strings, are not modelled.
- Heap.Heap.constructor: sizes are unbounded, the page count does not overflow, and memory for the heap is available; a heap made with BH_NOW is one on which Expand was called.
- Heap.Heap.Expand: the allocator succeeds and returns zeroed memory, as the default one does; num_allocated of a new block is never set by the code.
- Heap.Heap.Alloc: failure of the allocator, zeroing of the slot and the mutex are not modelled.
- Heap.Heap.Free: only slots that are live are given back, as the code demands of its callers.
- Timer.EventLoop.Add: waits and frequencies are not negative.
- Timer.EventLoop.RunTimers: callbacks only add timers, finitely many in one run; callbacks that destroy timers are not modelled.
- Resolver.Resolver.FreshId: the random source reaches every identifier and fewer than 65536 requests are outstanding; otherwise the loop of the code need not end.
- Resolver.Resolver.ReadReply: the question check and the decoding of the answer are given as flags of the reply; contents of packets are not modelled, and callbacks do not call back into the resolver.
- Resolver.Resolver.MakeRequest: addresses of unknown families, and building names and addresses, are reduced to whether a query can be made.
- Patricia statistics; dictionary iteration, search, destroy and statistics: not needed by the properties above.
- List functions nth, insert, find, move and concat: thin, or not meeting their stated intent on empty lists.
- JSON constructors, parse_file and output to strings: plumbing.
- DNS message headers, `mowgli_dns_res_mkquery` beyond packing its name, resolv.conf, addresses and sockets: no provable core.
- Heap destruction, mmap and locking; the names and functions of timers; the resolver's re-arming of its own timer: plumbing.
- Memory exhaustion and logging everywhere.
- bitvector, index, linebuf, formatter, queue, argstack, memslice, confparse, hooks, objects, helpers, modules, pollers, VIO, signals and process titles: thin, or calls into the system.
