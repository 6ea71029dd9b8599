# Doubly linked list and UI string helpers, modelled in Dafny

This project models the core of a small C++ teaching program built around a
doubly linked list container:

- `edu::DoublyLinkedList<T>` (include/doubly_linked_list.hpp), the generic
  header-only list: `insertAfter`, `insertBefore`, `push_back`,
  `push_front`, `remove`, `detach`, `clear`, `find`, `size`, `empty` and the
  debug `sanity` check. This is module `Edu` in `doubly_linked_list.dfy`.
- The `std::string`-only copy of the same container in main.cpp, which has
  no push operations and whose `clear` nulls every node's links before
  deleting it, plus the console demo in `main` (three insertions, then
  forward and backward printing). This is module `StringList` in
  `string_list.dfy`.
- The pure string helpers of include/ui.hpp: the one-step UTF-8 decoder
  `utf8_next_cp` (byte patterns of section 3 of RFC 3629), the ANSI SGR
  stripper `strip_colors`, and `display_width`. This is module `Ui` in
  `ui.dfy`.

`list_spec.dfy` (module `ListSpec`) holds the sequence-level specification
shared by both containers: guard outcomes, `InsertAt`, `RemoveAt`,
`Reversed`, `IndexOf`, `Map`, and the lemmas that connect them.

Both containers are heap models:

- Nodes are Dafny objects whose `prev`/`next` fields the methods rewrite in
  place, and `head`, `tail` and `size` are fields of the list class.
- A ghost sequence `Nodes` gives the forward order. `Valid()` ties `head`,
  `tail`, `size` and every node's two links to it. It implies every
  assertion of `sanity`, and adds that the links are symmetric and that no
  node is linked twice.
- Each node carries a ghost flag `deleted`. `remove` and `clear` set it,
  no linked node has it, and no insertion accepts a node that has it,
  whichever list deleted it.
- The `DLLIST_DEBUG_CHECKS` build option is the constant field `checked`.
  When it is set, the membership scan turns a foreign anchor or target into
  an error.
- Every insert, remove and detach returns an `Outcome` that names which
  guard fired, in the source's order, and a failed call changes nothing.
  `push_back`, `push_front` and `clear` have no guards.

On success, each method states its new `Nodes` and `Elements()` as a
`ListSpec` function of the old ones, together with the moves of `head` and
`tail`.

In the `Ui` module, strings are byte sequences (`seq<bv8>`). The decoder is
specified by the function `NextCodePoint` and the stripper by `Stripped`;
the methods carry the source's loops and are proved equal to those
functions. The libc `wcwidth` used by the UTF-8 branch of `display_width` is
a function parameter.

## Model

| member | source | states |
|---|---|---|
| Edu.Node.constructor | include/doubly_linked_list.hpp:22 | a new node holds its value, has both links null and is not deleted |
| Edu.DoublyLinkedList.InsertGuards | include/doubly_linked_list.hpp:38-64 | an insertion passes its guards iff the anchor is non-null or the list empty, the node is non-null, differs from the anchor and has both links null, and, when checked on a non-empty list, the anchor is linked |
| Edu.DoublyLinkedList.RemoveGuards | include/doubly_linked_list.hpp:172-189 | a removal passes its guards iff the target is non-null, the list is non-empty and, when checked, the target is linked |
| Edu.DoublyLinkedList.constructor | include/doubly_linked_list.hpp:32 | a new list is valid and empty: no nodes |
| Edu.DoublyLinkedList.DetachedNodeIsForeign | include/doubly_linked_list.hpp:50-53 | a node with both links null that differs from an anchor in the list is not itself in the list, so the "already linked" guard plus the anchor check exclude self-corruption |
| Edu.DoublyLinkedList.Size | include/doubly_linked_list.hpp:243 | `size()` is the number of linked nodes and of forward values |
| Edu.DoublyLinkedList.IsEmpty | include/doubly_linked_list.hpp:244 | `empty()` holds iff no node is linked, iff `head` and `tail` are both null |
| Edu.DoublyLinkedList.Contains | include/doubly_linked_list.hpp:55-64 | the debug membership scan from `head` finds a node iff it is linked in this list |
| Edu.DoublyLinkedList.InsertAfter | include/doubly_linked_list.hpp:37-87 | guards in source order (null anchor on a non-empty list, null node, node equal to anchor, node already linked, anchor not in list when checked); a failed call changes neither list nor node; on success an empty list becomes `[newNode]` with both ends on it, otherwise the node lands right after the anchor, the tail moves iff the anchor was the tail, and the list stays valid |
| Edu.DoublyLinkedList.LinkAfter | include/doubly_linked_list.hpp:67-86 | the three linking cases of insertAfter: empty list, anchor at the tail, anchor in the middle with all four links symmetric |
| Edu.DoublyLinkedList.InsertBefore | include/doubly_linked_list.hpp:91-140 | the same guards; on success an empty list becomes `[newNode]`, otherwise the node lands right before the anchor, the head moves iff the anchor was the head, and the list stays valid |
| Edu.DoublyLinkedList.LinkBefore | include/doubly_linked_list.hpp:120-139 | the three linking cases of insertBefore |
| Edu.DoublyLinkedList.LinkFirst | include/doubly_linked_list.hpp:67-71 | the empty-list case: the node becomes both head and tail, size 1 |
| Edu.DoublyLinkedList.LinkAtTail | include/doubly_linked_list.hpp:150-154 | a detached node appended after the tail becomes the new tail, order kept |
| Edu.DoublyLinkedList.LinkAtHead | include/doubly_linked_list.hpp:125-131 | a node prepended before the head becomes the new head with null `prev` |
| Edu.DoublyLinkedList.LinkBetween | include/doubly_linked_list.hpp:80-86 | a node spliced between two adjacent nodes sits at that position, ends unchanged |
| Edu.DoublyLinkedList.PushBack | include/doubly_linked_list.hpp:143-155 | always returns true; appends one fresh node, so the forward values gain `v` at the end and the old nodes keep their places |
| Edu.DoublyLinkedList.PushFront | include/doubly_linked_list.hpp:157-169 | always returns true; prepends one fresh node, so the forward values gain `v` at the front |
| Edu.DoublyLinkedList.Remove | include/doubly_linked_list.hpp:171-196 | fails with nothing changed on a null target (checked first), an empty list, or a foreign target when checked; on success the target leaves the forward order at its index with the others in order, its links are null, and it is marked deleted |
| Edu.DoublyLinkedList.Detach | include/doubly_linked_list.hpp:198-222 | as Remove, but the node is not marked deleted: the caller owns it again and may insert it anywhere |
| Edu.DoublyLinkedList.Unlink | include/doubly_linked_list.hpp:190-192 | the shared splice: the predecessor is fixed or `head` moves, the successor is fixed or `tail` moves, the target's links become null |
| Edu.DoublyLinkedList.UnlinkInner | include/doubly_linked_list.hpp:190-192 | a middle node is dropped and its neighbours are linked to each other, ends unchanged |
| Edu.DoublyLinkedList.UnlinkLast | include/doubly_linked_list.hpp:190-192 | dropping the tail of a longer list makes its predecessor the tail |
| Edu.DoublyLinkedList.UnlinkFirst | include/doubly_linked_list.hpp:190-192 | dropping the head of a longer list makes its successor the head |
| Edu.DoublyLinkedList.UnlinkOnly | include/doubly_linked_list.hpp:190-192 | dropping the only node leaves both ends null |
| Edu.DoublyLinkedList.Clear | include/doubly_linked_list.hpp:224-232 | the list ends empty with null ends and size 0, and every node it held is marked deleted with its links left as they were (nothing on an empty list) |
| Edu.DoublyLinkedList.Find | include/doubly_linked_list.hpp:234-241 | returns the first node from `head` whose value equals `v`, or null when no value equals it; changes nothing |
| Edu.DoublyLinkedList.ForwardValues | include/doubly_linked_list.hpp:247-255 | the walk along `next` from `head` visits exactly the forward values |
| Edu.DoublyLinkedList.BackwardValues | include/doubly_linked_list.hpp:256-264 | the walk along `prev` from `tail` visits exactly the forward values reversed |
| Edu.Sanity | include/doubly_linked_list.hpp:272-281 | on a valid list every assertion of `sanity` holds: both walks count `size()` nodes, empty means both ends null, otherwise `head->prev` and `tail->next` are null |
| Edu.IntDemo | generic_main.cpp:145-152 | push_back 1, push_back 3, insertBefore(tail, 2) gives forward [1, 2, 3] and backward [3, 2, 1] |
| Edu.StringDemo | generic_main.cpp:171-178 | push_front "C", push_front "A", insertAfter(head, "B") gives forward [A, B, C] and backward [C, B, A] |
| StringList.Node.constructor | main.cpp:21 | a new node holds its string, has both links null and is not deleted |
| StringList.DoublyLinkedList.InsertGuards | main.cpp:53-85 | an insertion passes its guards iff the anchor is non-null or the list empty, the node is non-null, differs from the anchor and has both links null, and, when checked on a non-empty list, the anchor is linked |
| StringList.DoublyLinkedList.RemoveGuards | main.cpp:297-316 | a removal passes its guards iff the target is non-null, the list is non-empty and, when checked, the target is linked |
| StringList.DoublyLinkedList.constructor | main.cpp:33-34 | a new list is valid and empty |
| StringList.DoublyLinkedList.DetachedNodeIsForeign | main.cpp:68-72 | a node with both links null that differs from an anchor in the list is not in the list |
| StringList.DoublyLinkedList.Size | main.cpp:273-275 | `size()` is the number of linked nodes |
| StringList.DoublyLinkedList.IsEmpty | main.cpp:280-282 | `empty()` holds iff no node is linked, iff both ends are null |
| StringList.DoublyLinkedList.Contains | main.cpp:74-85 | the debug scan finds a node iff it is linked in this list |
| StringList.DoublyLinkedList.InsertAfter | main.cpp:50-144 | guards in source order with nothing changed on failure; on success the empty, tail and middle cases place the node right after the anchor, moving the tail iff the anchor was the tail |
| StringList.DoublyLinkedList.LinkAfter | main.cpp:103-143 | the three linking cases of insertAfter |
| StringList.DoublyLinkedList.InsertBefore | main.cpp:148-206 | the same guards; on success the node lands right before the anchor, moving the head iff the anchor was the head |
| StringList.DoublyLinkedList.LinkBefore | main.cpp:184-205 | the three linking cases of insertBefore |
| StringList.DoublyLinkedList.LinkFirst | main.cpp:103-107 | the empty-list case: the node becomes both ends |
| StringList.DoublyLinkedList.LinkAtTail | main.cpp:110-117 | insertion after the tail: the node becomes the tail with null `next` |
| StringList.DoublyLinkedList.LinkAtHead | main.cpp:190-197 | insertion before the head: the node becomes the head with null `prev` |
| StringList.DoublyLinkedList.LinkBetween | main.cpp:135-143 | the middle splice with all four links symmetric |
| StringList.DoublyLinkedList.Remove | main.cpp:295-338 | null target, then empty list, then foreign target when checked; on success the target leaves the order at its index, its links are null, and it is marked deleted |
| StringList.DoublyLinkedList.Detach | main.cpp:342-384 | as Remove, but the node is not marked deleted |
| StringList.DoublyLinkedList.Unlink | main.cpp:318-335 | fix the predecessor or move `head`, fix the successor or move `tail`, null the target's links |
| StringList.DoublyLinkedList.UnlinkInner | main.cpp:318-335 | middle node: neighbours linked to each other |
| StringList.DoublyLinkedList.UnlinkLast | main.cpp:318-335 | tail of a longer list: predecessor becomes the tail |
| StringList.DoublyLinkedList.UnlinkFirst | main.cpp:318-335 | head of a longer list: successor becomes the head |
| StringList.DoublyLinkedList.UnlinkOnly | main.cpp:318-335 | only node: both ends null |
| StringList.DoublyLinkedList.Clear | main.cpp:257-269 | every node the list held has null links and is marked deleted; the list ends empty with null ends and size 0 |
| StringList.DoublyLinkedList.Find | main.cpp:388-395 | the first node whose value equals `v`, or null; nothing changes |
| StringList.DoublyLinkedList.ForwardValues | main.cpp:217-225 | the `next` walk from `head` visits exactly the forward values |
| StringList.DoublyLinkedList.BackwardValues | main.cpp:237-245 | the `prev` walk from `tail` visits the forward values reversed |
| StringList.Sanity | main.cpp:398-408 | on a valid list every assertion of `sanity` holds |
| StringList.MainInsertions | main.cpp:428-445 | insertAfter(null, A), insertAfter(A, B), insertAfter(A, C) leave a valid list with values [A, C, B] |
| StringList.MainScenario | main.cpp:424-458 | the demo prints A, C, B forward and B, C, A backward |
| ListSpec.IndexOf | include/doubly_linked_list.hpp:234-241 | the position of the first occurrence: the element is there and not earlier |
| ListSpec.InsertAtProperties | include/doubly_linked_list.hpp:80-86 | inserting at `k` puts the value at `k`, keeps the prefix, shifts the suffix by one, adds exactly one element |
| ListSpec.RemoveAtProperties | include/doubly_linked_list.hpp:190-192 | removing at `k` keeps the prefix, shifts the suffix back by one, drops exactly that element |
| ListSpec.RemoveInsertedIsIdentity | include/doubly_linked_list.hpp:198-222 | detaching the node just inserted gives back the original order |
| ListSpec.InsertRemovedIsIdentity | include/doubly_linked_list.hpp:80-86 | reinserting a detached node where it was restores the original order |
| ListSpec.InsertAtKeepsDistinct | include/doubly_linked_list.hpp:50-53 | inserting a node not yet linked keeps every node reachable once |
| ListSpec.RemoveAtKeepsDistinct | include/doubly_linked_list.hpp:190-192 | removal keeps the others distinct and the removed node is gone |
| ListSpec.IndexOfDistinct | include/doubly_linked_list.hpp:55-64 | in a list without repeats, the scan finds each node at its own index |
| ListSpec.MapInsertAt | include/doubly_linked_list.hpp:80-86 | the values of the nodes after an insertion are the old values with the new value inserted at the same place |
| ListSpec.MapRemoveAt | include/doubly_linked_list.hpp:190-192 | the values after a removal are the old values with the same position dropped |
| ListSpec.ReversedInvolution | include/doubly_linked_list.hpp:247-264 | the backward walk reversed is the forward walk |
| Ui.Lead | include/ui.hpp:54-57 | a lead byte has its two top bits set and announces one to three continuation bytes, keeping five, four or three payload bits; a high-bit byte is rejected only when it matches none of the three lead patterns |
| Ui.Continue | include/ui.hpp:58-64 | reading continuation bytes never moves the index backwards nor past the end |
| Ui.NextCodePoint | include/ui.hpp:50-65 | from any index inside the string, one decoding step strictly advances the index and never passes the end, which is what ends display_width's loop |
| Ui.Utf8NextCp | include/ui.hpp:50-65 | the method with the source's branches and loop returns exactly `NextCodePoint`'s code point and index |
| Ui.ReadContinuations | include/ui.hpp:58-64 | the continuation loop: stops at the end of the input, answers '?' on the first non-continuation byte, otherwise appends six bits per byte |
| Ui.ContinueRun | include/ui.hpp:59-63 | a run of continuation bytes appends their payload bits in order and moves the index past them |
| Ui.AsciiStep | include/ui.hpp:52 | an ASCII byte decodes to itself and advances the index by one |
| Ui.InvalidLeadStep | include/ui.hpp:57 | a high-bit byte that matches no lead pattern decodes to '?' and advances by one |
| Ui.WellFormedStep | include/ui.hpp:54-63 | a lead byte followed by its full run of continuation bytes decodes to the masked lead bits followed by six bits per continuation, advancing by the sequence length |
| Ui.BadContinuationStep | include/ui.hpp:61 | a non-continuation byte inside a sequence yields '?' with the index left on that byte |
| Ui.TruncatedStep | include/ui.hpp:59-64 | a sequence cut by the end of the string yields the bits gathered so far and the index at the end |
| Ui.DecodeEncoded | include/ui.hpp:50-65 | decoding the RFC 3629 encoding of any scalar value below 0x110000 gives the value back and consumes exactly its encoding |
| Ui.FindByte | include/ui.hpp:73 | a match reported by `find` lies at or after its start and holds the byte searched for |
| Ui.FindByteFirst | include/ui.hpp:73 | `find` answers the first match at or after its start, and npos means no match from there on |
| Ui.FindByteSuffix | include/ui.hpp:73 | searching a suffix of the string is searching the string from the same point |
| Ui.Stripped | include/ui.hpp:68-79 | the output of strip_colors is never longer than its input |
| Ui.StripColors | include/ui.hpp:68-79 | the method with the source's index loop returns exactly `Stripped(s)` |
| Ui.StripBounds | include/ui.hpp:68-79 | every output byte comes from the input |
| Ui.StripWithoutEsc | include/ui.hpp:72-78 | a string with no ESC byte is returned unchanged |
| Ui.NoSgrEndKept | include/ui.hpp:73-74 | a string with no 'm' is returned unchanged, so an ESC with no later 'm' is kept |
| Ui.PrefixKept | include/ui.hpp:72-78 | a prefix without ESC is copied to the output as it is |
| Ui.StripColourCode | include/ui.hpp:72-74 | an ESC and everything through the first later 'm' are dropped; what precedes is kept and what follows is stripped on its own |
| Ui.StripLeavesNoCode | include/ui.hpp:68-79 | in the output no ESC is followed later by an 'm' |
| Ui.NoCodeKept | include/ui.hpp:68-79 | a string with no colour code is a fixed point of the stripper |
| Ui.StripIdempotent | include/ui.hpp:68-79 | stripping twice is stripping once |
| Ui.DisplayWidth | include/ui.hpp:81-90 | when the terminal is not UTF-8 the width is the length of the stripped string; otherwise it is the sum over decoded code points of `wcwidth`, or 1 where that is not positive |
| Ui.Width | include/ui.hpp:84-88 | the width loop never yields a negative total, and a non-empty rest of the string takes at least one column |
| Ui.WidthBounds | include/ui.hpp:84-89 | with no wide code point the width is at most the number of bytes |

## Left out

- Printing: `printForward`, `printBackward`, the coloured printers and the `std::cerr` messages. The printers become `ForwardValues`/`BackwardValues`, and each message becomes the `ListError` constructor it stands for.
- Memory release: `delete` is modelled by setting the node's ghost flag `deleted`, and freed storage is not modelled. The destructors call `clear()`, which `Clear` models. The deleted copy and move constructors need no model.
- `std::size_t` wrap-around of `size_`: `size` is a `nat`. It can never wrap, because it counts distinct linked nodes.
- Edu.DoublyLinkedList.Remove: in a build without membership checks, a target outside the list is excluded by a `requires`. The source would then corrupt the list, for example by setting `head` to null. Edu.DoublyLinkedList.Detach, both `InsertAfter`/`InsertBefore` methods and the `StringList` counterparts take the same precondition for a foreign anchor or target.
- Edu.DoublyLinkedList.InsertAfter, Edu.DoublyLinkedList.InsertBefore, StringList.DoublyLinkedList.InsertAfter, StringList.DoublyLinkedList.InsertBefore: a node that any list has already deleted may not be inserted again (`requires newNode != null ==> !newNode.deleted`). In the source that would be a use after free.
- Edu.DoublyLinkedList.Unlink, StringList.DoublyLinkedList.Unlink: the source's two independent null tests are taken as their four combinations, one helper method each. The stores are the same.
- Edu.DoublyLinkedList.LinkAtTail: for insertAfter at the tail, the source also stores null into the new node's `next`. That field is already null by the "already linked" guard, so the helper shared with `push_back` leaves it out.
- Edu.DoublyLinkedList.LinkAtHead: for insertBefore at the head, the source also stores null into the new node's `prev`. That field is already null by the "already linked" guard, so the helper shared with `push_front` leaves it out.
- Edu.Sanity, StringList.Sanity: these model the `assert`s as a returned bool, proved true on every valid list. In the console demo the calls to `sanity` after each insertion are not repeated in `MainInsertions`, since each insertion ensures `Valid()`.
- Ui.Utf8NextCp: the decoder's index is passed in and returned rather than by reference. At `i == s.size()` the source reads the terminating NUL; `ByteAt` models that as byte 0.
- Ui.DisplayWidth: `wcwidth` is a libc function that depends on the locale, so it is a parameter. The narrowing of the code point to `wchar_t` and of the size to `int` is not modelled.
- The rest of include/ui.hpp (terminal detection, environment variables, banners, menus, rendering, paging) and all of generic_main.cpp (the menu loop, stdin parsing, `std::system`). The two demos of generic_main.cpp are kept as `Edu.IntDemo` and `Edu.StringDemo`.
