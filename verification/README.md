# Verified models of MoonCL's algorithms

MoonCL binds OpenCL to Lua. Most of it hands arguments to the driver, but five parts hold real
algorithms or state machines. This project models these parts in Dafny and proves what they are for.

- **Ordered trees** (`src/tree.h`): the intrusive red-black trees under the object registry and the
  enumeration maps, and the top-down splay trees. Nodes are objects whose links and colours are rewritten
  in place, by the same branches as the macros. A ghost tree says what the links in memory spell out.
  Insertion and removal are proved to keep search order, balance, parent links and contents; a splay is
  proved to keep the contents, to bring the key, or a neighbour of its place, to the root, and to lift the nodes
  of the search path into the upper half of its levels.
  Files: `TreeOrder.dfy`, `RbModel.dfy`, `RbTree.dfy`, `Splay.dfy`.
- **Objects** (`src/objects.c`, `src/udata.c` and the destructors): the registry by identifier with its scan
  that survives deletions by its own callback, and the forest of objects with Valid marks, cascading
  destructors, driver reference counts and a destructor callback that re-enters the destructor from inside
  a release. Files: `Udata.dfy`, `Objects.dfy`.
- **Half precision** (`src/include/CL/cl_half.h`): conversion from any binary format with at least twelve
  bits of precision to half, so that float and double are two instances of one proof, and back. The
  specification is IEEE 754-2008, sections 3.4, 4.3.1, 4.3.2 and 7.4, stated over exact reals. Files:
  `Powers.dfy`, `Half.dfy`.
- **Codecs**: the code<->string maps (`Enums.dfy`), zero-terminated property lists (`Properties.dfy`),
  nested tables and packed integers (`DataHandling.dfy`), and bounded host memory (`Hostmem.dfy`).
- **Lua compatibility** (`src/compat-5.3.c`): rotation by three reversals, and the growing buffer with its
  overflow test (`LuaCompat.dfy`).

`Common.dfy` holds what several of these share: options, the arithmetic of 64-bit words, and a first element.

Termination of every loop and recursion, and the absence of null dereferences and index errors, are proved
along the way: for instance that the sibling used by the colour repair of a removal exists.

## Where the code and its promises differ

Each of these is a theorem with the exact condition, and most have a concrete instance.

- A property list encoder takes -1 in a pointer field for "absent": such a field is counted but not written,
  and is lost on the way back (`EncodeDecodeContext`, `CursorMeetsCount`, `SentinelLost`).
- A queue size is stored as a `cl_uint` and comes back modulo 2^32 (`EncodeDecodeQueue`, `QueueSizeLost`).
- A zero among the partition counts ends the list early (`EncodeDecodePartition`, `PartitionZeroLost`).
- A registry scan with the identifier 2^64-1 registered starts again at 0 and need not end (`ScanEnds`).
- SPLAY_REMOVE returns its argument, which is the node that left the tree iff the argument was in the tree
  (`SplayTree.Head.Remove`).
- Packing stores 0 for an element that is no integer before it rejects it, so a failed typed write has
  already changed the block (`Pack`, `WritePack`).
- Writing or copying zero bytes succeeds at any offset, while clearing or reading zero bytes does not
  (`WriteData`, `CopyHostmem`, `Clear`, `Read`).
- The growing buffer's promise that all copying is paid for by the capacity added fails: with an initial
  capacity of 8192, pieces of 0x5555555555555556, 2 and 0x5555555555555555 bytes are all accepted, and the
  copies total 0xAAAAAAAAAAAAAAAE for a final capacity of 0xAAAAAAAAAAAAAAAD (`OverpaidInstance`). Every run
  whose pieces total at most T keeps the promise iff T stays within a bound computed from the initial
  capacity: 0xAAAAAAAAAAAAAAAC for the usual small one (`PaymentExact`, `CanOverpay`). A single growth
  overpays iff the capacity is 2^63 or more and the piece is shorter than the capacity (`GrowthPays`).
- The buffer refuses some sizes that would fit once its capacity is half of what a `size_t` counts
  (`GrowthSound`). Every run of pieces that total at most T is accepted iff T is at most 2^63, or what the
  initial capacity allows beyond that (`AcceptanceExact`).
- lua_rotate does nothing for more than one turn, where the manual leaves the result open (`Stack.Rotate`).
- CL_ULONG values from 2^63 on read back as negative Lua integers (`ReducedExact`).

## Model

| member | source | states |
|---|---|---|
| TreeOrder.SplitSearch | src/tree.h:619-634 | one comparison with a node settles a whole side of the key order |
| TreeOrder.SortedInsert | src/tree.h:588-616 | putting an element between the smaller and the larger keys keeps the order strict |
| TreeOrder.SameKey | src/udata.c:45-46 | two nodes of one tree that compare equal are the same node |
| RbModel.BalancedPlug | src/tree.h:45-54 | a subtree of the right black height, red only below black, completes its surroundings to a red-black tree |
| RbModel.PlugBalanced | src/tree.h:45-54 | conversely every place in a red-black tree is such a hole |
| RbModel.HeightBound | src/tree.h:53-54 | 2^height <= (n+1)^2 in every red-black tree of n nodes, that is height <= 2*lg(n+1) |
| RbModel.InOrderPlug | src/tree.h:335-373 | the key order of a tree around any of its places |
| RbTree.SpellsPlug | src/tree.h:305-311 | left, right and parent links agree with the tree at every node iff they agree around and below any chosen place |
| RbTree.RotateLeftOk | src/tree.h:335-353 | the rotation's stores turn memory that spells a tree into memory that spells the rotated tree, parents included |
| RbTree.RotateRightOk | src/tree.h:355-373 | the mirror image |
| RbTree.UncleLeftInv | src/tree.h:408-414 | recolouring below a red uncle keeps every rule except, at most, at the new place further up |
| RbTree.OuterLeftInv | src/tree.h:421-422 | the closing recolouring and rotation of an insertion restore all rules |
| RbTree.BlackNephewsLeftInv | src/tree.h:457-463 | painting the sibling red moves the missing black node one level up |
| RbTree.NearNephewLeftInv | src/tree.h:465-473 | rotating a red near nephew up makes the far nephew red, with the deficit unchanged |
| RbTree.FarNephewLeftInv | src/tree.h:474-480 | the last rotation pays for the missing black node: the whole tree is red-black again |
| RbTree.RemoveEnd | src/tree.h:516-517 | painting the node at the end of the loop black gives a red-black tree |
| RbTree.SuccessorOrder | src/tree.h:529-568 | moving the successor into the removed node's place removes exactly that node from the key order |
| RbTree.SuccessorColours | src/tree.h:529-568 | and leaves the rules broken at most by one missing black node where the successor was |
| RbTree.Head.RotateLeft | src/tree.h:335-353 | the exact fields RB_ROTATE_LEFT changes, and nothing else |
| RbTree.Head.RotateRight | src/tree.h:355-373 | the exact fields RB_ROTATE_RIGHT changes, and nothing else |
| RbTree.Head.InsertStepLeft | src/tree.h:407-422 | one turn of the colour loop keeps contents and invariant and climbs, or removes the conflict |
| RbTree.Head.InsertStepRight | src/tree.h:423-439 | the mirror image |
| RbTree.Head.InsertColor | src/tree.h:400-442 | the colour loop ends in a red-black tree with the same nodes in the same order |
| RbTree.Head.Locate | src/tree.h:594-604 | the walk ends at an equal node, or at the one empty place where the key belongs |
| RbTree.Head.Insert | src/tree.h:588-616 | an equal node, or the node itself if it is in the tree, is returned and nothing changes; or the new node is put at its sorted place in a valid red-black tree |
| RbTree.Head.RemoveStepLeft | src/tree.h:450-481 | one turn of the removal's colour loop: the sibling exists, contents stay, the deficit moves up or vanishes |
| RbTree.Head.RemoveStepRight | src/tree.h:482-513 | the mirror image |
| RbTree.Head.RemoveColor | src/tree.h:444-518 | from a tree with one missing black node to a red-black tree with the same nodes in the same order |
| RbTree.Head.RemoveOuter | src/tree.h:569-583 | removing a node with at most one child: valid afterwards, exactly that node gone |
| RbTree.Head.RemoveInner | src/tree.h:529-568 | the same for a node with two children, whose place its successor takes |
| RbTree.Head.Remove | src/tree.h:520-585 | any member is removed: the tree stays valid and holds exactly the other nodes in the same order |
| RbTree.Head.Find | src/tree.h:619-634 | finds the node with the key iff there is one, with 2^comparisons <= (n+1)^2 |
| RbTree.Head.NFind | src/tree.h:637-656 | the least node not below the key, with its position, within the same number of comparisons |
| RbTree.Head.Next | src/tree.h:658-677 | the node after the given one in key order, or none after the last |
| RbTree.Head.Prev | src/tree.h:680-699 | the node before the given one in key order, or none before the first |
| RbTree.Head.NextPrev | src/tree.h:658-699 | going forth and back returns to the node, except at the last one |
| RbTree.Head.PrevNext | src/tree.h:658-699 | going back and forth returns to the node, except at the first one |
| RbTree.Head.MinMax | src/tree.h:701-714 | the first or the last node |
| SplayTree.RotatedRightOk | src/tree.h:81-85 | the rotation of the remaining tree, in memory and in order |
| SplayTree.RotatedLeftOk | src/tree.h:87-91 | the mirror image |
| SplayTree.LinkLeftOk | src/tree.h:93-97 | the root becomes the last node of the right tree; the three trees stay apart and complete |
| SplayTree.LinkRightOk | src/tree.h:99-103 | the root becomes the last node of the left tree |
| SplayTree.StuckAtRoot | src/tree.h:211-234 | where the loop stops, the root is the key or a neighbour of its place |
| SplayTree.AssembledRep | src/tree.h:105-110 | the four stores of SPLAY_ASSEMBLE join the three trees, also when a side is empty and shares the header |
| SplayTree.AssembledOrder | src/tree.h:105-110 | the joined tree has the nodes in the old order |
| SplayTree.Head.StepLeft | src/tree.h:212-221 | one turn for a key below the root's: order kept, search narrowed, remaining tree smaller, two nodes of the path passed for every node linked straight on |
| SplayTree.Head.StepRight | src/tree.h:222-231 | the mirror image |
| SplayTree.Head.Assemble | src/tree.h:105-110 | afterwards memory spells one search tree below the root |
| SplayTree.HalvedLeft | src/tree.h:81-97 | what the rotation is for: going straight on, a turn links one node for the two it passes |
| SplayTree.Flattened | src/tree.h:105-110 | when both sides have at most half of the path's nodes linked, joining them leaves every node of the path within half of its length, plus one, below the root |
| SplayTree.Head.Splay | src/tree.h:202-235 | ends, keeps the contents, leaves the key or an in-order neighbour of its place at the root, and no node of the search path deeper than half the length of the path plus one |
| SplayTree.Head.Find | src/tree.h:120-130 | the node with the key, iff there is one |
| SplayTree.Head.Insert | src/tree.h:157-179 | ordered-set insertion: an equal node, or the node itself if it is in the tree, is splayed to the root and returned, or the new one is put at its sorted place and at the root |
| SplayTree.Head.SplayLeft | src/tree.h:192-195 | splaying only the left subtree leaves its root without right child, so the right subtree can be hung there |
| SplayTree.NothingRight | src/tree.h:192-195 | why: the removed key is above everything in the left subtree |
| SplayTree.Head.Remove | src/tree.h:181-200 | ordered-set removal of the node with an equal key, iff there is one; the argument is what is returned |
| UdataRegistry.ByIdLawful | src/udata.c:45-46 | the comparison of identifiers is a lawful total order |
| UdataRegistry.Registry.Search | src/udata.c:57-58 | finds the record of an identifier iff it is registered |
| UdataRegistry.Registry.First | src/udata.c:59-60 | the registered object with the least identifier from a given one on |
| UdataRegistry.Registry.New | src/udata.c:74-114 | registers under the given identifier, or the address if that is 0; refuses duplicates without a change |
| UdataRegistry.Registry.Free | src/udata.c:137-152 | removes exactly that identifier, or reports it invalid |
| UdataRegistry.Registry.Mem | src/udata.c:116-120 | the memory registered for an identifier |
| UdataRegistry.Registry.FreeAll | src/udata.c:167-176 | ends with an empty registry |
| UdataRegistry.Called | src/udata.c:189-197 | one turn with a call keeps: ascending calls, each on a registered match, and below the cursor every match was called or had been freed by a call on a smaller identifier |
| UdataRegistry.Registry.Scan | src/udata.c:178-199 | against any callback that frees any objects: it ends, calls in strictly ascending order, exactly once on each matching object still registered when reached, up to the call that interrupts it if one does; what is left is what no call freed |
| UdataRegistry.ScanDetermined | src/udata.c:178-199 | that contract leaves nothing open: table and callback determine the calls, the interruption and what is left |
| UdataRegistry.ScanEnds | src/udata.c:187-191 | an uninterrupted scan that frees nothing ends iff the identifier 2^64-1 is not registered, in at most 2^64 turns |
| Objects.ChildrenComplete | src/context.c:37-44 | the kinds each destructor goes through are all the kinds its valid children can have |
| Objects.AncestorsValid | src/objects.h:84-95 | all ancestors of a valid object are valid |
| Objects.LogAppend | src/objects.h:377-383 | an object whose parent is still valid can be released last without breaking the order of releases |
| Objects.AheadIsRegistered | src/udata.c:189-197 | freeing some children never removes another child that the scan has yet to reach |
| Objects.ScanStep | src/objects.c:58-72 | one turn of the scan removes the family of a matching child, and nothing otherwise |
| Objects.World.FreeUserdata | src/objects.c:41-55 | the Valid mark lets the rest of a destructor pass once; mark and registry entry go together, and the state between is recorded |
| Objects.World.Release | src/buffer.c:52-69 | a driver release counts down; the last one destroys the driver's object and, through the callback, re-enters without effect |
| Objects.World.DestructorCallback | src/buffer.c:62-69 | exactly the family of the object registered under the handle goes, and nothing happens when there is none |
| Objects.World.ReleaseAll | src/objects.h:377-383 | exactly as many releases as the count says, the last of them logged once |
| Objects.World.FreeChildren | src/objects.c:58-72 | afterwards no valid child of that kind remains: exactly these children and their descendants are gone |
| Objects.World.FreeAllChildren | src/context.c:37-44 | the same for a list of kinds, kind by kind: in every state on the way the children of earlier kinds are gone and those of later kinds all there |
| Objects.ParentageExact | src/context.c:37-44 | what can be created below an object is exactly what its destructor goes through, pair by pair |
| Objects.NoSubDevices | src/device.c:31-32 | a device without the HasSubDevices mark has no valid sub-device to free |
| Objects.TrailLength | src/objects.c:41-55 | a way from one state to another by single removals of childless objects has one state per object that goes |
| Objects.World.FreeDescendants | src/context.c:32-49 | before the object itself goes, exactly its strict descendants have gone, the children in the order of kinds of its destructor |
| Objects.World.Destroy | src/context.c:32-49 | exactly the object and its descendants go, with their registry entries and counts; the recorded states are one per object, each from the one before by one object without valid children, and all are consistent; the recursion ends |
| Objects.World.New | src/objects.c:28-39 | a fresh valid object under its handle with count 1 and the sub-device marks, or no change if the handle is taken |
| Objects.World.CreateListed | src/objects.c:28-39 | an object of any kind can be created below any valid object of each of its parent kinds, and what that adds to handles, counts and marks |
| Objects.CreateRefused | src/objects.c:28-39 | a creation with a taken handle, an invalid parent or one of another kind changes nothing |
| Objects.World.CountsExact | src/objects.h:353-383 | the driver counts exactly the valid objects of the ten counted kinds, from 1 up, each registered |
| Objects.World.Retain | src/objects.h:353-360 | only the count of that handle rises, by one |
| Objects.World.KeepListed | src/objects.h:353-360 | retaining any valid object adds one to its count, or nothing for a platform, SVM or host memory object |
| Objects.World.ReleaseOne | src/objects.h:362-375 | the last release goes through the destructor, any other only counts down |
| Objects.World.Delete | src/objects.h:299-306 | deleting twice is harmless; deleting a valid object removes its family |
| Objects.World.Perform | src/objects.h:299-375 | one request of a script has exactly its effect, or none when the argument checks reject it |
| Objects.World.Run | src/objects.c:28-72 | any script of creations, retains, releases and deletions: each request takes the state before it to the one with exactly its effect; the history leads from the first state to the last by single creations and removals, all of them consistent; counts are positive iff registered, last releases unique and children first |
| Half.HandleOverflow | src/include/CL/cl_half.h:61-82 | correct rounding of every magnitude from 65536 on, in each mode and for each sign |
| Half.HandleUnderflow | src/include/CL/cl_half.h:87-103 | correct rounding of every positive magnitude below 2^-25 |
| Half.ShiftedNormal | src/include/CL/cl_half.h:126-185 | the truncated normal half, and the discarded bits as the exact distance to the value |
| Half.ShiftedSubnormal | src/include/CL/cl_half.h:169-179 | the same for the subnormal range |
| Half.RoundedEncoding | src/include/CL/cl_half.h:186-228 | rounding up with carry into the exponent, up to infinity, gives the correctly rounded half |
| Half.FromFloat | src/include/CL/cl_half.h:109-229 | for every finite value of any format with p >= 12 and every mode the result is the correctly rounded half; an infinity keeps its sign, and a NaN stays a NaN with its sign, the quiet bit and the top of its payload |
| Half.FromFields | src/include/CL/cl_half.h:235-355 | the body shared by the float and double conversions |
| Half.FieldValue | src/include/CL/cl_half.h:120-127 | the value of an encoding by the formula of section 3.4 of IEEE 754-2008 |
| Half.FloatFields | src/include/CL/cl_half.h:120-124 | the fields of a float are those bits of its 32-bit word |
| Half.DoubleFields | src/include/CL/cl_half.h:246-250 | the fields of a double are those bits of its 64-bit word |
| Half.RoundedOk | src/include/CL/cl_half.h:187-219 | the switch on the mode picks, of the two halves around a value, the one that rounding to nearest even, toward zero, or away from zero for the sign prescribes |
| Half.Normalize | src/include/CL/cl_half.h:415-421 | the loop ends and moves the leading bit of a subnormal to the implicit place |
| Half.ToFloat | src/include/CL/cl_half.h:361-428 | the float has the half's sign and exact value; infinities and NaNs keep their kind |
| Half.RoundTrip | src/include/CL/cl_half.h:361-428 | widening and narrowing in any mode is the identity on every half that is not NaN; a NaN comes back quiet |
| Half.NarrowBoth | src/include/CL/cl_half.h:109-355 | a float and the double it widens to, NaNs and infinities included, narrow to the same half in every mode |
| Half.RoundingUnique | src/include/CL/cl_half.h:109-229 | there is only one correctly rounded half |
| Half.NarrowingMonotone | src/include/CL/cl_half.h:109-229 | a larger value never narrows to a smaller half |
| Half.NarrowInOrder | src/include/CL/cl_half.h:109-355 | the conversion of two numbers of a format, infinities included, keeps their order in every mode |
| Half.ModesOrdered | src/include/CL/cl_half.h:187-219 | toward negative <= to nearest <= toward positive |
| Enums.CodeLawful | src/enums.c:44-49 | the order by domain and code is lawful |
| Enums.StrLawful | src/enums.c:51-56 | the order by domain and strcmp is lawful, and equal only for equal strings |
| Enums.SortedUnambiguous | src/enums.c:119-124 | two search trees over the same records leave no two records with the same code, or the same string, in a domain |
| Enums.Bijection | src/enums.c:168-205 | within a domain codes are equal iff their strings are |
| Enums.EnumMap.CheckThenPush | src/enums.c:184-205 | a string that has a code comes back from that code |
| Enums.EnumMap.PushThenCheck | src/enums.c:184-205 | a code that has a string comes back from that string |
| Enums.EnumMap.New | src/enums.c:109-128 | both trees gain the record, or neither when the code or the string is taken in the domain |
| Enums.EnumMap.Free | src/enums.c:130-138 | exactly that record leaves both trees |
| Enums.EnumMap.FreeAll | src/enums.c:140-145 | ends with both trees empty |
| Enums.EnumMap.Check | src/enums.c:184-194 | the code of the string in the domain, or an error iff it has none |
| Enums.EnumMap.Test | src/enums.c:168-182 | the same, with an absent argument told apart |
| Enums.EnumMap.Push | src/enums.c:196-205 | the string of the code in the domain, or an error iff it has none |
| Enums.ListedMembers | src/enums.c:214-223 | the walk's list holds exactly the records of the domain |
| Enums.ListedOrder | src/enums.c:214-223 | and holds them by strictly ascending code |
| Enums.EnumMap.Values | src/enums.c:207-226 | exactly the strings of one domain, once each, in ascending order of their codes |
| Properties.LookupEncoded | src/structs.c:320-363 | with distinct keys, what is encoded under a key is what a walk finds there, zero values included |
| Properties.Put | src/structs.c:322-361 | one field is written at the cursor, or skipped |
| Properties.EncodeContext | src/structs.c:216-365 | the list holds the caller's platform or the field's, and every other field that is there and no sentinel, under its numeric key and in order, and ends with 0; the cursor ends at n iff no pointer is the sentinel; the errors by their conditions on the table |
| Properties.CursorMeetsCount | src/structs.c:313-363 | written == counted iff no pointer field is -1; nothing counted iff the table is empty |
| Properties.DecodeContext | src/structs.c:368-425 | the walk gives for each known key the value set last, stops at a zero key only, and rejects unknown keys |
| Properties.ContextRoundTrip | src/structs.c:216-425 | the eight keys are distinct and decoding the encoded fields returns them |
| Properties.EncodeDecodeContext | src/structs.c:216-425 | the encoder followed by the decoder returns the table, with the caller's platform, iff no pointer field is -1; otherwise the table without those fields, or nil |
| Properties.SentinelLost | src/structs.c:332-336 | a table with only such a field is counted as two places but encoded as the empty list |
| Properties.EncodeQueue | src/structs.c:431-522 | the same for queues, with the size reduced to a cl_uint and 2^32-1 taken for absent |
| Properties.DecodeQueue | src/structs.c:525-561 | the walk over a queue's list |
| Properties.EncodeDecodeQueue | src/structs.c:431-561 | the encoder followed by the decoder returns the table iff its size fits a cl_uint and no enumerated value is 2^32-1 |
| Properties.QueueSizeLost | src/structs.c:469-471 | a size of 2^32 comes back as 0 |
| Properties.EncodePartition | src/structs.c:98-177 | the first field present decides, and the list is its numeric key, its value or counts, and the zeros that section 4.3 of the OpenCL 2.2 API specification prescribes; an empty count list and an empty table are errors |
| Properties.DecodePartition | src/structs.c:180-212 | for any list that can be read: nil for the empty one, the request of its key with the counts up to the first zero, an error for an unknown key |
| Properties.EncodeDecodePartition | src/structs.c:98-212 | the encoder followed by the decoder returns a request of any length iff none of its counts is 0 |
| Properties.PartitionZeroLost | src/structs.c:152-204 | the counts 3, 0 and 5 come back as 3 alone |
| DataHandling.Flattener.Flatten1 | src/datahandling.c:60-92 | for any nesting: the leaves are stored left to right after the cursor, their number is returned, the stack is as before |
| DataHandling.LeavesAppend | src/datahandling.c:60-92 | the leaves of a list are those of its parts, in order |
| DataHandling.FilledExactly | src/datahandling.c:60-92 | a new target then holds exactly the indices 1 to n |
| DataHandling.ToFlatTable | src/datahandling.c:94-120 | the leaves of one table, or of all the arguments, of which there may be none |
| DataHandling.Pack | src/datahandling.c:141-162 | too little room changes nothing; otherwise exactly the bytes of the integers before the first faulty element, which is stored as 0 and reported |
| DataHandling.Unpack | src/datahandling.c:219-234 | an error iff the length is not a positive multiple of the type's size, else the integers, each in the range of its type |
| DataHandling.UnpackedExact | src/datahandling.c:219-247 | each integer is the two's complement value, or for unsigned types the value, of its bytes, the least significant first; a cl_ulong reads as a signed 64-bit integer |
| DataHandling.UnpackPacked | src/datahandling.c:141-234 | unpacking packed integers gives them reduced to the type's width |
| DataHandling.PackUnpacked | src/datahandling.c:141-234 | packing unpacked bytes gives the bytes back for every whole multiple |
| DataHandling.UnpackThenPack | src/datahandling.c:141-234 | bytes that are unpacked and then packed come back exactly, or are refused without a change iff they are no whole multiple or do not fit |
| DataHandling.ReducedExact | src/datahandling.c:153-153 | the reduction is the identity exactly on the range of the type, given in numbers |
| DataHandling.ReducedCongruent | src/datahandling.c:153-153 | and otherwise changes the value by a multiple of 2 to the width |
| HostMemory.BoundsExact | src/hostmem.c:191-192 | the 64-bit test accepts exactly the ranges inside the block, counted without wrap-around |
| HostMemory.Block.WriteData | src/hostmem.c:182-195 | exactly the range is overwritten, or nothing and an error |
| HostMemory.Block.CopyHostmem | src/hostmem.c:211-228 | exactly the range is copied from the other block, or nothing and an error |
| HostMemory.Block.Clear | src/hostmem.c:259-286 | exactly the range is filled, or nothing and an error |
| HostMemory.Block.WritePack | src/hostmem.c:231-241 | the packed integers replace exactly their range; each error with what it leaves behind |
| HostMemory.Block.Read | src/hostmem.c:288-308 | the bytes of the range, or an error iff it is not inside |
| HostMemory.Block.ReadAs | src/hostmem.c:296-302 | the integers of the range, each in the range of its type, with the two errors told apart |
| HostMemory.Block.WriteThenRead | src/hostmem.c:231-308 | a typed write followed by a typed read of the same range returns the integers reduced to the type's width, and the bytes around it are as before |
| HostMemory.PerformAll | src/hostmem.c:182-286 | a script of writes, typed writes, clears and copies on any number of blocks takes their contents to those of the specified run |
| HostMemory.LastAccessWins | src/hostmem.c:182-286 | in such a run every byte of every block holds what the last granted access that reached it put there, with the source of a copy read at that point of the run, or its first value |
| LuaCompat.Stack.Reverse | src/compat-5.3.c:810-817 | the segment is reversed by stack exchanges, the rest stays |
| LuaCompat.Stack.SwapParts | src/compat-5.3.c:829-831 | the three reversals exchange the two parts of the segment |
| LuaCompat.Stack.Rotate | src/compat-5.3.c:820-833 | for -m <= n <= m slot k moves to (k+n) mod m in the segment of m slots and the rest stays; beyond that nothing changes |
| LuaCompat.RotationPermutes | src/compat-5.3.c:820-833 | a rotation is a permutation of the segment |
| LuaCompat.RotateBack | src/compat-5.3.c:820-833 | rotating a segment by n and then by -n is the identity |
| LuaCompat.Stack.RotateThereAndBack | src/compat-5.3.c:820-833 | lua_rotate by n and then by -n leaves the stack as it was, for every n |
| LuaCompat.GrowthSound | src/compat-5.3.c:667-673 | the overflow test passes exactly the sizes that can be held; the capacity is then twice the old one, or what is needed if that is more or doubling wraps, and has room |
| LuaCompat.GrowthPays | src/compat-5.3.c:667-680 | a growth copies no more than it adds iff the capacity is below 2^63 or the piece is as large as the capacity |
| LuaCompat.AcceptanceExact | src/compat-5.3.c:666-688 | every run with a total of at most T is accepted iff T is within the bound of the initial capacity |
| LuaCompat.PaymentExact | src/compat-5.3.c:666-688 | every run with a total of at most T copies no more than it adds in capacity iff T is within another such bound |
| LuaCompat.GrowthCanCostMore | src/compat-5.3.c:666-688 | three accepted pieces, one element beyond that bound, whose copies exceed the final capacity, for every initial capacity up to half of what a size_t counts that has a bound |
| LuaCompat.LargeBufferCanCostMore | src/compat-5.3.c:666-688 | two pieces suffice when the initial capacity is beyond half of what a size_t counts |
| LuaCompat.OverpaidInstance | src/compat-5.3.c:666-688 | the instance for an initial capacity of 8192, with its exact sizes |
| LuaCompat.Buffer.PrepBuffSize | src/compat-5.3.c:666-682 | an error without a change under the exact condition, or room for s more with the contents kept; the capacity is then twice the old one or what is needed, in numbers, and what was copied is counted |
| LuaCompat.Buffer.AddLString | src/compat-5.3.c:685-688 | the piece is appended, or an error under the exact condition and no change |
| LuaCompat.Buffer.AddAll | src/compat-5.3.c:685-707 | any run: the contents are the pieces up to the first refused one, and none is refused iff each can be held when it comes; up to a total known before the call, all are accepted and paid for |

## Left out

- Objects.World.Run: objects are created one at a time; a driver handle is assumed to be non-null and, for counted kinds, different from all live handles.
- Objects.World.First: the registry of `Objects.dfy` is a map with the contract that `RbTree.Head.NFind` is proved to meet; the tree itself is under `Udata.dfy`.
- Objects.World.Destroy: the extension table that freeplatform frees and the info blocks are not modelled, and destructors of kinds without children share one text.
- UdataRegistry.Registry.New: memory that leaks when a duplicate is refused, and allocation failure, are not modelled; in Lua the error does not return.
- UdataRegistry.Registry.Scan: the callback is any function from the number of the call and the object to the identifiers it frees, so it cannot add objects.
- UdataRegistry.Registry.Mem: udata_unref is never called by the repository, so references on the Lua side and udata_push beyond the lookup are left out.
- SPLAY_NEXT, SPLAY_MIN and SPLAY_MAX of src/tree.h: they repeat the loop of SPLAY with a constant comparison.
- SplayTree.Head.Splay: the empty tree, on which the source follows a null pointer, is excluded as its callers exclude it.
- Half.FromFloat: the shifts by `uint16_t` and the final casts are modelled by their values; that they never lose bits is part of the proof, undefined behaviour of C shifts is not.
- Enums.EnumMap.New: strings are compared without a length limit; the limit of 256 characters and failed allocation are left out.
- enums_checklist: a loop of `Test` over a table.
- Properties.EncodePartition: the number of counts is not reduced to 32 bits. Here and in the other encoders a field of the wrong Lua type, which the source rejects, cannot occur, except for a platform that is no platform object.
- Objects.World.Release: that the callback is installed for buffers, images and pipes only has no effect in the model, because it finds nothing left to free.
- Properties.EncodeQueue: the extra out-parameter for OpenCL 1.2 is left out, and so are sampler properties, which follow the same scheme without a sentinel.
- DataHandling.Flattener.Flatten1: the stack is unbounded here, while Flatten1_ pushes one slot per nesting level without luaL_checkstack; the length of a table is unbounded here and an int in the source; nil elements are leaves.
- DataHandling.Pack: half, float and double, numeric strings and floats with integral values, and hosts that store the most significant byte first.
- HostMemory.Block.WritePack: its arguments are already flat; flattening is `ToFlatTable`.
- HostMemory.Block: pointer arguments (CopyPtr, Ptr), alignment and blocks that share memory.
- LuaCompat.Buffer: whether the buffer is the one inside the structure or a userdata on the stack, and hence luaL_addvalue's stack shuffling.
- testbufferboundaries in src/buffer.c: the test of `HostMemory.BoundsExact` on a buffer's size; regions of sub-buffers.
- Shared virtual memory: the comment and the code disagree about what the mark against freeing skips.
- Event callbacks polled across driver threads, garbage collection beyond arbitrary deletions, metatables, and the functions that only marshal arguments to the driver.
