# Verified models of the proof producer's trie, transfer and output code

A Dafny 4.11 project that models four parts of the repository and proves what they promise. `dafny verify
dfyconfig.toml` checks all of it.

**The Merkle Patricia trie** (`bytes`, `paths`, `hash`, `ssz`, `nodes`, `tries`, `canonical`, `deletion`, `removal`,
`agreement`, `references`, `merkle`, `mpt`, `runs`, `departures`, `encodings`). The class `MerklePatriciaTrie` works
on `root` and on the append-only store `nodes` of encoded nodes, as the source does. A ghost field says which trie
the root stands for, and each method is proved to do to the bytes what a function on tries says. The properties are
proved about those functions and carried over to whole runs of the class: refinement of a map, history independence
of the root, commitment of the root to the contents, persistence of earlier roots.

`BasicHash` does collide, so the theorems about whole runs over the store carry `CollisionFree(log)`: no two
different nodes among those actually written collide. `SameRootOtherContents` and `CollidingKeysAnswerAlike` show
what happens to runs without it. `Lookup` treats an empty value as no value, as a branch does.

`remove` is modelled twice. `AsWritten(junk)` is the code; `junk` is what the uninitialized `idx` contains
(mpt.cpp:245). `Repaired` is the evident intent: the dropped slot is cleared before the slots are counted, no slot
is cleared when only a value was dropped, `Deleted` at the root makes the trie empty, and `UselessBranch` at the
root is accepted. For the code as written the project gives the exact condition under which it works, for all tries
and keys, and a run on byte keys for each departure.

**Streams and concurrency of `httplib.h`** (`streams`, `receivers`, `chunked`, `bodies`, `multipart`, `entries`,
`epilogue`, `threadpool`). The socket hands over and takes bytes in fragments of any size, and a receiver may refuse
to go on at any time. Chunked transfer coding follows section 7.1 of RFC 9112, the delimiters of multipart bodies
section 5.1.1 of RFC 2046. The thread pool is a step system whose steps interleave in any order; a class performs
the steps on shared fields.

**The binary table writer** (`table`, `layout`) with 32-bit arithmetic and either byte order.

**Index ranges** (`ranges`, `rangeforms`): printing, parsing and concretization. The header describes the bounds as
`size_t`, but the parser reads them with `stoi`; the model follows the code.

## Model

| member | source | states |
|---|---|---|
| ByteStrings.HighIsShift | libs/nil_core/src/mpt/path.cpp:18-22 | the high half of a byte is its shift by four bits |
| ByteStrings.LowIsMask | libs/nil_core/src/mpt/path.cpp:18-22 | the low half of a byte is its mask with 0x0F |
| ByteStrings.ShiftAndOr | libs/nil_core/include/zkevm_framework/core/mpt/path.hpp:41-51 | packing two halves is a shift and an or, with the odd flag as one of the halves |
| ByteStrings.OddFlagIsMask | libs/nil_core/include/zkevm_framework/core/mpt/path.hpp:60-66 | the odd flag is set exactly when the high half is odd |
| Paths.Path.Nth | libs/nil_core/src/mpt/path.cpp:18-22 | an index into the packed bytes, at any offset and parity, reads that nibble of the path |
| Paths.Path.At | libs/nil_core/src/mpt/path.cpp:36-41 | the checked access: that nibble, and `out_of_range` exactly from the size on |
| Paths.Equals | libs/nil_core/src/mpt/path.cpp:24-34 | true exactly when the two nibble sequences are equal, however they are packed |
| Paths.StartsWith | libs/nil_core/src/mpt/path.cpp:43-53 | true exactly when the other nibble sequence is a prefix |
| Paths.PathCursor.Consume | libs/nil_core/src/mpt/path.cpp:55-58 | the caller's path loses its first nibbles in place; an amount beyond the size is added to the offset all the same |
| Paths.ConstructFromPrefix | libs/nil_core/src/mpt/path.cpp:98-111 | rebuilds exactly the first `length` nibbles, for both parities |
| Paths.CommonPrefix | libs/nil_core/src/mpt/path.cpp:60-70 | the result denotes the longest common prefix |
| Paths.CommonLenIsMaximal | libs/nil_core/src/mpt/path.cpp:60-70 | no common prefix is longer than the one found |
| Paths.Append | libs/nil_core/src/mpt/path.cpp:72-96 | the result denotes the concatenation of the nibble sequences |
| Paths.Serialize | libs/nil_core/include/zkevm_framework/core/mpt/path.hpp:32-58 | the bytes written depend on the nibbles alone, not on the packing or the offset |
| Paths.DeserializeSerialize | libs/nil_core/include/zkevm_framework/core/mpt/path.hpp:32-70 | reading the written bytes back gives the same nibbles, for both parities |
| Encodings.PathFlag | libs/nil_core/include/zkevm_framework/core/mpt/path.hpp:33-48 | the flag byte: 0x10 together with the first nibble for an odd size, zero otherwise |
| Encodings.PathPairs | libs/nil_core/include/zkevm_framework/core/mpt/path.hpp:50-57 | the other nibbles follow two to a byte, the first one high |
| Encodings.FlagIsRead | libs/nil_core/include/zkevm_framework/core/mpt/path.hpp:60-72 | reading back tests the bit 0x10 of the first byte alone, whatever else is in it |
| Hashing.ComputeBasicHash | libs/nil_core/src/mpt/mpt.cpp:394-407 | the two in-place loops compute the xor fold followed by 64 stirring steps, whose value the next lemmas give |
| Hashing.RotationMovesBits | libs/nil_core/src/mpt/mpt.cpp:403 | bit by bit, the shift-and-or is a rotation to the left by one |
| Hashing.RotationDoubles | libs/nil_core/src/mpt/mpt.cpp:403 | in numbers it doubles modulo 256 and adds the bit that falls out |
| Hashing.StirredInClosedForm | libs/nil_core/src/mpt/mpt.cpp:401-404 | the whole in-place pass: every byte meets the old value of its neighbour, but the last one the new value of the first |
| Hashing.HashInClosedForm | libs/nil_core/src/mpt/mpt.cpp:394-407 | every byte of the hash in terms of the padded fold of the key |
| Hashing.HashOfOne | libs/nil_core/src/mpt/mpt.cpp:394-407 | the hash of the byte 1 is 2, then 62 zeros, then 4 |
| Hashing.EveryByteCounts | libs/nil_core/src/mpt/mpt.cpp:397-399 | changing one byte of a key of any length changes the hash |
| Hashing.BlocksCancel | libs/nil_core/src/mpt/mpt.cpp:397-399 | a 64-byte block followed by itself hashes like nothing at all |
| Hashing.StirredIsInjective | libs/nil_core/src/mpt/mpt.cpp:401-404 | the in-place xor-and-rotate pass loses nothing: it is injective on 64-byte blocks |
| Hashing.CollisionIffFoldsAgree | libs/nil_core/src/mpt/mpt.cpp:394-407 | two inputs collide exactly when the xor of their zero-padded 64-byte blocks is the same |
| Hashing.TrailingZeroCollides | libs/nil_core/src/mpt/mpt.cpp:394-407 | the hash does collide: a trailing zero byte is invisible to it |
| Hashing.KeyPathNibbles | libs/nil_core/src/mpt/mpt.cpp:411-421 | the path of a key: the nibbles of its own bytes up to 32 of them, those of its hash beyond |
| Hashing.PathFromKeyIsInjective | libs/nil_core/src/mpt/mpt.cpp:411-421 | keys of one fixed length up to 64 bytes never share a path |
| Hashing.RawPathsAreTheirOwn | libs/nil_core/src/mpt/mpt.cpp:411-421 | a raw key shares its path with no other key, raw or hashed |
| Ssz.PairRoundTrip | libs/nil_core/include/zkevm_framework/core/mpt/node.hpp:59-70 | a two-field container decodes to its fields; its offsets are exact |
| Ssz.ListRoundTrip | libs/nil_core/include/zkevm_framework/core/mpt/node.hpp:87-90 | a list of byte lists decodes to its items; its offset table is exact |
| Encodings.ListOffsets | libs/nil_core/include/zkevm_framework/core/mpt/node.hpp:87-90 | a list begins with the offset of every item, in four bytes |
| Encodings.ListItems | libs/nil_core/include/zkevm_framework/core/mpt/node.hpp:87-90 | the items of a list follow its table |
| Encodings.OffsetBytes | libs/nil_core/include/zkevm_framework/core/mpt/node.hpp:59-90 | an offset is four bytes, the least significant first |
| Nodes.Encode | libs/nil_core/src/mpt/node.cpp:20-52 | type flag, then the SSZ container of the fields, as a function of the nibbles of the path |
| Nodes.GetBranches | libs/nil_core/src/mpt/node.cpp:54-61 | the stored references in their slots, empty references in the rest |
| Nodes.NodeRoundTrip | libs/nil_core/src/mpt/node.cpp:20-94 | decoding an encoded leaf, extension or 16-slot branch gives the node back |
| Nodes.EncodingIsInjective | libs/nil_core/src/mpt/node.cpp:20-52 | different nodes have different encodings |
| Encodings.NodeLayout | libs/nil_core/src/mpt/node.cpp:20-52 | first byte 0, 1 or 2 by kind, then two offsets from the start of the container, path or branches, and value or next reference |
| Encodings.OneLeaf | libs/nil_core/src/mpt/node.cpp:20-25 | the twelve bytes of the leaf at nibbles 1, 2, 3 with value AB |
| Encodings.DecodeErrors | libs/nil_core/src/mpt/node.cpp:76-94 | which of the two exceptions of `DecodeNode` comes for which bytes |
| Encodings.LeafCapacity | libs/nil_core/include/zkevm_framework/core/mpt/node.hpp:49 | a leaf is read back exactly up to 100000000 bytes of value |
| Encodings.ExtensionCapacity | libs/nil_core/include/zkevm_framework/core/mpt/node.hpp:73 | an extension exactly up to 1000 bytes of reference |
| Encodings.BranchCapacity | libs/nil_core/include/zkevm_framework/core/mpt/node.hpp:90 | a branch exactly up to 16 references of 1000 bytes and that value |
| Tries.InsertKeepsWellFormed | libs/nil_core/src/mpt/mpt.cpp:58-178 | `SetNode` keeps 16 slots, non-empty extension paths that lead to branches, and the remaining path length as a bound |
| Tries.InsertKeepsCanonical | libs/nil_core/src/mpt/mpt.cpp:58-178 | with non-empty values every branch keeps at least two of slots and value |
| Tries.InsertLookup | libs/nil_core/src/mpt/mpt.cpp:58-178 | after `SetNode` the path holds the value and every other path what it held before |
| CanonicalForm.CanonicalIsUnique | libs/nil_core/src/mpt/mpt.cpp:58-178 | two canonical tries that hold the same map are the same trie |
| CanonicalForm.EmptyAnswer | libs/nil_core/src/mpt/mpt.cpp:18-46 | an absent path is answered with empty bytes exactly where two keys part, otherwise with nothing |
| CanonicalForm.EmptyAtBranches | libs/nil_core/src/mpt/mpt.cpp:18-46 | on tries whose compression is not complete as well: an absent path is answered with empty bytes exactly at the branches |
| Deletion.MissingIffAbsent | libs/nil_core/src/mpt/mpt.cpp:201-270 | "Key not found" is the outcome exactly when the path holds nothing, as written and repaired |
| Deletion.DeleteShape | libs/nil_core/src/mpt/mpt.cpp:201-388 | what a deletion leaves is well formed; a branch stays one, or collapses to a leaf or extension |
| Deletion.RepairedIsCanonical | libs/nil_core/src/mpt/mpt.cpp:306-388 | repaired: branch collapse and extension merge restore the canonical form |
| Deletion.DeleteLookup | libs/nil_core/src/mpt/mpt.cpp:197-388 | exactly the given path is dropped: repaired always, as written on every safe walk |
| Deletion.DeletedMeansAlone | libs/nil_core/src/mpt/mpt.cpp:197-388 | as written, `Deleted` is returned only when the subtree held the given path and nothing else |
| Deletion.DeletedIffOnly | libs/nil_core/src/mpt/mpt.cpp:197-388 | as written, `Deleted` is returned exactly when extensions alone lead to a leaf or to a branch without slots that ends at the path |
| Removal.UnsafeGoesAstray | libs/nil_core/src/mpt/mpt.cpp:242-350 | as written: whenever the walk is unsafe, some lookup goes wrong for some content of the uninitialized index |
| Removal.AsWrittenDropsExactly | libs/nil_core/src/mpt/mpt.cpp:197-388 | as written: a held path is dropped and nothing else changes if and only if no visited branch loses its only slot while valueless or its value while holding two slots or more |
| Removal.RemoveAsWrittenExactly | libs/nil_core/src/mpt/mpt.cpp:449-471 | as written: `remove` of a held key works if and only if the walk is safe, another key is left and the root does not collapse |
| Removal.KeyNotFoundExactly | libs/nil_core/src/mpt/mpt.cpp:201-270 | in either mode `remove` throws "Key not found" exactly when the trie holds something but not the key, and does nothing to an empty trie |
| Removal.AsWrittenEffect | libs/nil_core/src/mpt/mpt.cpp:197-388 | as written, for every held key and content of the index: what is left at every path, on safe walks, where a value goes together with the slot the index names, and where nothing is dropped |
| Removal.LosesValueIffParts | libs/nil_core/src/mpt/mpt.cpp:242-270 | the second of these happens exactly when two longer keys part at the key |
| Removal.RemoveAsWrittenAnswers | libs/nil_core/src/mpt/mpt.cpp:449-471 | as written: exactly when `remove` of a held key throws or reads outside an object, and otherwise what it leaves |
| Removal.RepairedRemove | libs/nil_core/src/mpt/mpt.cpp:449-471 | repaired: throws exactly for an absent key, otherwise drops that key alone and leaves a canonical trie |
| Removal.SetThenRemove | libs/nil_core/src/mpt/mpt.cpp:443-471 | repaired: setting an absent key and removing it gives the identical trie back |
| Removal.DeleteKeepsProper | libs/nil_core/src/mpt/mpt.cpp:197-388 | in either mode no leaf without a value and no branch that holds nothing is left behind |
| Removal.AloneIsNotEnough | libs/nil_core/src/mpt/mpt.cpp:329-350 | as written: a subtree that holds one path need not be `Deleted`; a valueless branch with one slot brings the path back |
| Agreement.DeletedIffAlone | libs/nil_core/src/mpt/mpt.cpp:197-388 | on a canonical trie, in either mode, a subtree vanishes if and only if it holds the given path and nothing else |
| Agreement.AgreeIffTidy | libs/nil_core/src/mpt/mpt.cpp:197-388 | on a canonical trie the code as written does what was intended if and only if a branch that loses its value has one slot and one that loses a slot keeps two things |
| Agreement.RemoveAgreesExactly | libs/nil_core/src/mpt/mpt.cpp:449-471 | the same for `remove` as a whole, with the two departures at the root |
| References.SameRootSameTrie | libs/nil_core/src/mpt/mpt.cpp:479-500 | for any unambiguous way of referring to nodes, equal root references mean equal tries |
| Merkle.RootCommits | libs/nil_core/src/mpt/mpt.cpp:479-500 | equal root bytes mean equal tries when none of the nodes involved collide |
| Merkle.FetchReturnsNode | libs/nil_core/src/mpt/mpt.cpp:479-500 | without collisions whatever was put into the store reads back as the node it was, on both sides of the 32-byte boundary |
| Merkle.JustStoredReadsBack | libs/nil_core/src/mpt/mpt.cpp:479-500 | what was put last reads back even with collisions |
| Merkle.StoreOfIsBacked | libs/nil_core/src/mpt/mpt.cpp:491-500 | after any sequence of puts each hash maps to the encoding of some node that was put |
| Merkle.PastRootsPersist | libs/nil_core/src/mpt/mpt.cpp:479-500 | no reference dangles below any trie whose nodes were all written, however much was written since |
| Merkle.StoreDecides | libs/nil_core/src/mpt/mpt.cpp:479-489 | with collisions or without, a store reads a reference as one trie at most |
| Merkle.CollidingLeaves | libs/nil_core/src/mpt/mpt.cpp:491-500 | leaves of 32 encoded bytes or more that differ by a trailing zero byte share their reference |
| Encodings.InlineExactly | libs/nil_core/src/mpt/mpt.cpp:491-500 | a node stands for itself exactly below 32 bytes, and otherwise for its hash of 64 |
| Encodings.CollisionFreeExactly | libs/nil_core/src/mpt/mpt.cpp:491-500 | the hypothesis on collisions: the nodes of 32 bytes and more that were written have hashes of their own |
| Encodings.FetchExactly | libs/nil_core/src/mpt/mpt.cpp:479-489 | when "Node not found" is thrown, and which bytes are decoded otherwise |
| Encodings.RootLayout | libs/nil_core/src/mpt/mpt.cpp:479-510 | the root bytes from those of the children, slot by slot |
| Mpt.CountSlots | libs/nil_core/src/mpt/mpt.cpp:330-333 | `count_if` counts the references that are not empty |
| Mpt.FindSlot | libs/nil_core/src/mpt/mpt.cpp:354-361 | `find_if` finds the first reference that is not empty |
| Mpt.MerklePatriciaTrie.constructor | libs/nil_core/src/mpt/mpt.cpp:409 | an empty trie over an empty store |
| Mpt.MerklePatriciaTrie.ReadNode | libs/nil_core/src/mpt/mpt.cpp:479-489 | `GetFromStorage` on a reference that stands for a trie never fails: the node read is the top of that trie, its children by their references |
| Mpt.MerklePatriciaTrie.PutToStorage | libs/nil_core/src/mpt/mpt.cpp:491-500 | returns the reference of the node and appends it to the history of the store |
| Mpt.MerklePatriciaTrie.GetNode | libs/nil_core/src/mpt/mpt.cpp:14-51 | the walk over encoded nodes answers what the trie it stands for holds; it never fails on a missing or malformed node |
| Mpt.MerklePatriciaTrie.RootStands | libs/nil_core/src/mpt/mpt.cpp:479-510 | as long as no two different nodes written collide, the root stands for the trie that the operations built |
| Mpt.MerklePatriciaTrie.Get | libs/nil_core/src/mpt/mpt.cpp:423-441 | the outcome of `get`, exceptions included, in terms of whatever trie the root stands for in the present store |
| Mpt.MerklePatriciaTrie.SetNode | libs/nil_core/src/mpt/mpt.cpp:502-510 | the reference returned stands for the trie with the path set; exactly its nodes were written; no exception |
| Mpt.MerklePatriciaTrie.SetLeaf | libs/nil_core/src/mpt/mpt.cpp:58-76 | replaces the leaf or splits it at the common prefix |
| Mpt.MerklePatriciaTrie.SplitLeaf | libs/nil_core/src/mpt/mpt.cpp:63-76 | branch of the two remainders below an extension for the common prefix; "invalid action" is unreachable |
| Mpt.MerklePatriciaTrie.CreateBranchLeaf | libs/nil_core/src/mpt/mpt.cpp:129-137 | one slot is filled with a new leaf, unless the path is empty |
| Mpt.MerklePatriciaTrie.CreateBranchNode | libs/nil_core/src/mpt/mpt.cpp:139-159 | throws exactly when both paths are empty, otherwise returns the fork of the two leaves |
| Mpt.MerklePatriciaTrie.SetExtension | libs/nil_core/src/mpt/mpt.cpp:78-107 | sets below the extension, or splits it |
| Mpt.MerklePatriciaTrie.SplitAt | libs/nil_core/src/mpt/mpt.cpp:92-107 | the branch that replaces the rest of the extension; throws exactly for an empty rest |
| Mpt.MerklePatriciaTrie.CreateBranchExtension | libs/nil_core/src/mpt/mpt.cpp:161-178 | one slot gets the child, below a shorter extension if more than one nibble is left |
| Mpt.MerklePatriciaTrie.SetBranch | libs/nil_core/src/mpt/mpt.cpp:109-124 | sets the branch value or the subtree of one slot |
| Mpt.MerklePatriciaTrie.Set | libs/nil_core/src/mpt/mpt.cpp:443-447 | `root` and store represent the trie with the key set, and the new nodes are the only ones written |
| Mpt.MerklePatriciaTrie.DeleteNode | libs/nil_core/src/mpt/mpt.cpp:473-477 | over encoded nodes: the outcome, the reference left and the nodes written are those of the deletion on tries |
| Mpt.MerklePatriciaTrie.DeleteBelowExtension | libs/nil_core/src/mpt/mpt.cpp:208-240 | the extension case, with every result of the child |
| Mpt.MerklePatriciaTrie.HandleUselessBranch | libs/nil_core/src/mpt/mpt.cpp:276-304 | the node that replaced a branch merges with the extension above it |
| Mpt.MerklePatriciaTrie.DeleteFromBranch | libs/nil_core/src/mpt/mpt.cpp:242-270 | the branch case: value or slot |
| Mpt.MerklePatriciaTrie.HandleBranchDeleteResult | libs/nil_core/src/mpt/mpt.cpp:306-327 | a changed child is linked into its slot, a deleted one is handed on |
| Mpt.MerklePatriciaTrie.HandleDeletion | libs/nil_core/src/mpt/mpt.cpp:329-350 | the branch vanishes, collapses or is kept, as written or repaired |
| Mpt.MerklePatriciaTrie.BuildNewNodeFromLastBranch | libs/nil_core/src/mpt/mpt.cpp:352-388 | the last child moves up below the nibble of its slot |
| Mpt.MerklePatriciaTrie.Remove | libs/nil_core/src/mpt/mpt.cpp:449-471 | the outcome of `remove` in terms of the trie; "Key not found" comes exactly when the trie is not empty and does not hold the key, and then root and store are unchanged |
| Runs.RunRefinesMap | libs/nil_core/src/mpt/mpt.cpp:423-510 | after every admissible run of sets and removes the trie holds exactly the map the operations describe |
| Runs.RunIsCanonical | libs/nil_core/src/mpt/mpt.cpp:423-510 | runs with repaired or tidy removes keep the trie canonical |
| Runs.HistoryIndependence | libs/nil_core/src/mpt/mpt.cpp:423-510 | the final map alone decides the root bytes; they are empty exactly for the empty map |
| Runs.RemainderIsWritten | libs/nil_core/src/mpt/mpt.cpp:201-388 | a deletion leaves only nodes that were there before or that it wrote |
| Runs.RootIffContents | libs/nil_core/src/mpt/mpt.cpp:423-510 | without collisions equal roots mean equal maps, and for canonical runs equal maps mean equal roots |
| Runs.GetAnswers | libs/nil_core/src/mpt/mpt.cpp:423-441 | what `get` answers after a run is a function of the map: value, empty bytes where two keys part, or one of two exceptions |
| Runs.Replay | libs/nil_core/src/mpt/mpt.cpp:423-510 | the class goes through any admissible run as the tries do, and logs exactly the nodes written |
| Runs.Ask | libs/nil_core/src/mpt/mpt.cpp:423-441 | `get` after any canonical run answers by the map |
| Runs.Discard | libs/nil_core/src/mpt/mpt.cpp:449-471 | `remove` after any admissible run throws "Key not found" exactly for a key that a non-empty map does not have |
| Runs.EarlierRootsPersist | libs/nil_core/src/mpt/mpt.cpp:479-510 | every earlier root of a run still represents the same trie in the final store |
| Departures.StaysUncompressedThenComesBack | libs/nil_core/src/mpt/mpt.cpp:329-350 | as written: after set 00, set 01, remove 00 the branch keeps one slot uncompressed; then remove 01 returns and the key is still there |
| Departures.DropsAnotherKey | libs/nil_core/src/mpt/mpt.cpp:242-270 | as written: removing the empty key next to 00 and 10 drops 10 as well when the uninitialized index names its slot |
| Departures.LastKeyStays | libs/nil_core/src/mpt/mpt.cpp:457-470 | as written: the only key, whichever it is, cannot be removed: an object is read that is not there |
| Departures.RootRefuses | libs/nil_core/src/mpt/mpt.cpp:457-470 | as written: removing the empty key next to 10 throws "remove error" |
| Departures.SameRootOtherContents | libs/nil_core/src/mpt/mpt.cpp:479-510 | two runs of two sets with different contents end with the same root, because their nodes collide |
| Departures.CollidingKeysAnswerAlike | libs/nil_core/src/mpt/mpt.cpp:423-447 | after 00 and 10 were set to values that differ by a trailing zero byte, `get` answers the same for both |
| Streams.SocketStream.Read | libs/rpc/include/httplib.h:5771-5815 | for every fragmentation by the socket: the next pending bytes, at least one if any are pending, otherwise end or time-out |
| Streams.StreamLineReader.Append | libs/rpc/include/httplib.h:2761-2772 | the line grows by one character, across the switch from the fixed to the growing buffer |
| Streams.StreamLineReader.GetLine | libs/rpc/include/httplib.h:2733-2759 | exactly the next line, and fails exactly when there is none |
| Streams.NextLineExactly | libs/rpc/include/httplib.h:2733-2759 | what the next line is, both ways: up to the first line feed, or all that is left when the peer has closed |
| ChunkedTransfer.FromIToHex | libs/rpc/include/httplib.h:2379-2387 | the hexadecimal digits of the number |
| ChunkedTransfer.StrtoulOfHex | libs/rpc/include/httplib.h:4136 | `strtoul` reads a size written by `from_i_to_hex` back, whatever follows the digits |
| ChunkedBodies.DigitExactly | libs/rpc/include/httplib.h:2379-2387 | the hexadecimal digits are those of either case, and the lower one is written |
| ChunkedBodies.StrtoulReads | libs/rpc/include/httplib.h:4136 | `strtoul` on everything it takes, spaces, sign, prefix and digits of either case: their place value, capped, and negated after a minus sign |
| ChunkedBodies.StrtoulRefuses | libs/rpc/include/httplib.h:4138-4140 | where no digit follows the spaces and the sign nothing is converted |
| ChunkedBodies.PlainSize | libs/rpc/include/httplib.h:4136 | a size line of any sender: the value of its digits, whatever extension follows |
| ChunkedBodies.UpperCaseSizes | libs/rpc/include/httplib.h:4136 | for instance `A` is ten and `1F` thirty-one |
| ChunkedTransfer.ReadContentWithLength | libs/rpc/include/httplib.h:4063-4088 | succeeds exactly when enough bytes arrive and neither the receiver nor the progress callback refuses, and hands out exactly the bytes taken; a refusal ends it |
| ChunkedTransfer.ReadContentChunked | libs/rpc/include/httplib.h:4121-4193 | outcome, content handed out and bytes left over are a function of the bytes that arrive: fragmentation does not matter, on malformed input either; a receiver that refuses has been given the beginning of that content |
| ChunkedBodies.ReceivedExactly | libs/rpc/include/httplib.h:4121-4193 | reading succeeds on exactly the chunked bodies: size lines of the data that follow them, each closed by a line end, a last chunk and trailer lines of at most 8192 bytes; exactly their data is handed out and what follows stays |
| ChunkedBodies.NoSizeIsRefused | libs/rpc/include/httplib.h:4138-4143 | an unreadable size, or one of 2^64 - 1, ends the body |
| ChunkedBodies.CutChunkIsRefused | libs/rpc/include/httplib.h:4149-4151 | a chunk that is cut short is handed out as far as it goes |
| ChunkedBodies.OpenChunkIsRefused | libs/rpc/include/httplib.h:4153-4159 | a chunk that no line end follows is handed out, and the body is malformed |
| ChunkedBodies.LongFieldIsRefused | libs/rpc/include/httplib.h:4173-4176 | a trailer line of more than 8192 bytes ends the body |
| ChunkedTransfer.WriteData | libs/rpc/include/httplib.h:4297-4307 | all the data is sent although `send` may take it piecemeal |
| ChunkedTransfer.DataSink.Write | libs/rpc/include/httplib.h:4396-4419 | one chunk per non-empty payload; an empty one ends the data |
| ChunkedTransfer.DataSink.Done | libs/rpc/include/httplib.h:4423-4469 | the last chunk and the final line end |
| ChunkedTransfer.WriteContentChunked | libs/rpc/include/httplib.h:4388-4490 | on `Success` exactly the encoding of the calls made until no data was available or the server shut down is on the wire; `Canceled` only if the provider gave up before, `Write` only on an unhealthy connection |
| ChunkedBodies.MadeExactly | libs/rpc/include/httplib.h:4475-4490 | what is reported as sent are the calls up to the first invocation before which the data ended or the server shut down, if all before it wanted to go on |
| ChunkedBodies.DataEndsExactly | libs/rpc/include/httplib.h:4396-4398 | no more data is wanted exactly after `done` and after an empty write |
| ChunkedBodies.WrittenBytes | libs/rpc/include/httplib.h:4406-4412 | the bytes of one chunk: the only way of writing its size in lower case without a leading zero, line end, payload, line end |
| ChunkedBodies.DoneBytes | libs/rpc/include/httplib.h:4448-4466 | the bytes of `done` |
| ChunkedTransfer.WrittenChunks | libs/rpc/include/httplib.h:4121-4193 | reading back any written chunks delivers their payloads, and goes on with what follows them |
| ChunkedTransfer.CallsAreRead | libs/rpc/include/httplib.h:4121-4193 | of any calls exactly the writes before the first `done` are read; what comes after it is left for the next message, and without it reading goes on into what follows |
| ChunkedTransfer.ReceivedInFullExactly | libs/rpc/include/httplib.h:4389-4490 | all that was written is received, successfully, if and only if `done` was called and nothing was written after its first call; so `done`, write, `done` in one invocation is reported as sent and loses the write |
| ChunkedTransfer.SentIsReceivedExactly | libs/rpc/include/httplib.h:4475-4490 | when every invocation of the provider makes one call, what is reported as sent is received in full if and only if the last call was `done`, with a shutdown in between or without |
| ChunkedTransfer.ChunkedRoundTrip | libs/rpc/include/httplib.h:4121-4193 | writes and then `done` are received in full and successfully, and what follows stays on the connection |
| ChunkedTransfer.EmptyWriteIsNoEnd | libs/rpc/include/httplib.h:4396-4406 | writes and then an empty write are reported as sent but never received as complete |
| Multipart.FirstStays | libs/rpc/include/httplib.h:4881-4910 | the place where the delimiter is first seen does not depend on what arrives later |
| Multipart.DeliveredGrows | libs/rpc/include/httplib.h:4776-4799 | nothing handed out is ever taken back |
| Multipart.ContentIsDelivered | libs/rpc/include/httplib.h:4776-4799 | exactly the content is handed out if and only if it does not contain the delimiter |
| Multipart.ChunkingDoesNotMatter | libs/rpc/include/httplib.h:4673-4825 | however the bytes are split over the calls, the same content is handed out |
| Entries.FeedFollows | libs/rpc/include/httplib.h:4673-4825 | for every way of cutting, the state, the validity and the window are decided by the bytes: what is held back before the delimiter, and what follows it |
| Entries.EntryGetsTheRest | libs/rpc/include/httplib.h:4801-4807 | for every way of cutting, the call that brings the line end after the delimiter begins a new entry, leaves exactly what follows the line end, and the message is not valid yet |
| Entries.EntryExactly | libs/rpc/include/httplib.h:4801-4807 | an entry begins in a message not closed exactly when a line end follows the delimiter |
| Entries.ClosedExactly | libs/rpc/include/httplib.h:4808-4818 | the message is closed exactly when two dashes follow the delimiter |
| Epilogue.EpilogueReopensExactly | libs/rpc/include/httplib.h:4801-4820 | after the closing delimiter some way of cutting the epilogue begins a new entry if and only if the epilogue starts with a line end, or with two dashes that a line end follows somewhere |
| Epilogue.MessageClosesExactly | libs/rpc/include/httplib.h:4673-4825 | a message with its closing delimiter ends up closed however it is cut, if and only if no line end occurs in its epilogue |
| Epilogue.EpilogueDependsOnChunking | libs/rpc/include/httplib.h:4801-4820 | an instance: one line end after the message is dropped together with the delimiter, but begins a new entry in one call of its own or in two |
| Multipart.MultipartFormDataParser.BufStartWith | libs/rpc/include/httplib.h:4858-4879 | the window begins with the string |
| Multipart.MultipartFormDataParser.BufFind | libs/rpc/include/httplib.h:4881-4910 | position of the first occurrence in the window, or its size |
| Multipart.MultipartFormDataParser.BufAppend | libs/rpc/include/httplib.h:4912-4930 | the window grows by the data, moved to the front in place |
| Multipart.MultipartFormDataParser.ParseBody | libs/rpc/include/httplib.h:4776-4799 | state 3: content before the delimiter, or all but a last stretch of its length; after a refusal the window keeps it and the message is invalid |
| Multipart.MultipartFormDataParser.ParseBoundary | libs/rpc/include/httplib.h:4801-4820 | state 4: new entry, end of the message, or wait |
| Multipart.MultipartFormDataParser.Parse | libs/rpc/include/httplib.h:4673-4825 | one call: false exactly when the receiver refuses; status and content are as the step function says, and the content stays a function of all bytes seen |
| ThreadPools.StepKeepsInv | libs/rpc/include/httplib.h:660-739 | every step of every worker and caller keeps order, coverage and the shutdown discipline |
| ThreadPools.EveryReachableState | libs/rpc/include/httplib.h:660-739 | jobs start in the order of acceptance, each is queued, running or finished as often as it was accepted, and the queue respects its limit |
| ThreadPools.NeverStuck | libs/rpc/include/httplib.h:670-728 | no lost wake-up: while jobs are queued or the pool shuts down, and a worker is left, some step can be taken |
| ThreadPools.QueueDrains | libs/rpc/include/httplib.h:670-728 | left alone before a shutdown every schedule comes to rest within a bound, and rests only when every accepted job has run |
| ThreadPools.JoinedMeansDone | libs/rpc/include/httplib.h:686-701 | with all workers joined every accepted job has run if and only if the queue is empty, and it is empty unless a job was accepted after the shutdown |
| ThreadPools.ShutdownEnds | libs/rpc/include/httplib.h:686-701 | after a shutdown every schedule comes to rest within a bound, and rests only when all workers can be joined |
| ThreadPools.NothingStartsAfterExit | libs/rpc/include/httplib.h:670-701 | once all workers have left, no further step starts or finishes a job |
| ThreadPools.LateJobIsLost | libs/rpc/include/httplib.h:670-701 | a job accepted after the last worker has left never runs, whatever happens next |
| ThreadPools.NoWorkersNoWork | libs/rpc/include/httplib.h:662-668 | a pool without workers accepts jobs and runs none |
| ThreadPools.AcceptedExactly | libs/rpc/include/httplib.h:673-684 | a job is accepted exactly when the queue has no limit or is shorter than it, during a shutdown as well; a refused one leaves no trace |
| ThreadPools.ThreadPool.Enqueue | libs/rpc/include/httplib.h:673-684 | the critical section: accepted exactly when there is no limit or the queue is shorter; then the job is queued last and a notification is due |
| ThreadPools.ThreadPool.Turn | libs/rpc/include/httplib.h:710-723 | the critical section of a worker: takes the first job, and with none waits, or leaves after a shutdown |
| TableStream.PaddedRowsAmount | libs/assigner_runner/include/zkevm_framework/assigner_runner/write_assignments.hpp:117-126 | the in-place adjustment computes the row count |
| TableStream.HeightIffShort | libs/assigner_runner/include/zkevm_framework/assigner_runner/write_assignments.hpp:117-126 | it is the least power of two that is at least 8 and above every column if and only if the longest column is shorter than 2^31 |
| TableStream.HalfIsCutToEight | libs/assigner_runner/include/zkevm_framework/assigner_runner/write_assignments.hpp:120-126 | at 2^31 the doubling wraps around and the table is cut to eight rows |
| TableStream.BeyondHalf | libs/assigner_runner/include/zkevm_framework/assigner_runner/write_assignments.hpp:117-126 | beyond 2^31 the row count is whatever the conversion of 2^32 gives |
| TableLayout.RowsExactly | libs/assigner_runner/include/zkevm_framework/assigner_runner/write_assignments.hpp:117-126 | the row count is eight, or the one power of two above the longest column and at most twice as large |
| TableLayout.SmallTables | libs/assigner_runner/include/zkevm_framework/assigner_runner/write_assignments.hpp:117-126 | up to seven usable rows eight are written, for eight sixteen |
| TableLayout.UsableIsLongest | libs/assigner_runner/include/zkevm_framework/assigner_runner/write_assignments.hpp:95-118 | the announced length is that of the longest column of all four kinds |
| TableStream.MaxColumnSize | libs/assigner_runner/include/zkevm_framework/assigner_runner/write_assignments.hpp:98-116 | the loop finds the longest column |
| TableStream.WriteVectorValue | libs/assigner_runner/include/zkevm_framework/assigner_runner/write_assignments.hpp:76-85 | the column, cut or filled up with zero cells to the row count |
| TableStream.WriteBinaryAssignment | libs/assigner_runner/include/zkevm_framework/assigner_runner/write_assignments.hpp:90-160 | the stream: six counts, then four sections |
| TableStream.StreamRoundTrip | libs/assigner_runner/include/zkevm_framework/assigner_runner/write_assignments.hpp:90-160 | the stream decodes to the counts and the zero-padded table, in either byte order |
| TableStream.NothingIsCut | libs/assigner_runner/include/zkevm_framework/assigner_runner/write_assignments.hpp:90-160 | below 2^31 rows the decoded table extends every column by zeros only |
| TableLayout.CountWords | libs/assigner_runner/include/zkevm_framework/assigner_runner/write_assignments.hpp:130-135 | the six words in front: witnesses, public inputs, constants, selectors, longest column, rows |
| TableLayout.SizeLittle | libs/assigner_runner/include/zkevm_framework/assigner_runner/write_assignments.hpp:28-36 | a count takes eight bytes, the least significant first, or (`SizeBig`) the other way round |
| TableLayout.SectionWord | libs/assigner_runner/include/zkevm_framework/assigner_runner/write_assignments.hpp:137-158 | where each section begins, and its first word: the number of its cells modulo 2^32 |
| TableLayout.CellInStream | libs/assigner_runner/include/zkevm_framework/assigner_runner/write_assignments.hpp:76-85 | where every cell of every column is in the stream, and that the cells past the end of a column are all zeros |
| TableLayout.StreamLength | libs/assigner_runner/include/zkevm_framework/assigner_runner/write_assignments.hpp:90-160 | nothing else is in the stream |
| TableLayout.BeforeFour | libs/assigner_runner/include/zkevm_framework/assigner_runner/write_assignments.hpp:137-159 | its length: the words and `rows * width` bytes for every column |
| Ranges.RangeToString | libs/output_artifacts/src/output_artifacts.cpp:47-59 | the text of one range |
| RangeForms.TextForms | libs/output_artifacts/src/output_artifacts.cpp:47-59 | a single index is printed without a dash, an open end as a dash |
| RangeForms.SingleForm | libs/output_artifacts/src/output_artifacts.cpp:30-31 | `N` is the one index, for any digits, or throws when it is no `int` |
| RangeForms.OpenForm | libs/output_artifacts/src/output_artifacts.cpp:32-33 | `N-` is open above |
| RangeForms.UpToForm | libs/output_artifacts/src/output_artifacts.cpp:34-35 | `-N` stands for the indices from 0 to N |
| RangeForms.BothForm | libs/output_artifacts/src/output_artifacts.cpp:36-42 | `N-M` is refused when it is reversed |
| RangeForms.BadExactly | libs/output_artifacts/src/output_artifacts.cpp:44 | any other text, and no other, is a bad range |
| RangeForms.TokensExactly | libs/output_artifacts/src/output_artifacts.cpp:69-87 | the tokens are the pieces between the commas |
| RangeForms.TokensInTurn | libs/output_artifacts/src/output_artifacts.cpp:76-86 | good tokens are read one after the other, in order |
| RangeForms.OneToken | libs/output_artifacts/src/output_artifacts.cpp:77-83 | an empty token is skipped, any other gives its range or its error |
| RangeForms.FirstBadDecides | libs/output_artifacts/src/output_artifacts.cpp:69-87 | the first token that is bad decides, whatever follows |
| Ranges.Parse | libs/output_artifacts/src/output_artifacts.cpp:69-87 | tokens between commas, empty ones skipped, the first bad one decides |
| Ranges.ToString | libs/output_artifacts/src/output_artifacts.cpp:89-95 | the texts joined by commas |
| Ranges.PrintThenParse | libs/output_artifacts/src/output_artifacts.cpp:28-95 | printing and parsing gives the ranges back if and only if every bound is an `int` and no upper bound is below its lower bound |
| Ranges.ConcreteRanges | libs/output_artifacts/src/output_artifacts.cpp:97-107 | all ranges are made concrete, or none |
| Ranges.ConcreteExactly | libs/output_artifacts/src/output_artifacts.cpp:61-67 | a pair is ordered and in bounds, and stands for the indices up to the maximum if and only if its upper bound survives the conversion to `int` or is cut to the maximum |
| Ranges.RefusedExactly | libs/output_artifacts/src/output_artifacts.cpp:61-67 | a parsed range is refused exactly when it reaches or begins beyond the maximum |
| RangeForms.ConcreteGeneral | libs/output_artifacts/src/output_artifacts.cpp:61-67 | any range of a caller's: its upper bound is taken modulo 2^32, and it is refused exactly when that is negative, beyond the maximum or below the lower bound |
| Ranges.WideBoundIsCut | libs/output_artifacts/src/output_artifacts.cpp:61-67 | an upper bound past 32 bits in a caller's own range loses its high part |
| Ranges.ParsedThenConcrete | libs/output_artifacts/src/output_artifacts.cpp:28-107 | for every text that parses, the concrete pairs cover exactly the indices asked for |

## Left out

- Mpt.MerklePatriciaTrie.Set: takes values of at most 100000000 bytes, the capacity of the SSZ list in node.hpp; what the SSZ library does beyond it is not part of this model. The trie must be readable from the store, which `RootStands` gives as long as no nodes collide; with a collision the store may hand out another node.
- Mpt.MerklePatriciaTrie.Get: the root must stand for some trie in the present store; a store in which a collision has left no trie at all is not part of this model.
- Mpt.MerklePatriciaTrie.Remove: the trie must be readable from the store; after an access outside an object (`BadAccess`), which is undefined behaviour, only the integrity of the store is stated.
- Deletion.DeleteLookup: the mode `Repaired` is not in the repository; it is the reference against which the code as written is measured.
- Nodes.NodeRoundTrip: the SSZ library is not part of this model; only the layout of containers and lists from the Ethereum consensus specifications, section "Serialization", is. The value, reference and slot limits are checked when decoding.
- Runs.RunRefinesMap: runs set non-empty values only, and use `remove` as written only where it is proved to work.
- Paths.Path.Nth: the unchecked access past the end of the bytes is undefined behaviour.
- ChunkedTransfer.ReadContentChunked: trailer fields are read and skipped, not stored; decompression is not part of this model.
- ChunkedTransfer.WriteContentChunked: no compression and no trailer fields; the provider's calls do not depend on the answers of the sink, and what is on the wire is not stated after a failure.
- ChunkedTransfer.ReceivedInFullExactly: payloads of 2^64 - 1 bytes and more, which no `size_t` buffer holds, are left out.
- Streams.SocketStream.Read: time-outs show as the end of the bytes that arrive; retries after interrupted system calls are not part of this model.
- Multipart.MultipartFormDataParser.Parse: states 0 to 2, the first boundary and the headers of a part, are not part of this model.
- ThreadPools.ShutdownEnds: every job is assumed to return; the steps inside a job are not part of this model.
- TableStream.WriteBinaryAssignment: cells arrive as marshalled bytes of one width; the logarithm is exact; the write inside `assert` is taken to happen, although a build without assertions would leave zeros; the word before each section is a 32-bit product that wraps, and the reader does not rely on it.
- Ranges.Parse: the four forms stand for the regular expressions; error texts are reduced to their kind and token.
- The rest of `httplib.h`: sockets, TLS, routing, compression, header parsing, cookies and authentication.
- Runner, external host, presets, checks, JSON loading and schema validation: glue around libraries that are not in the repository.
- Block generation scripts, data extraction, command lines and build files.
- Cryptographic strength of `BasicHash`.
