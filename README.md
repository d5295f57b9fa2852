# Huffman codec over a threaded map, in Dafny

This project models the two core pieces of a small C++ Huffman compressor and proves
properties of them:

- `mymap<int, string>` (mymap.h) is an ordered map kept as a "threaded" binary search tree.
  - Its nodes live in an arena `seq<Node>` (module `ThreadedMap`, file `threaded_map.dfy`).
    A pointer is an index and the null pointer is `Null`.
  - The class `Mymap.MyMap` (file `mymap.dfy`) has the fields `nodes`, `root` and `size`, and its
    methods update them in place: put, putNode, findCurrentKey, contains, get, operator[], Size,
    clear, toVector and inOrder, copy and copyNode, operator= and the copy constructor.
  - Ghost state holds the map the tree stands for (`Contents`) and the per-node bookkeeping of
    the invariant (`Sub`, `Parent`).
  - putNode and findCurrentKey are proved against pure functions of the arena (`Link`,
    `Locate`). Their properties are lemmas: the BST order, the threading flags, and which
    counter goes up.
- The codec (util.h) works on sequences instead of streams.
  - `HuffmanTrees` (file `huffman_tree.dfy`) has the tree datatype, the code map as a function
    (`Codes`), decode's walk as a function (`Walk`), and the lemmas behind the round trip: codes
    are root-to-leaf paths, the codes are prefix-free, and walking an encoding gives the text
    back.
  - `Huffman` (file `huffman.dfy`) has the procedures as methods:
    - buildFrequencyMap (string branch);
    - the priority-queue steps of buildEncodingTree;
    - BEMHelper / buildEncodingMap, which put into a `MyMap`;
    - encode, which looks up through `MyMap.Index` (operator[]);
    - decode.
  - `Huffman.CompressDecompress` chains them and proves that decoding what encode wrote gives
    back the input text.
- `FileNames` (file `file_names.dfy`) models the file names compress and decompress derive.

Representation choices:

- The frequency table, a `hashmap` from an unseen header, is a `map<int, int>`.
- A bit stream is a `seq<Bit>`.
- A signed `char` is `Char`, an int in [-128, 127].
- The constants are `PSEUDO_EOF = 256` (the literal of util.h:179) and `NOT_A_CHAR = 257`.
- `std::priority_queue` is a sequence. `PopMin` removes some element of least count: which one
  among equal counts is left open, so every tree property is proved for any tie order.
- The order in which the hashmap's keys come out is also left open.

Observations the proofs rest on, where the code and its comments part ways:

- Nothing rebalances the tree. `nL`/`nR` are counted, reported by checkBalance and
  copied by copyNode, but no code restructures the tree from them. `OneTwoThreeIsAChain`
  shows that putting 1, 2, 3 gives a right-leaning chain, not the balanced tree the comment at
  mymap.h:490-493 describes.
- A threaded node never has a right link: putNode attaches a right child only to a node whose
  right link is null. So the flag only means "do not descend right", and copy's early return
  for threaded nodes (mymap.h:215-217) is never taken.
- buildEncodingTree returns the null tree for a table with one entry, not a single leaf
  (util.h:111, 129). The string branch always adds PSEUDO_EOF, so this happens only for the
  empty text. In the model the round trip still holds there: the encoding is empty and the
  walk stops at the end of the bit sequence with nothing decoded. The source's decode on the
  null tree would dereference null as soon as its loop body runs once; whether it runs depends
  on the `eof()` of the bit stream, which is not part of this model (see `Huffman.Decode`
  under "## Left out").
- copyNode copies the source root's `nL`/`nR`, and the puts that follow increment them again
  (mymap.h:195-204, 209-224). So when the original root has a child, the root of a copy gets
  higher `nL`/`nR`, and checkBalance reports different counters for it. The entries and
  their order are the same.
- The copy constructor dereferences `other.root` even after finding it null (mymap.h:249-252).
  `MyMap.CopyOf` therefore requires a non-empty source; `Assign` handles the empty one.

## Model

| member | source | states |
|---|---|---|
| ThreadedMap.Locate | mymap.h:138-151 | the search result is null or a node holding the key; it never goes through the right link of a threaded node |
| ThreadedMap.LocateFinds | mymap.h:138-151 | on a well-formed tree, the search from c stops at a node iff the key is in c's subtree, and that node holds the key's value in the map |
| ThreadedMap.LinkAttachesOnce | mymap.h:98-131 | putNode hangs the new node in an empty slot of exactly one existing node: on the left iff its key is smaller, on the right otherwise. Only that parent's nL (left) or nR (right) goes up by one, the new node is flagged threaded, and a parent that gains a right child loses its flag. No other node changes and none moves |
| ThreadedMap.SetValueOk | mymap.h:318-327 | overwriting the value of a present key keeps the tree well-formed and the keys distinct |
| ThreadedMap.AppendOk | mymap.h:329-338 | allocating the unlinked node for an absent key keeps every node well-formed and the keys distinct, and no node links to it yet |
| ThreadedMap.DescentStep | mymap.h:101-130 | one step down in putNode keeps the descent invariant, and linking from the new cursor still gives the arena that linking from the root gives |
| ThreadedMap.AttachLeftOk | mymap.h:104-109 | hanging the new node as cur's left child gives a well-formed BST: smaller keys on the left, threaded nodes with null right links, and subtree key sets that add up |
| ThreadedMap.AttachRightOk | mymap.h:117-124 | hanging the new node as cur's right child (cur loses its thread flag) gives a well-formed BST |
| ThreadedMap.DescentAttach | mymap.h:98-131 | ending putNode in the empty slot gives exactly `Link` from the root, a well-formed tree, and a root key set that has gained the key |
| ThreadedMap.WalkFacts | mymap.h:157-175 | the in-order walk of a subtree lists exactly its keys, in strictly ascending order, each with its value in the map |
| ThreadedMap.EntriesOfContents | mymap.h:474-485 | when the map's keys are the root's subtree, the walk from the root lists exactly the map's pairs, in strictly ascending order |
| ThreadedMap.AscendingKeyCount | mymap.h:474-485 | a strictly ascending pair list has as many distinct keys as entries, so toVector's length is the number of pairs |
| ThreadedMap.AscendingUnique | mymap.h:266-282 | two strictly ascending pair lists with the same pairs are the same list, so a copy lists its pairs exactly as the original does |
| ThreadedMap.OneTwoThreeIsAChain | mymap.h:486-503 | after putting 1, 2, 3 into an empty map, the in-order (key, nL, nR) report is (1,0,1), (2,0,1), (3,0,0): a chain, with no rebalancing |
| Mymap.MyMap.constructor | mymap.h:234-237 | the default constructor gives an empty valid map of size 0 |
| Mymap.MyMap.FindCurrentKey | mymap.h:138-151 | the loop stops where `Locate` does. found iff the key is in the subtree of start; when found, the cursor's node holds the key and its value in the map, and otherwise the cursor is null |
| Mymap.MyMap.PutNode | mymap.h:98-131 | the descent loop turns the arena into `Link(old nodes, root, n)`, restores the tree invariant and adds the key to the root's key set. Nothing else changes |
| Mymap.MyMap.Put | mymap.h:318-351 | the map becomes old map[key := value]: a present key is overwritten and the size is unchanged; an absent key adds one pair and the size grows by one. The arena is `Inserted(old nodes, root, key, value)` and the BST and threading invariant is kept |
| Mymap.MyMap.Contains | mymap.h:359-365 | true iff the key is in the map |
| Mymap.MyMap.Get | mymap.h:375-387 | returns the stored value of a present key and the default string for an absent one; it changes nothing (no modifies clause) |
| Mymap.MyMap.Index | mymap.h:400-413 | operator[] on a present key returns its value and leaves the arena, root and size as they were; on an absent key it returns "" and the arena becomes the one put of (key, "") builds |
| Mymap.MyMap.Size | mymap.h:421-423 | returns the number of pairs in the map |
| Mymap.MyMap.Clear | mymap.h:290-294 | leaves an empty valid map with size 0 and a null root |
| Mymap.MyMap.InOrder | mymap.h:157-175 | appends the in-order entries of the subtree to the vector passed in, never following a threaded node's right link |
| Mymap.MyMap.ToVector | mymap.h:479-485 | returns every pair of the map exactly once, in strictly ascending key order, so its length equals the map's size |
| Mymap.MyMap.CopyNode | mymap.h:195-204 | the empty map gets a root that copies the key, value, counters and flag of the source node, with no children |
| Mymap.MyMap.Copy | mymap.h:209-224 | re-putting node j and then its right and left subtrees adds exactly the pairs of j's subtree in the source to this map |
| Mymap.MyMap.SubMapSplit | mymap.h:209-224 | the pairs of a subtree are its root's pair plus those of its right and left subtrees |
| Mymap.MyMap.Assign | mymap.h:266-282 | operator= gives other's pairs, size and toVector order, and self-assignment changes nothing |
| Mymap.MyMap.CopyOf | mymap.h:247-256 | the copy constructor of a non-empty map gives its pairs, size and toVector order |
| Mymap.MyMap.SameEntries | mymap.h:266-282 | two valid maps with the same pairs have the same in-order listing |
| HuffmanTrees.BitsOf | util.h:183-193 | one bit per code character: 0 exactly for '0' and 1 for anything else |
| HuffmanTrees.ToChar | util.h:223 | storing a symbol in a char leaves every value in [-128, 127] unchanged |
| HuffmanTrees.CharsOfBag | util.h:103-107 | the characters at the leaves are exactly the characters of the leaf (character, count) pairs |
| HuffmanTrees.BagDistinct | util.h:98-109 | a tree whose leaf pairs are entries of a table, each taken at most once, has no character at two leaves |
| HuffmanTrees.CodesArePaths | util.h:135-147 | on a well-formed tree with distinct leaves, the code map has exactly the leaf characters as keys, and each maps to the prefix followed by its root-to-leaf path ('0' zero child, '1' one child). Internal nodes get no entry |
| HuffmanTrees.PathsPrefixFree | util.h:135-147 | no leaf's path is a prefix of another leaf's path |
| HuffmanTrees.CodesPrefixFree | util.h:141-146 | for a tree with at least two leaves, every code is non-empty and no code is a prefix of another |
| HuffmanTrees.WalkPath | util.h:206-226 | walking a leaf's path from the tree reaches that leaf: PSEUDO_EOF stops the walk, and any other leaf emits its character and restarts at the root |
| HuffmanTrees.WalkEncoding | util.h:170-229 | walking the bits of the codes of s followed by PSEUDO_EOF's code decodes exactly s, whatever bits follow |
| Huffman.BuildFrequencyMap | util.h:77-89 | the table maps each character of the text to its number of occurrences, maps PSEUDO_EOF to 1, and has no other key |
| Huffman.MinimumExists | util.h:33-40 | every non-empty queue has a node that prioritize ranks at the top: no node has a smaller count |
| Huffman.PopMin | util.h:116-120 | top then pop removes one queue element of least count and keeps the rest |
| Huffman.Merge | util.h:121-126 | the merged node is internal (NOT_A_CHAR), its count is the sum of the two, its leaves are those of both children, and it is well formed when they are |
| Huffman.LoadQueue | util.h:98-109 | one leaf per table entry is queued, with that entry's character and count, so the queue's leaves are the table's entries and its counts add up to the table's total |
| Huffman.MergeKeeps | util.h:112-128 | popping two nodes and pushing their merge keeps the queue's leaf pairs and its total count |
| Huffman.BuildEncodingTree | util.h:95-130 | fewer than two table entries give the null tree. Otherwise the tree is internal, its leaves are exactly the table's entries, its count is the sum of the table's counts, and it is well formed (when NOT_A_CHAR is not a key) |
| Huffman.BEMHelper | util.h:135-147 | the map gains exactly `Codes(node, str)`, put in pre-order with later puts winning |
| Huffman.BuildEncodingMap | util.h:152-161 | a fresh valid map holding exactly `Codes(tree, "")`, which is empty for the null tree |
| Huffman.EncodingSnoc | util.h:175-177 | encoding one more symbol appends its code |
| Huffman.EncodeStep | util.h:175-179 | one operator[] lookup appends the symbol's code from the starting map, adds the symbol as a key, and leaves every code as it was |
| Huffman.EncodeSymbols | util.h:175-177 | the loop gives the concatenated codes of the input, under the map encode started from |
| Huffman.Encode | util.h:170-195 | the result is the input's codes followed by PSEUDO_EOF's, and size is its length. With makeFile the bits written are exactly its characters, '0' as 0 and others as 1. The map gains the input's symbols and PSEUDO_EOF as keys (absent ones with "") and gives every symbol the same code as before |
| Huffman.WriteBits | util.h:183-193 | one bit per character, 0 exactly for '0' |
| Huffman.Decode | util.h:202-229 | the loop returns what `Walk` returns from the root. One child on bit 1, zero child on bit 0; it stops at the PSEUDO_EOF leaf without emitting; at any other leaf it emits the character and resets; when bits run out it returns what it has; stepping off the tree is None |
| Huffman.TableTree | util.h:95-130 | the tree built from a text's table is well formed, holds no character twice, and its leaf characters are the table's keys |
| Huffman.RoundTrip | util.h:239-290 | decoding, with the tree built from the text's table, the bits of the text's encoding gives the text back (including the empty text and its null tree) |
| Huffman.CompressDecompress | util.h:239-290 | running the table, the tree, the code map, encode with makeFile and decode in sequence returns exactly the input text |
| FileNames.FindFrom | util.h:273 | find returns the first index at or after i where the pattern occurs, or -1 (npos cast to int) when it occurs nowhere there |
| FileNames.AsWrittenMissesLeadingSuffix | util.h:273-280 | as written, a name starting with ".txt.huf" is not cut, so decompress reads name + ".txt.huf". For ".txt" that is not the file ".txt.huf" that compress wrote |
| FileNames.DecompressOpensCompressed | util.h:249-280 | with the cut made whenever ".txt.huf" is found, decompress given the file compress wrote for "base.txt" reads that same file and writes "base_unc.txt" (when ".txt.huf" does not occur earlier) |

## Left out

- File and stream I/O: the file branch of buildFrequencyMap (util.h:61-76), the streams of
  encode, decode, compress and decompress, and the bit-stream classes. Streams are sequences.
- The header: compress writes the frequency table into the compressed file and decompress
  reads it back (util.h:251, 282) through operators of a header that is not part of this
  model.
- Huffman.CompressDecompress: decodes with the tree compress built. It does not rebuild the
  tree from a header, because the serialisation is not modelled. The rebuilt tree would be the
  same only if the hashmap gave back its keys in the same order.
- Huffman.Decode: reads a `seq<Bit>` to its end. The bit stream's eof test, its padding and a
  readBit past the end are not modelled; the round trip holds whatever bits follow the
  PSEUDO_EOF code. On the null tree (the empty text) the model returns nothing decoded, while
  the source dereferences null if its loop body runs at all.
- freeTree, mymap::empty and the destructor (util.h:45-54, mymap.h:180-189, 303-306): memory
  release has no counterpart in this model.
- The iterator (mymap.h:73-89, 432-439): it relies on successor threads the code never sets,
  and begin() dereferences null on an empty map.
- The text of toString and checkBalance (mymap.h:453-503): the content of the checkBalance
  report is `BalanceReport`, without its text layout.
- Mymap.MyMap.CopyOf: requires a non-empty source, because the copy constructor dereferences
  a null root otherwise (mymap.h:249-252).
- Mymap.MyMap.Copy: the `cur` reference parameter of copy is not modelled. It only threads a
  pointer into this map's tree down the recursion, and put does all the work.
- Huffman.BuildEncodingTree: states well-formedness only when NOT_A_CHAR is not a key of the
  table, which a table built from text never has.
- Code-length optimality and the tie order of std::priority_queue: the source promises
  neither.
- Integer overflow of the counts and of `size`: counts are unbounded integers.

## Findings

| source | as written | input that shows it | evidently intended | confidence | as-written member | corrected member |
|---|---|---|---|---|---|---|
| util.h:276 | the name is cut at the found ".txt.huf" only when `(int)pos > 0`, so a match at index 0 counts as not found | compress(".txt") writes ".txt.huf"; decompress(".txt.huf") then reads ".txt.huf.txt.huf" | cut whenever the suffix is found (`FileNames.BaseName`), as the comment at util.h:274-275 says | medium; not executed | FileNames.AsWrittenMissesLeadingSuffix | FileNames.DecompressOpensCompressed |
