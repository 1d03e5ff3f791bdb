# Huffman code trees, modelled in Dafny

The repository holds two independent Java implementations of a Huffman code tree.

`HuffmanTree` does four things:
- It builds the tree from an array of character counts. It offers one leaf per positive count and an end-of-file leaf (character 256, frequency 1) to a priority queue. Then it repeatedly merges the two least frequent nodes under a branch node with character 32.
- It writes the tree as a text code file. For each leaf, in left-before-right preorder, it writes one line with the leaf's character and one line with its 0/1 route from the root.
- It rebuilds a tree from such a file:
  - `putRoot` grows the first record's route backwards into a chain;
  - `helper` grows every later record's route from the root, creating blank nodes where a child is missing.
- It decodes a bit stream by walking from the root, writing each leaf's character, until it reaches the end-of-file leaf.

`HuffmanTree2` does the same construction with a few differences:
- It keeps leaves for counts that are `!= 0`.
- Its end-of-file symbol is the length of the count array.
- Its `toString` and `Scanner` constructor do the text round trip in a different way.

It also adds:
- a binary header: a preorder flag bit per node, and after each leaf flag the leaf's symbol in 9 bits, least significant first;
- `assign`, which fills a symbol-to-code table from the tree's own text form.

The model has three files:
- `common.dfy` (module `Common`) holds what both classes share:
  - bits and bytes, routes and records;
  - `readBit` on an exhausted stream;
  - the extract-min step of `java.util.PriorityQueue`.
- `huffman_tree.dfy` (module `HuffmanTree`) and `huffman_tree2.dfy` (module `HuffmanTree2`) model one class each.

How the source becomes Dafny:
- **Trees** are datatype values. `Nil` stands for a Java `null` child.
- **In-place updates.** Some methods update nodes in place: `helper`, `putRoot`, `subTreeAddNode`, `constructFromBinary`. Each is a function that returns the updated tree. A tree owns its nodes exclusively, so nothing else can see the update.
- **Loops** in the source are methods with `while` loops:
  - the queue loops of both count constructors;
  - the line loops of both `Scanner` constructors;
  - both `decode` loops;
  - `write9` and `read9`;
  - `assign`, which writes a `codes` array in place.

  Each method is proved against a specification function. The lemmas state the promised properties about that function.
- **Bit streams** are `seq<bit>`, and the sequence is the unread rest of the stream. `readBit` on an empty rest gives -1, as `BitInputStream` does.
- **Text files.**
  - For `HuffmanTree`, a code file is a `CodeFile`: its (character, route) line pairs, plus whether one more line follows them.
  - For `HuffmanTree2`, a code file is a sequence of `Line`s. A `Line` is either the decimal text of an integer (`Number`) or a string of `0`/`1` characters (`Digits`), which may be empty. The Java reader does not tell the two apart, and neither does the model:
    - `ParseSymbol` reads either kind in decimal;
    - `RouteOf` reads either kind as a route, going left at each `0` and right at every other character, as `subTreeAddNode` does.

    A text such as `10` can be written either way, and it reads the same both ways (`BinaryNumeral`).

## Model

| member | source | states |
|---|---|---|
| Common.IndexOfMin | HuffmanTree.java:101-102 | `PriorityQueue.remove` picks a position whose key is no larger than any other key. Which of several equal keys it picks is left open. |
| HuffmanTree.RemoveLeast | HuffmanTree.java:101-102 | Removing the least-frequent full merged tree leaves a queue one shorter. The queue's leaf multiset and total frequency drop by exactly the removed tree's. |
| HuffmanTree.Blank | HuffmanTree.java:39-42 | Definition of `new HuffmanNode()`: character 0, frequency 0, no children. |
| HuffmanTree.EndOfTree | HuffmanTree.java:68-70 | Definition of `endOfTree`: a node is a leaf exactly when both children are null. |
| HuffmanTree.Frequencies | HuffmanTree.java:50-62 | The keys `compareTo` orders the queue by: each queued node's frequency, position by position. `RemoveLeast` takes out a node whose key is least. |
| HuffmanTree.Offer | HuffmanTree.java:94-106 | `queue.offer` of a full merged node keeps the queue made of full merged nodes, and adds exactly that node's leaves and frequency. |
| HuffmanTree.Merge | HuffmanTree.java:103-105 | A branch node over two full merged trees is full and merged, and is not a leaf. Its leaves are the union of both sides' leaves, and its frequency is the sum of theirs. |
| HuffmanTree.OfferNone | HuffmanTree.java:86 | The empty queue holds exactly the leaves and total of no counts at all. |
| HuffmanTree.OfferCount | HuffmanTree.java:93-94 | If the queue holds exactly the leaves and total of the positive counts before i, then offering the leaf of a positive count[i] keeps that true for the counts up to i. |
| HuffmanTree.SkipCount | HuffmanTree.java:93 | Skipping a count that is not positive keeps the queue holding exactly the leaves and total of the positive counts seen so far. |
| HuffmanTree.OfferEof | HuffmanTree.java:88-98 | After the last count, offering the EOF leaf gives a queue of leaves. It holds the leaves of all positive counts plus (256, 1), and its total is the sum of those counts plus 1. |
| HuffmanTree.OfferLeaves | HuffmanTree.java:88-98 | The filled queue is non-empty. Its leaves are one (i, count[i]) per positive count plus (256, 1). Its total is the sum of the positive counts plus 1. |
| HuffmanTree.MergeStep | HuffmanTree.java:101-106 | Taking out two nodes and putting back their merge keeps the queue's leaves and total frequency, and keeps every queued node full and merged. |
| HuffmanTree.MergeAll | HuffmanTree.java:100-109 | Merging until one node remains gives a full tree, each of whose branch nodes has character 32 and the sum of its children's frequencies. The tree keeps the queue's leaf multiset and total frequency. |
| HuffmanTree.Build | HuffmanTree.java:79-111 | The result is an error exactly when the count array is empty. Otherwise the tree is full and merged. Its leaves are one (i, count[i]) per positive count and one (256, 1), and the root frequency is the sum of the positive counts plus 1. |
| HuffmanTree.CountLeavesAt | HuffmanTree.java:90-97 | The leaf (c, f) is offered once if c is an index with a positive count equal to f, and not at all otherwise. |
| HuffmanTree.OfferedLeaves | HuffmanTree.java:88-98 | For at most 256 characters, the built tree has exactly one leaf per positive-count character, carrying its count, and exactly one EOF leaf, of frequency 1. |
| HuffmanTree.FullBranchCount | HuffmanTree.java:100-107 | A full tree with N leaves has N - 1 branch nodes, one per merge iteration. |
| HuffmanTree.Write | HuffmanTree.java:137-152 | Definition of `binaryEncoding(node, s)`: a leaf's (character, s) line pair; otherwise the left subtree's pairs under s+0, then the right subtree's under s+1. A null node is dereferenced (`None`). |
| HuffmanTree.WriteDefined | HuffmanTree.java:137-152 | `binaryEncoding` completes without a null dereference exactly when the tree is full. It then writes one record per leaf. |
| HuffmanTree.WriteListsLeaves | HuffmanTree.java:137-152 | Every written record's route starts with the prefix passed in. The rest of the route leads to a leaf that holds the record's character. |
| HuffmanTree.WriteListsEveryLeaf | HuffmanTree.java:137-152 | Every leaf of the tree is written, with its own route. |
| HuffmanTree.WritePrefixFree | HuffmanTree.java:137-152 | No written route is a prefix of, or equal to, another written route. |
| HuffmanTree.WriteShift | HuffmanTree.java:150-151 | Writing from prefix s writes the records written from the root, with s put in front of each route. |
| HuffmanTree.RecordLeaf | HuffmanTree.java:167-169 | Definition of the node the constructor creates per record: character n, frequency n, no children. |
| HuffmanTree.PutRoot | HuffmanTree.java:219-245 | Definition of `putRoot`: from the route's last character to its first, each step hangs the node built so far below a fresh node, left for `0` and right otherwise. |
| HuffmanTree.Helper | HuffmanTree.java:192-217 | `helper` keeps the node it starts from, with its character and frequency unchanged. |
| HuffmanTree.HelperPlaces | HuffmanTree.java:192-217 | After `helper`, the record's node sits at the record's route. |
| HuffmanTree.HelperKeepsOthers | HuffmanTree.java:192-217 | Every position not on the record's route, and not below its end, is unchanged, including an overwritten leaf's siblings. |
| HuffmanTree.HelperAlongRoute | HuffmanTree.java:204-215 | Positions on the route strictly above its end are nodes afterwards. Existing nodes keep character and frequency. Missing ones become blank nodes (character 0, frequency 0). |
| HuffmanTree.HelperBlankExtend | HuffmanTree.java:219-245 | Growing route code+[b] into a blank node is the same as growing route code with the node hung on side b of a fresh blank node. This is the step `putRoot` takes. |
| HuffmanTree.PutRootAsHelper | HuffmanTree.java:219-245 | `putRoot`, built backwards from the route's last bit, gives the same tree as `helper` from a blank root. |
| HuffmanTree.HelperAll | HuffmanTree.java:171-173 | Definition of `helper` applied to each record in turn. Its own contract states only that a non-null root stays non-null. `HelperAllConcat`, `HelperAllOneSide` and `PutAllWritten` state the tree it builds. |
| HuffmanTree.HelperAllConcat | HuffmanTree.java:161-177 | Placing a + b is placing a, then b. |
| HuffmanTree.InsertFromRoot | HuffmanTree.java:161-177 | Once a root exists, the constructor's loop places every remaining record with `helper` and raises no error, provided no route is empty. |
| HuffmanTree.HelperAllOneSide | HuffmanTree.java:192-217 | Records whose routes all start with b change only side b of the root. That side is rebuilt as if from its own blank root. |
| HuffmanTree.PutAllAsHelperAll | HuffmanTree.java:171-176 | Placing records into a null root starts with `putRoot` and then uses `helper`. This equals using `helper` from a blank root, given non-empty routes. |
| HuffmanTree.PutAllWritten | HuffmanTree.java:119-178 | Placing the records a full tree writes rebuilds that tree with blank branch nodes, each leaf's frequency set to its character. |
| HuffmanTree.WrittenRoutesNonEmpty | HuffmanTree.java:137-152 | When the root is a branch node, every written route is non-empty. |
| HuffmanTree.WriteRelabel | HuffmanTree.java:137-152 | Blanking branch nodes and setting frequencies does not change the written records. |
| HuffmanTree.Insert | HuffmanTree.java:161-177 | Definition of the constructor's loop over the remaining records: an empty route is an error (`charAt` out of range), `putRoot` while there is no root, `helper` afterwards. |
| HuffmanTree.Rebuild | HuffmanTree.java:159-178 | Definition of what the constructor yields: `Insert` from a null root over all record pairs, then an error if a symbol line has no route line after it (`nextLine` throws). |
| HuffmanTree.ReadCodeFile | HuffmanTree.java:159-178 | The constructor's loop gives the same result as the reading function. That function fails with an error on an empty route (`charAt` out of range) and on a missing route line, and otherwise places each record. |
| HuffmanTree.TextRoundTrip | HuffmanTree.java:119-178 | Reading back what `write` writes for a full tree whose root is a branch node succeeds. It yields the tree with blank branch nodes, and that tree writes exactly the same (character, route) records. |
| HuffmanTree.LeafRootTextFails | HuffmanTree.java:141-146 | A one-leaf tree writes an empty route, which the reader rejects. |
| HuffmanTree.Run | HuffmanTree.java:259-277 | Definition of `decode`'s loop, one iteration per call: stop at a null node (a `NullPointerException`) or at the EOF character; at a leaf, write its low byte and go back to the root; otherwise read a bit and go left on 0, right on 1 or -1. |
| HuffmanTree.Decode | HuffmanTree.java:259-277 | The decode loop, run for at most `fuel` iterations, gives the result of the step function: a null node stops the loop, the EOF character stops it, and otherwise it writes a leaf or reads one bit. |
| HuffmanTree.Walk | HuffmanTree.java:269-275 | Reading a leaf's route from a full tree reaches that leaf, one bit per iteration, provided no branch node along the way carries the EOF character. |
| HuffmanTree.LeafStep | HuffmanTree.java:264-268 | At a leaf other than EOF, decode writes the character's low byte and returns to the root, reading no bit. |
| HuffmanTree.DecodeOne | HuffmanTree.java:263-275 | Reading the whole route of a leaf other than EOF writes that leaf's byte and returns decode to the root, after the route's length plus one iterations. |
| HuffmanTree.DecodeMessage | HuffmanTree.java:259-277 | Suppose the input is the routes of leaves c1..cn, none of them EOF, then the EOF leaf's route, then anything. Given enough iterations, decode writes exactly the low bytes of c1..cn in order and stops at EOF. |
| HuffmanTree.MergedAvoidsEof | HuffmanTree.java:105 | Branch nodes of a built tree carry character 32, so decode never mistakes one for EOF. |
| HuffmanTree.EmittedCodes | HuffmanTree.java:266 | Decoding the routes of some written records writes those records' characters. |
| HuffmanTree.WrittenLeaves | HuffmanTree.java:137-152 | Every route `write` lists leads from the root to a leaf holding the character listed with it. |
| HuffmanTree.DecodeWrittenCodes | HuffmanTree.java:259-277 | Take a tree the count constructor builds and the records `write` lists for it. Decode fed the routes of some records whose character is not EOF, then the EOF record's route, writes exactly those characters' bytes and stops at EOF. |
| HuffmanTree.ExhaustedInputNeverStops | HuffmanTree.java:269-274 | Once the stream is exhausted, -1 counts as "go right". When no node on the right spine is null or EOF, the loop never stops, however many iterations it is given. |
| HuffmanTree2.Placeholder | HuffmanTree2.java:12-13 | Definition of `new HuffmanTreeNode()`: no symbol, no frequency, no children. |
| HuffmanTree2.Leaf | HuffmanTree2.java:15-18 | Definition of `new HuffmanTreeNode(freq, data)`: a leaf with both fields set. |
| HuffmanTree2.Weight | HuffmanTree2.java:27-29 | Definition of the key `compareTo` compares: a node's `freq`, or 0 for a node without one (the queue holds none). |
| HuffmanTree2.Weights | HuffmanTree2.java:27-29 | The queue's keys, position by position, are its nodes' weights. `RemoveLeast` takes out a node whose key is least. |
| HuffmanTree2.Offer | HuffmanTree2.java:108-113 | `q.offer` of a full merged node keeps the queue made of full merged nodes, and adds exactly that node's leaves and weight. |
| HuffmanTree2.Merge | HuffmanTree2.java:20-24 | The merge node over two full merged trees is full and merged. Its frequency is the sum of the children's weights, and its leaves are the union of theirs. |
| HuffmanTree2.RemoveLeast | HuffmanTree2.java:113 | `q.remove()` takes out a tree of least weight. The queue loses exactly that tree's leaves and weight. |
| HuffmanTree2.OfferNone | HuffmanTree2.java:105 | The empty queue holds exactly the leaves and weight of no counts at all. |
| HuffmanTree2.OfferCount | HuffmanTree2.java:107-108 | If the queue holds exactly the leaves and weight of the nonzero counts before i, then offering the leaf of a nonzero counts[i] keeps that true for the counts up to i. |
| HuffmanTree2.SkipCount | HuffmanTree2.java:107 | Skipping a zero count keeps the queue holding exactly the leaves and weight of the nonzero counts seen so far. |
| HuffmanTree2.OfferEof | HuffmanTree2.java:110 | After the last count, offering the EOF leaf gives a queue of leaves. It holds the leaves of all nonzero counts plus (counts.length, 1), and its weight is their sum plus 1. |
| HuffmanTree2.OfferLeaves | HuffmanTree2.java:105-110 | The queue holds one leaf (i, counts[i]) per nonzero count, including negative counts, plus (counts.length, 1). Its total is the sum of the nonzero counts plus 1. |
| HuffmanTree2.MergeStep | HuffmanTree2.java:113 | Taking out two nodes and putting back their merge keeps the queue's leaves and total weight, and keeps every queued node full and merged. |
| HuffmanTree2.MergeAll | HuffmanTree2.java:112-114 | The final node is full and merged, with the queue's leaves and total weight. |
| HuffmanTree2.Build | HuffmanTree2.java:104-115 | Every count array, the empty one included, gives a full merged tree. Its leaves are one per nonzero count plus the EOF leaf (counts.length, 1), and its root weight is the sum of the nonzero counts plus 1. |
| HuffmanTree2.NonzeroLeavesAt | HuffmanTree2.java:106-108 | The leaf (c, f) is offered once exactly when c is an index with a nonzero count equal to f. |
| HuffmanTree2.BuiltLeaves | HuffmanTree2.java:104-115 | The built leaves hold each nonzero-count symbol once, with its count, and the EOF symbol counts.length once, with frequency 1. |
| HuffmanTree2.Text | HuffmanTree2.java:34-39 | Definition of `subTreetoString` as the pieces it joins with line breaks: an empty piece for a null node, a symbol's numeral and its route for a node with a symbol, and the left then the right subtree otherwise. |
| HuffmanTree2.Lines | HuffmanTree2.java:151-153 | Definition of `toString` as the lines a `Scanner` reads: a last empty piece follows no line break and so forms no line. |
| HuffmanTree2.TextOfFull | HuffmanTree2.java:34-39 | For a full tree, the text `subTreetoString` produces is the rendering of its records: a symbol line, then a route line, per record. |
| HuffmanTree2.RecordsShift | HuffmanTree2.java:38 | Listing from route s puts s in front of every route listed from the root. |
| HuffmanTree2.RecordsAreSymbols | HuffmanTree2.java:34-39 | Each listed record's route leads to a node that holds the record's symbol. |
| HuffmanTree2.RecordsComplete | HuffmanTree2.java:34-39 | In a full tree, every symbol-holding node is listed, with its route. |
| HuffmanTree2.RecordsPrefixFree | HuffmanTree2.java:34-39 | No listed route is a prefix of, or equal to, another listed route. |
| HuffmanTree2.ParseSymbol | HuffmanTree2.java:123 | Definition of `Integer.parseInt` on a line: a numeral's value, a 0/1 string read in decimal, and no number for an empty line. |
| HuffmanTree2.Pairs | HuffmanTree2.java:136-138 | Definition of `assign`'s reading: parse the symbol line, then read the route line. A symbol line that is no number ends it first, even when it is the last line. |
| HuffmanTree2.RouteOf | HuffmanTree2.java:44-57 | Definition of the route `subTreeAddNode` follows for a route line. A 0/1 string is followed as it stands. A numeral's decimal text goes left at each `0` and right at every other character, including a minus sign. Its own contract states only that a numeral gives a non-empty route. |
| HuffmanTree2.BinaryNumeral | HuffmanTree2.java:122-123 | A numeral whose decimal digits are all 0 or 1 gives the same route, and parses to the same value, as the 0/1 string with that text. |
| HuffmanTree2.ReadPairs | HuffmanTree2.java:121-125 | Definition of the constructor's reading: read two lines, then parse the first. A last line without a partner ends the reading normally and is never parsed. |
| HuffmanTree2.ReadersAgree | HuffmanTree2.java:121-125 | Compares the constructor's reader with `assign`'s, on lines where `assign` meets no numeral route line. Both read the same pairs and end the same way, except that a lone last line that is no number ends the constructor's reading normally. |
| HuffmanTree2.TrailingBlankLine | HuffmanTree2.java:122 | For the file "65", "0" and a blank line, the constructor keeps the pair (65, 0) and drops the blank line. `assign`'s order of reading would fail on the blank line. |
| HuffmanTree2.PairsRender | HuffmanTree2.java:122 | Rendered records read back, two lines at a time, as exactly those records, ending normally. |
| HuffmanTree2.TextBlocks | HuffmanTree2.java:34-39 | `subTreetoString`'s text is a run of symbol/route blocks and ends with a route line. |
| HuffmanTree2.LinesArePaired | HuffmanTree2.java:151-153 | The lines of `toString` never put a numeral where a route is due. |
| HuffmanTree2.AddNode | HuffmanTree2.java:41-59 | `subTreeAddNode` on a null node changes nothing. On a node, it gives a node. |
| HuffmanTree2.AddNodePlaces | HuffmanTree2.java:41-59 | Afterwards, the node at `route` holds `ascii_code`. Only its symbol changes. The node that was there, or the placeholder made for a missing one, keeps its frequency and both subtrees. |
| HuffmanTree2.AddNodeKeepsOthers | HuffmanTree2.java:41-59 | Every position off the route, and not below its end, is unchanged. |
| HuffmanTree2.AddNodeAlongRoute | HuffmanTree2.java:47-56 | Positions strictly above the route's end are nodes afterwards. Existing ones keep their symbol and frequency, and missing ones are new placeholders. |
| HuffmanTree2.AddAll | HuffmanTree2.java:122-123 | Definition of `subTreeAddNode` applied to each pair read, in order. |
| HuffmanTree2.Rebuild | HuffmanTree2.java:118-127 | Definition of what the constructor yields: every pair the constructor's reader takes, added to a placeholder root. A symbol line that is no number is a `NumberFormatException` out of the constructor. Lines running out end it normally. |
| HuffmanTree2.ReadCodeFile | HuffmanTree2.java:118-127 | The constructor's loop gives `Rebuild`'s result. It reads both lines of a pair before parsing the symbol, so a final unpaired line, whatever it holds, is dropped unparsed. A numeral route line is followed character by character. |
| HuffmanTree2.AddAllConcat | HuffmanTree2.java:122-123 | Adding a + b is adding a, then b. |
| HuffmanTree2.AddAllOneSide | HuffmanTree2.java:41-59 | Adding records whose routes all start with b rebuilds only side b, as if from its own placeholder. |
| HuffmanTree2.FullHasRecords | HuffmanTree2.java:34-39 | A full tree lists at least one record. |
| HuffmanTree2.AddAllRecords | HuffmanTree2.java:118-127 | Adding a full tree's records to a placeholder root yields its skeleton: placeholders for branch nodes, and bare symbols at the leaves. |
| HuffmanTree2.SkeletonRecords | HuffmanTree2.java:34-39 | The skeleton lists the same records as the tree. |
| HuffmanTree2.RoutesNonEmpty | HuffmanTree2.java:37-38 | When the root holds no symbol, every listed route is non-empty. |
| HuffmanTree2.TextRoundTrip | HuffmanTree2.java:118-153 | For a full tree whose root holds no symbol, `toString`'s lines read back as exactly its records, ending normally. The constructor yields the skeleton, which lists the same records. |
| HuffmanTree2.RenderLast | HuffmanTree2.java:37-38 | The rendered text ends with the last record's route line. |
| HuffmanTree2.LeafRootTextLost | HuffmanTree2.java:37 | A one-leaf tree's text is its symbol line alone: the empty route has no line terminator after it. Reading it back records no pair and leaves a bare placeholder. |
| HuffmanTree2.AssignResult | HuffmanTree2.java:134-141 | Definition of `assign`'s effect: each pair's route is stored at its symbol, in order, until a symbol falls outside the array. Its own contract states only that the length is kept. `AssignKeeps`, `AssignFinds`, `AssignEnds` and `AssignTable` state the contents. |
| HuffmanTree2.Assign | HuffmanTree2.java:134-141 | The array after `assign`, and how the call ends, are those of the assignment function over the pairs of `toString`'s lines. |
| HuffmanTree2.AssignKeeps | HuffmanTree2.java:134-141 | The entry of a symbol no pair names is unchanged. |
| HuffmanTree2.AssignFinds | HuffmanTree2.java:134-141 | The entry of a named symbol holds the route of that symbol's last pair: a later pair overwrites an earlier one. |
| HuffmanTree2.AssignEnds | HuffmanTree2.java:134-141 | When every symbol is inside the array, `assign` ends as the line reading ends. |
| HuffmanTree2.AssignTable | HuffmanTree2.java:134-141 | For a full tree whose symbols all index the array, `assign` completes. Each symbol's entry is a route to that symbol, and every other entry is unchanged. |
| HuffmanTree2.NineBitLimit | HuffmanTree2.java:94-98 | Helper fact: after `read9`'s nine doublings, `multiplier` is 2^9 = 512. `NineBitsRoundTrip` and `TruncatedLeaf` use it. |
| HuffmanTree2.LowBits | HuffmanTree2.java:85-88 | Definition of the bits `write9` emits: the k low bits of n, least significant first, by `% 2` and `/ 2`. Its own contract states only their number; `LowBitsRead` states their value. |
| HuffmanTree2.Write9 | HuffmanTree2.java:82-89 | For n >= 0, `write9`'s loop emits the 9 low bits of n, least significant first. |
| HuffmanTree2.DropN | HuffmanTree2.java:96-99 | Definition of the input left after k `readBit` calls. Its own contract states only that it is never longer; `LowBitsRead` states what is left. |
| HuffmanTree2.LittleEndian | HuffmanTree2.java:93-101 | Definition of what `read9` adds up: the k readings weighted 1, 2, 4, and so on, each missing bit counting as -1. |
| HuffmanTree2.Read9 | HuffmanTree2.java:91-101 | `read9`'s loop returns the little-endian value of the next 9 readings and consumes 9 bits. Missing bits read as -1. |
| HuffmanTree2.LowBitsRead | HuffmanTree2.java:82-101 | Reading k bits back gives n mod 2^k, and leaves what follows untouched. |
| HuffmanTree2.NineBitsRoundTrip | HuffmanTree2.java:82-101 | `read9` after `write9` gives n mod 512, which is n itself for 0 <= n < 512. The bits after the nine are untouched. |
| HuffmanTree2.ExhaustedRead | HuffmanTree2.java:96-99 | On an exhausted stream, reading k bits gives 1 - 2^k, so `read9` gives -511. |
| HuffmanTree2.FromBinary | HuffmanTree2.java:61-68 | Whenever `constructFromBinary` ends, it has consumed at least one bit. |
| HuffmanTree2.Serialize | HuffmanTree2.java:70-80 | Definition of `serializeToBinary`: nothing for a null node; 1 and the nine low bits of the symbol for a node with one; otherwise 0, the left subtree, then the right subtree. |
| HuffmanTree2.HeaderLeaf | HuffmanTree2.java:62-63 | A leaf with its symbol in 0..511 reads back as its bare symbol, consuming its 10 bits. |
| HuffmanTree2.BranchRead | HuffmanTree2.java:64-67 | A 0 flag, then a left header, then a right header, reads as a node without a symbol over the two trees read. It consumes all three. |
| HuffmanTree2.HeaderBranch | HuffmanTree2.java:64-67 | A branch node reads back when its left header and then its right header do. |
| HuffmanTree2.HeaderRoundTrip | HuffmanTree2.java:61-80 | For a full tree with symbols in 0..511, `constructFromBinary` reads what `serializeToBinary` writes back as the tree's skeleton. It consumes exactly the header and leaves the following bits unread. |
| HuffmanTree2.HeaderNonNegative | HuffmanTree2.java:70-80 | The trees the header can carry have non-negative symbols. |
| HuffmanTree2.SymbolsReadable | HuffmanTree2.java:70-80 | A full tree whose leaf symbols are all in 0..511 can be carried by the header. |
| HuffmanTree2.BuiltHeaderRoundTrip | HuffmanTree2.java:143-145 | A tree built from fewer than 512 counts survives `writeHeader` and the `BitInputStream` constructor. |
| HuffmanTree2.TruncatedLeaf | HuffmanTree2.java:61-68 | A header cut off after a leaf flag reads as a leaf with symbol -511. No error is raised. |
| HuffmanTree2.Run | HuffmanTree2.java:155-165 | Definition of `decode`'s loop: stop at a null node, at eof, or when `readBit` gives -1. Otherwise, at a node with a symbol, write its low byte and restart from the root. Either way, take the step the bit read names. |
| HuffmanTree2.Decode | HuffmanTree2.java:155-165 | The decode loop equals the step function: stop at eof, at a null node or when `readBit` gives -1. A symbol is written only when the next bit has been read. |
| HuffmanTree2.Walk | HuffmanTree2.java:158-163 | Reading a route of a full tree to a node moves there, one bit per step. |
| HuffmanTree2.LeafStep | HuffmanTree2.java:159-163 | At a symbol other than eof, with input left, decode writes the symbol's low byte and continues from the root. |
| HuffmanTree2.RouteNonEmpty | HuffmanTree2.java:156 | When the root holds no symbol, a route to a symbol is non-empty. |
| HuffmanTree2.DecodeMessage | HuffmanTree2.java:155-165 | For routes of symbols c1..cn, none eof, then eof's route and any bits, decode writes exactly the low bytes of c1..cn and stops at eof. |
| HuffmanTree2.DecodeWithoutEof | HuffmanTree2.java:158 | Without the eof route, decode stops silently when input runs out, and the last symbol is never written. |
| HuffmanTree2.EmittedCodes | HuffmanTree2.java:160 | Decoding listed routes writes the listed symbols' bytes. |
| HuffmanTree2.ListedSymbols | HuffmanTree2.java:34-39 | Every route `toString` lists leads from the root to a node holding the symbol listed with it. |
| HuffmanTree2.DecodeListedCodes | HuffmanTree2.java:155-165 | Take a full tree and the records `toString` lists for it. Decode fed the routes of some records whose symbol is not eof, then the eof record's route, writes exactly those symbols' bytes and stops at eof. |

## Behaviour at the edges

The model follows the code at the edges below. In several of these places a reader might expect an error, and the code raises none.

- **No positive count.**
  - `HuffmanTree` rejects only an array of length 0 (`Build`). An all-zero array gives a tree with only the EOF leaf.
  - `HuffmanTree2` rejects nothing (`HuffmanTree2.Build`).
- **Malformed code file.**
  - Neither reader checks for colliding routes or out-of-range symbols. `helper` overwrites silently (`HelperKeepsOthers`, `HelperPlaces`).
  - A missing route line is an error in `HuffmanTree` (`MissingCodeLine`).
  - `HuffmanTree2` drops a missing route line silently (`ReadPairs`, `TrailingBlankLine`).
- **Truncated header.** Nothing checks for it.
  - A cut-off symbol reads missing bits as -1 (`TruncatedLeaf`, `ExhaustedRead`).
  - A missing flag reads as -1, which is not 1. So `constructFromBinary` keeps recursing until Java raises a `StackOverflowError`. `FromBinary` gives `None` for that outcome.
- **End of stream before the EOF code.**
  - `HuffmanTree.decode` reads -1 as "right" and can loop forever (`ExhaustedInputNeverStops`).
  - `HuffmanTree2.decode` stops silently (`DecodeWithoutEof`).
- **Corrupt tree.** Meeting a null node while decoding is a `NullPointerException` in both classes. It is modelled as the stop reason `NullNode`.

## Left out

- **In-place field updates** (`helper`, `putRoot`, `subTreeAddNode`, `constructFromBinary`) are modelled on tree values, so sharing between nodes is not modelled. The Java trees never share nodes.
- **`java.util.PriorityQueue`:**
  - its heap internals are not modelled;
  - its equal-frequency tie-break is unspecified, so the model proves no particular tree shape: only leaves, weights, fullness and the merge structure.
  - `compareTo`'s `int` subtraction is not modelled, and frequencies are unbounded.
- **Java `int` overflow**: frequency sums are mathematical integers.
- **Streams.** `BitInputStream`, `BitOutputStream` and `PrintStream` are not part of this model. Input is the unread bit sequence and output a byte sequence. A partial output written before an exception is not modelled.
- **Parsing.** `Scanner`, `Integer.parseInt` and line splitting are abstracted:
  - symbol lines are integers;
  - `HuffmanTree`'s route lines are bit sequences. A route character other than `0` counts as `1` in the source, which the model does not show.
- `HuffmanTree.ReadCodeFile`: `hasNext` skipping blank lines is not modelled. The file is just its record pairs and a flag for an unpaired line.
- `HuffmanTree2.ReadCodeFile`: `Integer.parseInt` fails on values outside Java's `int` range. The model reads every numeral and every 0/1 string as an unbounded integer. Lines that are neither a canonical numeral nor a 0/1 string, such as `007` or `a`, are not represented.
- `HuffmanTree2.Assign`: any `Number` line in a route position ends its reading with `NumeralRouteSkipped`, even one whose text is a 0/1 string such as `10`. The model does not show the string the source would store there. `assign` reads only `toString`'s own lines, and those never put a numeral in a route position (`LinesArePaired`).
- `HuffmanTree.Decode`: the loop is run for at most `fuel` iterations, because the source loop need not terminate. The stop reason `StepLimit` stands for "still running".
- `HuffmanTree2.FromBinary`: the recursion on an exhausted stream, which ends in a `StackOverflowError`, is reported as `None`. The stack depth is not modelled.
- `HuffmanTree2.Write9` requires n >= 0. The source's pre-condition asks for 0 <= n < 512, and most negative n would make `writeBit` receive -1, which is not modelled. A multiple of -512 would write nine 0 bits.
- `Decode.java` (console prompts, file setup, exception printing) is I/O plumbing and is not part of this model.
