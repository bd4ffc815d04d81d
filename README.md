# Huffman codec of hdt-java, modelled in Dafny

This project models the Huffman codec that hdt-java uses to compress the literal strings of an
RDF dictionary (`Huffman.java` and `HuffmanFacade.java` in
`hdt-java-core/src/main/java/org/rdfhdt/hdt/dictionary/impl/`), and proves its properties.
The model has six parts:

- **Frequency counting** (`Facade`): the facade counts every char of every literal, with the
  literal wrapped in double quotes, into a `LinkedHashMap`.
- **Tree construction** (`HuffmanTree`): `buildTree` seeds a priority queue with one leaf per
  table entry. It then merges the two lightest trees until one remains.
- **Code generation and encoding** (`HuffmanCodes`): `doGenerateCode` walks the tree. A left
  edge adds '0' to the path and a right edge adds '1'. `encodeMessage` and `addEncodedString`
  concatenate the codes of a string's chars.
- **The tree's wire form** (`TreeCodec`): the writing `preOrder` emits one unset bit per leaf
  and one set bit before each child of a merged node. The leaf chars go to a separate char
  stream. `serializeTree` adds one set bit that marks the end. The reading `preOrder` rebuilds
  the tree through a shared cursor.
- **Messages on the wire** (`MessageCodec`): `getBitSet` turns a '0'/'1' string into a BitSet
  plus an end marker. `decodeMessage` walks the tree once per char until the cursor reaches
  `length() - 1`.
- **Shared types** (`Results`, `Streams`): the exceptions the code can throw become
  `Error` values of a `Result`, and so does the decoding loop that never finishes. `java.util.BitSet`, the `IntObject` cursor and the char
  streams are small classes over sequences.

## How the model follows the code

The code is imperative, and so is the model:

- The priority queue, the code map, the BitSet, the cursor and the facade's static fields are
  classes whose methods update their fields.
- The loops of `buildTree`, `createNodeQueue`, `encodeMessage`, `getBitSet`, `decodeMessage`,
  `addEncodedString` and the counting loop are `while`/`for` loops.
- The two `preOrder` traversals are recursive methods that mutate the shared objects.

Each method is proved equal to a specification function: `Huffman`, `Codes`, `Encoded`,
`WrittenTree`, `ReadTree`, `MessageBits`, `Decode` and `Counted`. The lemmas state what those
functions promise. For example, `WrittenTreeBits` shows that `WrittenTree` leaves the preorder
bits `TreeBits` at the cursor, as an `Overwrite`.

`HuffmanNode` becomes the datatype `Node`. Its nodes are never changed after construction,
apart from the fields the reading `preOrder` fills on the node it has just created. A
`Leaf` has a char and a frequency. An `Internal` node has a frequency and exactly two
children. Merged nodes carry the char '\0', which nothing reads, so `Internal` has no char.

The model keeps the following behaviours of the code, including some that a textbook Huffman
codec would avoid:

- **A single-leaf tree gets the empty code.** A prefix code would give a lone char a
  one-bit code such as "0". The code stores `s`, which is still `""` at the root (Huffman.java line
  77). A table with one char therefore encodes every message over that char to the empty string, and the
  message decodes to the empty string (`MessageCodec.SingleLeafMessageLost`).
- **A truncated message is not detected.** No error is raised. A walk that runs past the
  payload first reads the set end marker at `length() - 1` and goes right. From then on,
  `BitSet.get` past the stored bits reads false, so the walk goes left until it reaches a
  leaf, whose char is appended. The model keeps that behaviour.
- **A single-leaf root with bits left never ends.** With bits left to decode, the inner loop
  never moves the cursor and appends the leaf's char on every turn, so the Java loop grows
  its output until memory runs out. Nothing is returned. The model reports this as
  `NonTerminating`.
- **A missing code becomes `"null"`.** `encodeMessage` appends `charCode.get(c)`. For a
  missing char that is `null`, which `StringBuilder` appends as the four chars "null".
- **The deserialiser does not check the second set bit of a merged node.** It steps over that
  bit without reading it.
- **`generateCodes` ignores its set of chars.**
- **`findCharacterCounts` clears the stored strings before `buildTree` can throw.** On an
  empty graph the stored strings are gone, but the old tree and code table stay.
- **Equal frequencies leave the queue in insertion order.** `java.util.PriorityQueue` does not
  specify the order among equal frequencies. The model fixes first in, first out, which makes
  `buildTree` a function of its table.

## Model

Paths are relative to the repository root. `Huffman.java` is
`hdt-java-core/src/main/java/org/rdfhdt/hdt/dictionary/impl/Huffman.java`, and the facade
lives beside it.

| member | source | states |
|---|---|---|
| Streams.SetBitReads | hdt-java-core/src/main/java/org/rdfhdt/hdt/dictionary/impl/Huffman.java:150-157 | after `BitSet.set(i, v)` bit i reads v and every other bit reads as before, including bits past the old end |
| Streams.BitSet.Set | hdt-java-core/src/main/java/org/rdfhdt/hdt/dictionary/impl/Huffman.java:150 | `set(i, v)` replaces the stored bits by `SetBit(bits, i, v)`, growing the store when i is past its end |
| Streams.BitLength | hdt-java-core/src/main/java/org/rdfhdt/hdt/dictionary/impl/Huffman.java:262 | `length()` is one past the highest set bit: the bit before it is set and every bit from it on is clear |
| Streams.OverwriteReads | hdt-java-core/src/main/java/org/rdfhdt/hdt/dictionary/impl/Huffman.java:148-159 | writing w bit by bit from pos leaves w at the positions from pos on and every other position unchanged |
| Streams.OverwriteConcat | hdt-java-core/src/main/java/org/rdfhdt/hdt/dictionary/impl/Huffman.java:154-158 | writing a + b from pos is writing a and then writing b right after it |
| Streams.OverwriteEmpty | hdt-java-core/src/main/java/org/rdfhdt/hdt/dictionary/impl/Huffman.java:103-107 | writing w into a fresh BitSet from position 0 gives exactly w |
| Streams.IntObject.constructor | hdt-java-core/src/main/java/org/rdfhdt/hdt/dictionary/impl/Huffman.java:116-118 | a new cursor starts at bit position 0 |
| Streams.CharSink.WriteChar | hdt-java-core/src/main/java/org/rdfhdt/hdt/dictionary/impl/Huffman.java:151 | `writeChar` appends the char to the char stream |
| Streams.CharSource.ReadChar | hdt-java-core/src/main/java/org/rdfhdt/hdt/dictionary/impl/Huffman.java:245 | `readChar` returns the next unread char and moves past it, or signals end of file, without moving, once all chars are read |
| HuffmanTree.FullTreeCounts | hdt-java-core/src/main/java/org/rdfhdt/hdt/dictionary/impl/Huffman.java:19-31 | every tree is full: it has one more leaf than merged nodes, and its leaf chars are the chars of its leaf entries |
| HuffmanTree.RootWeighsLeaves | hdt-java-core/src/main/java/org/rdfhdt/hdt/dictionary/impl/Huffman.java:52 | when every merged node weighs the sum of its children, the root weighs the sum of the leaf frequencies |
| HuffmanTree.MinIndex | hdt-java-core/src/main/java/org/rdfhdt/hdt/dictionary/impl/Huffman.java:33-38 | the queue head has the least frequency, and every node before it is strictly heavier, so ties leave in insertion order |
| HuffmanTree.RemoveFromQueue | hdt-java-core/src/main/java/org/rdfhdt/hdt/dictionary/impl/Huffman.java:50-51 | taking one tree out of the queue removes exactly its leaves, as a multiset, and its weight |
| HuffmanTree.MergeStep | hdt-java-core/src/main/java/org/rdfhdt/hdt/dictionary/impl/Huffman.java:49-54 | one loop turn takes out two nodes and adds one, so the queue shrinks by exactly one |
| HuffmanTree.MergeStepKeepsLeaves | hdt-java-core/src/main/java/org/rdfhdt/hdt/dictionary/impl/Huffman.java:49-54 | a merge keeps the multiset of leaves held in the queue |
| HuffmanTree.MergeStepKeepsWeight | hdt-java-core/src/main/java/org/rdfhdt/hdt/dictionary/impl/Huffman.java:49-54 | a merge keeps the total weight of the queue |
| HuffmanTree.MergeStepKeepsWeighting | hdt-java-core/src/main/java/org/rdfhdt/hdt/dictionary/impl/Huffman.java:52 | the merged node weighs its two children's sum, so every tree in the queue stays well weighted |
| HuffmanTree.MergeAllKeepsLeaves | hdt-java-core/src/main/java/org/rdfhdt/hdt/dictionary/impl/Huffman.java:49-54 | the final tree holds exactly the leaves the queue started with |
| HuffmanTree.MergeAllKeepsWeight | hdt-java-core/src/main/java/org/rdfhdt/hdt/dictionary/impl/Huffman.java:49-54 | the final tree weighs the queue's starting weight and is well weighted |
| HuffmanTree.LeafQueueHoldsTable | hdt-java-core/src/main/java/org/rdfhdt/hdt/dictionary/impl/Huffman.java:60-66 | the seeded queue holds the table's entries in order, weighs the sum of the counts and is well weighted |
| HuffmanTree.HuffmanBuildsFullTree | hdt-java-core/src/main/java/org/rdfhdt/hdt/dictionary/impl/Huffman.java:46-58 | building fails (NoSuchElementException) exactly on an empty table; otherwise the leaves are the table's entries as a multiset, the root weighs the sum of the counts, every merged node weighs its children's sum, and there is one leaf per entry and one merged node fewer |
| HuffmanTree.HuffmanLeafChars | hdt-java-core/src/main/java/org/rdfhdt/hdt/dictionary/impl/Huffman.java:46-66 | the chars at the built tree's leaves are exactly the table's chars |
| HuffmanTree.NodeQueue.constructor | hdt-java-core/src/main/java/org/rdfhdt/hdt/dictionary/impl/Huffman.java:61 | a new queue is empty |
| HuffmanTree.NodeQueue.Add | hdt-java-core/src/main/java/org/rdfhdt/hdt/dictionary/impl/Huffman.java:53 | `add` puts the node at the back of the queue |
| HuffmanTree.NodeQueue.Remove | hdt-java-core/src/main/java/org/rdfhdt/hdt/dictionary/impl/Huffman.java:50-57 | `remove` on an empty queue throws NoSuchElementException and changes nothing; otherwise it returns the first lightest node and takes it out |
| HuffmanTree.CreateNodeQueue | hdt-java-core/src/main/java/org/rdfhdt/hdt/dictionary/impl/Huffman.java:60-66 | a fresh queue holding one leaf per entry, with the entry's char and count, in table order |
| HuffmanTree.BuildTree | hdt-java-core/src/main/java/org/rdfhdt/hdt/dictionary/impl/Huffman.java:46-58 | the loop computes `Huffman(entries)`, so the properties of HuffmanBuildsFullTree hold for it, and equal tables give equal trees |
| HuffmanCodes.CodesCoverLeaves | hdt-java-core/src/main/java/org/rdfhdt/hdt/dictionary/impl/Huffman.java:75-82 | a char gets a code exactly when some leaf holds it |
| HuffmanCodes.CodesArePaths | hdt-java-core/src/main/java/org/rdfhdt/hdt/dictionary/impl/Huffman.java:75-82 | every code is the prefix walked so far, followed by a '0'/'1' path to a leaf holding its char |
| HuffmanCodes.PathsPrefixFree | hdt-java-core/src/main/java/org/rdfhdt/hdt/dictionary/impl/Huffman.java:75-82 | a root-to-leaf path that is a prefix of another is that same path, to the same char |
| HuffmanCodes.CodesPrefixFree | hdt-java-core/src/main/java/org/rdfhdt/hdt/dictionary/impl/Huffman.java:68-82 | no char's code is a prefix of another char's code |
| HuffmanCodes.CodeMap.constructor | hdt-java-core/src/main/java/org/rdfhdt/hdt/dictionary/impl/Huffman.java:69 | a new code map is empty |
| HuffmanCodes.CodeMap.Put | hdt-java-core/src/main/java/org/rdfhdt/hdt/dictionary/impl/Huffman.java:77 | `put` maps the char to the code, replacing any earlier code |
| HuffmanCodes.DoGenerateCode | hdt-java-core/src/main/java/org/rdfhdt/hdt/dictionary/impl/Huffman.java:75-82 | the map gains `Codes(node, s)`: each leaf's char maps to s plus its path, and a later (right-hand) leaf overrides an earlier one |
| HuffmanCodes.GenerateCodes | hdt-java-core/src/main/java/org/rdfhdt/hdt/dictionary/impl/Huffman.java:68-72 | codes exist exactly for the leaf chars, each code spells the path to its leaf, no code is a prefix of another, a single leaf gets "" and otherwise every code is non-empty |
| HuffmanCodes.EncodedAppend | hdt-java-core/src/main/java/org/rdfhdt/hdt/dictionary/impl/Huffman.java:85-92 | encoding a concatenation concatenates the encodings |
| HuffmanCodes.EncodedFirst | hdt-java-core/src/main/java/org/rdfhdt/hdt/dictionary/impl/Huffman.java:85-92 | an encoding starts with the code of the first char |
| HuffmanCodes.EncodedLength | hdt-java-core/src/main/java/org/rdfhdt/hdt/dictionary/impl/Huffman.java:85-92 | the encoding's length is the sum of the code lengths of the chars |
| HuffmanCodes.EncodeMessage | hdt-java-core/src/main/java/org/rdfhdt/hdt/dictionary/impl/Huffman.java:85-92 | the loop produces the in-order concatenation of the chars' codes, with "null" for a char that has no code |
| TreeCodec.TreeBitsCounts | hdt-java-core/src/main/java/org/rdfhdt/hdt/dictionary/impl/Huffman.java:148-159 | one unset bit per leaf, two set bits per merged node, leaves + 2 * merged nodes bits in all, and one char per leaf |
| TreeCodec.EraseKeepsWireForm | hdt-java-core/src/main/java/org/rdfhdt/hdt/dictionary/impl/Huffman.java:240 | dropping frequencies changes neither the bits nor the chars written |
| TreeCodec.WritePreOrder | hdt-java-core/src/main/java/org/rdfhdt/hdt/dictionary/impl/Huffman.java:148-159 | the BitSet ends up as `WrittenTree` says (one set per node, in preorder, from the cursor on), the cursor moves past the tree's preorder bits, and the leaf chars are appended left to right |
| TreeCodec.WrittenTreeBits | hdt-java-core/src/main/java/org/rdfhdt/hdt/dictionary/impl/Huffman.java:148-159 | the sets `preOrder` makes, node by node, leave the tree's preorder bits (false for a leaf; true, left, true, right for a merged node) at the cursor and every other position as it was |
| TreeCodec.OverwriteBranches | hdt-java-core/src/main/java/org/rdfhdt/hdt/dictionary/impl/Huffman.java:154-158 | set bit, left subtree, set bit, right subtree is writing true, left bits, true, right bits |
| TreeCodec.SerializeTree | hdt-java-core/src/main/java/org/rdfhdt/hdt/dictionary/impl/Huffman.java:94-114 | the BitSet holds the preorder bits and then the set end marker at the final cursor position, and the char stream holds the leaf chars in preorder |
| TreeCodec.ReadTree | hdt-java-core/src/main/java/org/rdfhdt/hdt/dictionary/impl/Huffman.java:238-256 | a successful read ends past its start, and the only failure is running out of chars |
| TreeCodec.ReadTreeInverts | hdt-java-core/src/main/java/org/rdfhdt/hdt/dictionary/impl/Huffman.java:238-256 | wherever a tree's bits and chars sit, reading them back gives the tree with frequencies 0 and ends right after its bits and chars |
| TreeCodec.TreeRoundTrip | hdt-java-core/src/main/java/org/rdfhdt/hdt/dictionary/impl/Huffman.java:205-212 | deserialising what serializeTree wrote gives the same shape with the same chars at the same leaves, consumes every char, and leaves the cursor on the set end marker |
| TreeCodec.ReadPreOrder | hdt-java-core/src/main/java/org/rdfhdt/hdt/dictionary/impl/Huffman.java:238-256 | the recursive read returns ReadTree's tree or error and leaves the cursor and the char stream where ReadTree ends |
| TreeCodec.DeserializeTree | hdt-java-core/src/main/java/org/rdfhdt/hdt/dictionary/impl/Huffman.java:205-212 | reading from cursor 0 and the first char gives `Deserialized(bits, chars)` |
| MessageCodec.MarkedLength | hdt-java-core/src/main/java/org/rdfhdt/hdt/dictionary/impl/Huffman.java:178-190 | bit i is set exactly when char i is not '0', the end marker is set at the index equal to the message length, and `length() - 1` is the message length |
| MessageCodec.GetBitSet | hdt-java-core/src/main/java/org/rdfhdt/hdt/dictionary/impl/Huffman.java:178-190 | a fresh BitSet holding one bit per char and then the end marker, with `length()` one more than the message length |
| MessageCodec.Walk | hdt-java-core/src/main/java/org/rdfhdt/hdt/dictionary/impl/Huffman.java:265-272 | the inner walk never moves the cursor back, and from a merged node it moves it forward |
| MessageCodec.DecodeMessage | hdt-java-core/src/main/java/org/rdfhdt/hdt/dictionary/impl/Huffman.java:258-277 | the nested loops compute `Decode(node, bits)`: one walk per char until the cursor reaches `length() - 1`, and non-termination for a leaf root with bits left |
| MessageCodec.WalkFollowsPath | hdt-java-core/src/main/java/org/rdfhdt/hdt/dictionary/impl/Huffman.java:265-272 | one inner walk over the bits of a code word consumes exactly that code word and stops at its leaf |
| MessageCodec.SpellsFirstCode | hdt-java-core/src/main/java/org/rdfhdt/hdt/dictionary/impl/Huffman.java:262-274 | the bits of an encoded message spell the first char's code word and, right after it, the encoding of the rest |
| MessageCodec.DecodeFirstCode | hdt-java-core/src/main/java/org/rdfhdt/hdt/dictionary/impl/Huffman.java:262-274 | when the bits spell the code word of the first char and decoding after the word gives the rest, one turn of the outer loop emits that char and decoding gives the whole message |
| MessageCodec.DecodeCodedInverts | hdt-java-core/src/main/java/org/rdfhdt/hdt/dictionary/impl/Huffman.java:262-274 | for any code table whose words are paths to their chars in a tree with at least two leaves, decoding the encoding of a message over that table gives the message back |
| MessageCodec.DecodeFromInverts | hdt-java-core/src/main/java/org/rdfhdt/hdt/dictionary/impl/Huffman.java:262-274 | decoding an encoded message from position i to i + its length gives the message back, for a tree with at least two leaves |
| MessageCodec.MarkedDecodes | hdt-java-core/src/main/java/org/rdfhdt/hdt/dictionary/impl/Huffman.java:258-277 | a message encoded with any code table whose words are paths to their chars, stored with its end marker, decodes back to the message when the tree has at least two leaves |
| MessageCodec.MessageRoundTrip | hdt-java-core/src/main/java/org/rdfhdt/hdt/dictionary/impl/Huffman.java:258-277 | decodeMessage of getBitSet of an encoding gives the message back, for a tree with at least two leaves and a message whose chars all have codes |
| MessageCodec.SingleLeafMessageLost | hdt-java-core/src/main/java/org/rdfhdt/hdt/dictionary/impl/Huffman.java:77 | with a single-leaf tree, every message encodes to "" and decodes to "" |
| MessageCodec.EraseKeepsWalks | hdt-java-core/src/main/java/org/rdfhdt/hdt/dictionary/impl/Huffman.java:265-272 | frequencies play no part in a walk |
| MessageCodec.EraseKeepsDecoding | hdt-java-core/src/main/java/org/rdfhdt/hdt/dictionary/impl/Huffman.java:258-277 | a deserialised tree decodes every bit string exactly as the tree it was written from |
| MessageCodec.TableCharsHaveCodes | hdt-java-core/src/main/java/org/rdfhdt/hdt/dictionary/impl/Huffman.java:46-82 | a table with at least two entries builds a tree with a merged root, and every char of the table gets a code |
| MessageCodec.CompressExpandRoundTrip | hdt-java-core/src/main/java/org/rdfhdt/hdt/dictionary/impl/Huffman.java:200-203 | build, serialise and deserialise the tree, encode and store a message, then decode it with the tree read back: the message comes back |
| MessageCodec.TreeRoundTripDecodes | hdt-java-core/src/main/java/org/rdfhdt/hdt/dictionary/impl/Huffman.java:200-203 | for a tree with at least two leaves and a message whose chars all have codes, the tree read back from its wire form is the tree without frequencies, and it decodes the stored message back |
| Facade.Find | hdt-java-core/src/main/java/org/rdfhdt/hdt/dictionary/impl/HuffmanFacade.java:43-44 | the lookup returns the index of the char's entry, or reports that the table has no entry for it |
| Facade.BumpCounts | hdt-java-core/src/main/java/org/rdfhdt/hdt/dictionary/impl/HuffmanFacade.java:43-47 | one counting step keeps keys distinct and makes every count the char's number of occurrences, at least 1, in the text read so far |
| Facade.OccurrencesAbsent | hdt-java-core/src/main/java/org/rdfhdt/hdt/dictionary/impl/HuffmanFacade.java:46 | a char that has not occurred yet has count 0, so its first occurrence starts at 1 |
| Facade.CountedCounts | hdt-java-core/src/main/java/org/rdfhdt/hdt/dictionary/impl/HuffmanFacade.java:35-50 | the counted table has one entry per distinct char of the text, each holding its char's total number of occurrences (at least 1), and its keys are exactly the chars of the text |
| Facade.CountCharacters | hdt-java-core/src/main/java/org/rdfhdt/hdt/dictionary/impl/HuffmanFacade.java:35-50 | the nested loops count every char of every quoted literal, in order, into `Counted(AllText(literals))` |
| Facade.CountedEmpty | hdt-java-core/src/main/java/org/rdfhdt/hdt/dictionary/impl/HuffmanFacade.java:40-53 | the table is empty exactly when there is no literal, since every quoted literal adds at least the quote char |
| Facade.HuffmanFacade.constructor | hdt-java-core/src/main/java/org/rdfhdt/hdt/dictionary/impl/HuffmanFacade.java:21-25 | the static state starts with no tree, an empty code table and no stored strings |
| Facade.HuffmanFacade.FindCharacterCounts | hdt-java-core/src/main/java/org/rdfhdt/hdt/dictionary/impl/HuffmanFacade.java:27-57 | the stored strings are cleared; with no literal, buildTree throws and the tree and codes stay; otherwise the tree is built from the counts, and the code table is its codes, with codes exactly for the chars of the quoted literals |
| Facade.HuffmanFacade.AddEncodedString | hdt-java-core/src/main/java/org/rdfhdt/hdt/dictionary/impl/HuffmanFacade.java:59-73 | it returns true exactly when every char has a code; then exactly one entry is appended, the in-order concatenation of the codes; otherwise nothing is stored; the tree and codes never change |
| Facade.StoredStringRoundTrip | hdt-java-core/src/main/java/org/rdfhdt/hdt/dictionary/impl/HuffmanFacade.java:59-73 | a string over the literals' chars, encoded with the facade's codes, decodes back with the facade's tree when there are at least two distinct chars |

## Left out

- File handling is not modelled. This covers the existence checks and deletions, the
  `ObjectOutputStream`/`ObjectInputStream` layer, and the fixed file paths in
  `deserializeTree` and `decodeMessage`. The BitSet read from a file is a `BitSet` value, and
  the char files are `seq<char>`. An `IOException` on a stream is not modelled.
- `serializeMessages`, `deserializeMessages`, `storeData`, `expand` and `main` are not
  modelled. They only move BitSets and strings to or from files. `expand` is the composition
  that `CompressExpandRoundTrip` states on values.
- Reading the RDF graph with Jena is not modelled. `FindCharacterCounts` takes the literals'
  texts, as `getLiteral().toString()` renders them, in the order the graph yields them. A
  model that fails to load (which leaves `model` null) is not modelled either.
- `HuffmanTree.MinIndex`: ties among equal frequencies leave in insertion order. The heap in
  `java.util.PriorityQueue` breaks ties in an unspecified way.
- Frequencies are unbounded naturals. The 32-bit `int` counts, their overflow, and the
  overflow of the comparator's subtraction `node1.frequency - node2.frequency` are not
  modelled.
- Code maps are Dafny maps. The iteration order of `HashMap` and `LinkedHashMap` key sets is
  never observed by the modelled code, apart from the counting table, which is a sequence in
  insertion order.
- `MessageCodec.DecodeMessage`: on a single-leaf root with bits left, the Java loop never
  advances its cursor and grows its output until memory runs out. The model returns
  `Failure(NonTerminating)` instead.
- Optimality of the Huffman code (minimal weighted path length) is not proved.
- The char '\0' stored in merged nodes is not modelled, since nothing reads it.
- Facade.CountCharacters: chars are Dafny `char`s, which are Unicode scalar values. Java
  counts UTF-16 code units, so it splits a supplementary character (an emoji, say) into two
  surrogate chars, each with its own leaf and code. The model cannot express a lone
  surrogate. It also admits chars above U+FFFF, which `writeChar` and `readChar` cannot
  carry in 16 bits. Text made only of chars up to U+FFFF, surrogates aside, behaves the same
  in both.
- The progress message `findCharacterCounts` prints to standard output is not modelled.
