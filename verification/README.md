# Verified model of the APDU tools

A Dafny model of the repository's log parser (`Parser/`), its configuration dictionary
(`Iniparser/`) and the logic of its wrapper around the smart card library (`Winscard/`), with
proofs of what they promise. `dafny verify dfyconfig.toml` checks everything.

## What is modelled

**Stream trees.** Each packet header owns two compressed tries, for transmitted and for received
bytes. `StreamTree` has the linked nodes with parent pointers and child maps, and proves the loop of
`merge`, `divide` and `simplifyNodes` on the heap. A node carries a constant ghost `path`; the
invariant `Linked` says that the bytes met on the way up the parent pointers are this path, so that
"the bytes of a recorded node never change" is: the path is constant, every operation keeps
`Linked`, and `GetDataFromLeafNode`, which only follows pointers, returns the path. `TrieModel`
is the same trie as a value, a map from paths to counts; the heap operations are proved to follow
it, and its laws are proved by induction over whole runs, in `RunLaws` those that say exactly which
nodes and counts a run leaves.

**The parser.** `PacketTree` and `LineParser` are the classes that hold the trees and the recorded
packets. A whole file is proved equal to `ParserModel.Replay`, a function on values, and that
function is proved against an independent account of the log (`NoteAll`: streams, answers and response
times), which has no trees.

**The summary.** `Writer`, `Messages`, `Aggregation` and `Analysis` read the packets back and count
equal exchanges, and `FileAnalysis` goes from the lines of a file to the summary of a header;
`CommonPrefix`, `Columns`, `Similarity`, `LikenessOrder` and `WrapText` describe the constant ends,
the columns between them, the likeness of streams and the wrapped labels. Messages there are strings
of two-digit cells with one space between them, as `Messages.RenderCells` shows of rendered bytes.

**The dictionary.** `Dictionary` has the arrays with holes, the cached hashes, the wrap-around probe
and growth by doubling, and refines a finite map.

**Codecs and reader lists.** `Base64`, `HexCodec` and `MultiString` are the buffer codecs; `Readers`
is the supplied-buffer part of `SCardListReaders`, with virtual readers and the preferred reader.

**Rules.** `Rules` is the engine that rewrites command and response bytes.

## Where the code does not do what it seems to

For each of these the exact condition under which the code does what is expected is proved for all
inputs, and, unless it always fails, an input for which it does not.

- A count is not the number of streams through its node: all counts of a tree are right exactly when
  no merge since the tree was new divided an edge (`RunLaws.CountsExact`; input:
  `RunLaws.PartedStreams`).
- The set of nodes depends on the order of the streams, unless every stream that another one extends
  is empty or ends where streams part anyway (`RunLaws.OrderMatters`; input:
  `RunLaws.PrefixFirstOrLast`).
- A stream that ends strictly inside an edge gets a packet that reads back longer than the stream
  (`ParserModel.ReadBack`), and the summary of an answered log is right exactly when there is no such
  stream (`Analysis.SummaryOfLog`; input: `FileAnalysis.PrefixLogReadsTooLong`).
- A header has no summary at all when one of its commands was not answered, and has one otherwise
  (`FileAnalysis.FileSummary`; input: `FileAnalysis.UnansweredLogFails`).
- A whole message of exactly the minimal length is not reported as a common part when short streams
  are checked too (`CommonPrefix.ReportedWhenLongEnough`; input: `CommonPrefix.EqualBytesUnreported`).
- A column counts as random when its share of different bytes exceeds 0.33, but the quotient is one
  of integers, so it has to reach 1 (`Columns.RandomIsAllDifferent`; input: `Columns.ThreeOfFourShown`).
- The likeness of streams is averaged over pairs that count twice, except those with the first
  message, so that the colour depends on which message comes first: two orders agree exactly when the
  average of all is above what either first message takes away, or above neither
  (`LikenessOrder.OrderOfColour`, for all orders `LikenessOrder.ColourOfAllOrders`; input:
  `LikenessOrder.OrderChangesColour`).
- The size that `SCardListReaders` reports is never accepted as the size of a buffer
  (`Readers.ReportedSizeIsShort`), and moving the preferred reader to the front mixes up names when
  it occurs inside another one (`Readers.ReorderExact`; input: `Readers.NameBeginsAlike`).
- A remote name in base64 is recognised by its padding, which names whose length is a multiple of
  three do not have (`Base64.NameRecognised`, for every such name).
- The length of a rewritten command is taken from its length byte before rewriting
  (`Rules.LengthAgrees`; input: `Rules.LengthByteRewritten`), and may reach beyond the command: the
  bytes given back are determined exactly when rules write all that are behind it
  (`Rules.AllWritten`; input: `Rules.ShortCommandGrows`).
- The capacity test of the serializer is the wrong way round: it accepts a declared size up to what
  is needed and refuses every larger one (`MultiString.Serialize`).

## Model

| member | source | states |
|---|---|---|
| `StreamTree.Node.Divide` | Parser/src/parser/data/Node.java:72-85 | for an index strictly inside the edge, a new node takes the upper bytes, the old place and a count of 1, and the old object stays as the lower half with its path |
| `StreamTree.Node.AddChild` | Parser/src/parser/data/Node.java:92-95 | the child is stored under its first byte and points back |
| `StreamTree.Walk` | Parser/src/parser/data/Tree.java:147-169 | the loop stops at the end of the stream, at a missing child or at a differing byte, having counted exactly the nodes entered above |
| `StreamTree.DivideEdge` | Parser/src/parser/data/Tree.java:162-164 | dividing keeps the tree linked and adds one node at the given path |
| `StreamTree.Merge` | Parser/src/parser/data/Tree.java:134-174 | keeps the tree well formed with every old node in it; paths and counts become those of `MergeModel`; the returned node is the locus of the stream; on an empty stream only the root's count changes |
| `StreamTree.SamePath` | Parser/src/parser/data/Node.java:92-95 | a tree has no two nodes with one path |
| `StreamTree.SimplifyNodes` | Parser/src/parser/data/Tree.java:109-132 | terminates, keeps every old node, leaves single bytes, and gives each prefix a node with the count of the edge it was cut from |
| `StreamTree.CutEdge` | Parser/src/parser/data/Tree.java:115-128 | cutting one edge keeps the tree linked and the node object as the last one of the chain |
| `StreamTree.GetChildNodes` | Parser/src/parser/data/Node.java:142-144 | each child once, in any order |
| `StreamTree.NodeBound` | Parser/src/parser/data/Tree.java:137-169 | k different streams give at most 2k-1 nodes below the root |
| `StreamTree.NoIdleNode` | Parser/src/parser/data/Tree.java:137-169 | every node below the root ends a merged stream or has two children |
| `TrieModel.MergeCovers` | Parser/src/parser/data/Tree.java:134-174 | a merge adds exactly the prefixes of the stream to the set of prefixes |
| `TrieModel.MergeForked` | Parser/src/parser/data/Tree.java:162-169 | there is a node wherever two paths part |
| `TrieModel.MergeLocus` | Parser/src/parser/data/Tree.java:171-173 | the place of the stream is its own path exactly when it did not end strictly inside an edge |
| `TrieModel.MergeBound` | Parser/src/parser/data/Tree.java:137-169 | a covered stream adds no node, any other one or two |
| `TrieModel.RunCovers` | Parser/src/parser/data/Tree.java:52-57 | after any run the prefixes are those of the header and the streams, whatever the order |
| `TrieModel.RunForked` | Parser/src/parser/data/Tree.java:52-57 | every run keeps a node at each parting |
| `TrieModel.RunJustified` | Parser/src/parser/data/Tree.java:134-174 | after any run every node ends a stream or branches |
| `TrieModel.RunBound` | Parser/src/parser/data/Tree.java:134-174 | at most twice as many paths as different streams |
| `RunLaws.NodesOfRun` | Parser/src/parser/data/Tree.java:134-174 | after any run exactly the header, the points where streams part, and the ends of streams that came before their extensions have a node |
| `RunLaws.OrderMatters` | Parser/src/parser/data/Tree.java:134-174 | all orders of the streams give the same nodes if and only if every stream that another one extends is empty or ends where streams part |
| `RunLaws.PrefixFirstOrLast` | Parser/src/parser/data/Tree.java:147-173 | two streams with a node for the prefix in one order and none in the other |
| `RunLaws.CountsExact` | Parser/src/parser/data/Tree.java:134-174 | all counts of a tree are the numbers of streams through its nodes if and only if no merge of the run divided an edge |
| `RunLaws.PartedStreams` | Parser/src/parser/data/Tree.java:162-172 | two streams that leave a node counted once for both |
| `TrieModel.CountsStayExact` | Parser/src/parser/data/Tree.java:162-172 | the step of a run: one merge keeps exact counts exact if and only if it does not divide an edge |
| `TrieModel.SimplifiedCounts` | Parser/src/parser/data/Tree.java:109-131 | cutting into single bytes keeps the count of every node, and a new node has that of the next node below it |
| `PacketTree.Tree.constructor` | Parser/src/parser/data/Tree.java:36-45 | the first stream below one root, an empty received side with count 0, one packet |
| `PacketTree.Tree.Merge` | Parser/src/parser/data/Tree.java:52-57 | appends a packet that reads as the locus of its stream; no other packet changes |
| `PacketTree.Tree.AddReceivedData` | Parser/src/parser/data/Tree.java:64-69 | attaches the received stream's node to the last packet; no other packet changes |
| `PacketTree.Tree.SetAdditionalInfoForLastPacket` | Parser/src/parser/data/Tree.java:77-82 | the last packet gets this time and this counter; nothing else changes |
| `PacketTree.Tree.SimplifyNodes` | Parser/src/parser/data/Tree.java:96-99 | simplifies both sides; all packets read the same |
| `LineParser.Parser.HandleTransmittedData` | Parser/src/parser/Parser.java:102-116 | the stream goes into its header's tree or a new one; short lines and empty streams throw, the latter after counting |
| `LineParser.Parser.HandleReceivedData` | Parser/src/parser/Parser.java:118-126 | the stream goes to the tree of the last transmitted line, or nowhere |
| `LineParser.Parser.HandleResponseTime` | Parser/src/parser/Parser.java:128-134 | the time and the counter go to the last packet of that tree; the counter moves on by one for every number, even if there is no tree |
| `LineParser.Parser.ParseLines` | Parser/src/parser/Parser.java:50-59 | a whole file leaves exactly the state of `Replay`, up to the first exception |
| `ParserModel.ReplayFaithful` | Parser/src/parser/Parser.java:50-134 | after any lines the trees and packets are those of the log's exchanges in the lines before the first one that throws; each received stream belongs to the latest transmitted one, and each packet has its own last response time with its running number, or zeros |
| `ParserModel.StreamsNoted` | Parser/src/parser/Parser.java:102-126 | what the log notes under a header are all streams transmitted with it, in order, and all received while it was the last one, in order |
| `ParserModel.TimesNoted` | Parser/src/parser/Parser.java:128-134 | the running number counts the numeric time lines of the whole log |
| `ParserModel.StepThrows` | Parser/src/parser/Parser.java:102-134 | a line throws exactly if it is a command of no more than the header, an empty answer, a time that is no number, or a time before any command |
| `ParserModel.ThrownState` | Parser/src/parser/Parser.java:102-134 | a line that throws changes at most the count of one root, by one, or the counter |
| `ParserModel.ReadLines` | Parser/src/parser/Parser.java:50-67 | the lines that are read run without exception up to the first that throws, which changes no packet |
| `ParserModel.ReplayKeeps` | Parser/src/parser/Parser.java:50-59 | for the rest of a file no line changes an older packet, or the transmitted bytes of any |
| `ParserModel.ReadBack` | Parser/src/parser/data/Tree.java:147-173 | both streams of a packet read back as themselves if and only if they did not end strictly inside an edge, and as an extension otherwise |
| `Writer.GetDataFromLeafNode` | Parser/src/parser/output/Writer.java:262-281 | walking up the parent pointers and joining the bytes gives the node's path; nothing for a missing node |
| `Messages.ToHexBinaryString` | Parser/src/parser/output/Writer.java:387-404 | the loop that cuts off the last separator gives the separated bytes |
| `Messages.HexDigits` | Parser/src/parser/output/Writer.java:387-404 | two upper-case digits a byte, the higher one first |
| `Messages.RenderCells` | Parser/src/parser/output/Writer.java:387-404 | with one space, n bytes take 3n-1 characters, and the cells are the bytes |
| `Messages.RenderInjective` | Parser/src/parser/output/Writer.java:387-404 | different byte streams have different texts |
| `AggregationModel.AddMessageLaws` | Parser/src/parser/output/data/OutputPacket.java:52-60 | texts stay distinct, the sum grows by the count, and only the text's own count changes |
| `AggregationModel.AddMessagesLaws` | Parser/src/parser/output/data/OutputPacket.java:67-69 | adding a list adds the counts text by text |
| `AggregationModel.AddPacketLaws` | Parser/src/parser/output/data/OutputTree.java:57-67 | transmitted texts stay distinct, each balanced with its received counts; pair counts and the total grow by those of the packet |
| `AggregationModel.AggregateCounts` | Parser/src/parser/output/data/OutputTree.java:57-67 | the summary of any list of pairs is its multiset; no packet is lost |
| `Aggregation.OutputPacket.AddReceivedMessage` | Parser/src/parser/output/data/OutputPacket.java:52-60 | the list in place becomes that of `AddMessage` |
| `Aggregation.OutputPacket.AddReceivedMessages` | Parser/src/parser/output/data/OutputPacket.java:67-69 | the same for a list, whose objects may be taken over |
| `Aggregation.OutputPacket.Find` | Parser/src/parser/output/data/OutputMessage.java:49-64 | first message with an equal text, or -1 |
| `Aggregation.OutputTree.AddPacket` | Parser/src/parser/output/data/OutputTree.java:57-67 | the tree in place becomes that of `AddPacket` |
| `Analysis.ReadPacket` | Parser/src/parser/output/Writer.java:239-243 | both streams without header as text, or a failure exactly for a missing answer or too few bytes |
| `Analysis.PrepareAnalyzedPackets` | Parser/src/parser/output/Writer.java:236-252 | the summary of what the packets of a tree read as; fails exactly if some packet cannot be read |
| `Analysis.SummaryOfLog` | Parser/src/parser/output/Writer.java:236-252 | when every exchange is answered, each pair of streams is counted as often as it was exchanged if and only if no stream ended strictly inside an edge |
| `Analysis.ReadableWhenAnswered` | Parser/src/parser/output/Writer.java:236-252 | the packets of a header can all be read if and only if every exchange was answered |
| `FileAnalysis.FileSummary` | Parser/src/parser/Parser.java:50-67 | for every header of any file, over the lines before the first one that throws: it has the length cut off by the parser, can be summarised if and only if all exchanges are answered, and is then summarised right if and only if no stream ended strictly inside an edge |
| `FileAnalysis.SummariseTree` | Parser/src/parser/output/Writer.java:59-72 | the summary of one tree, cut into single bytes before or not, unless a packet cannot be read |
| `FileAnalysis.SummariseFile` | Parser/src/parser/Parser.java:50-67 | parsing a file and summarising a header on the heap does what `FileSummary` says |
| `FileAnalysis.PrefixLogReadsTooLong` | Parser/src/parser/data/Tree.java:147-173 | a log whose second packet reads back longer than its stream, and whose summary is not its exchanges |
| `FileAnalysis.UnansweredLogFails` | Parser/src/parser/output/Writer.java:238-243 | a log of two commands in a row whose packets cannot all be read |
| `FileAnalysis.TimedLogRecorded` | Parser/src/parser/Parser.java:128-134 | a log of a command, its answer and a time: the record has both streams, the time 7 and the number 1 |
| `CommonPrefix.Compare` | Parser/src/parser/output/data/OutputTree.java:259-276 | stride-3 comparison stays in range and gives the end of the agreement |
| `CommonPrefix.LongestCommonPrefix` | Parser/src/parser/output/data/OutputTree.java:246-291 | 0 or 3k-1, where k is the maximal number of leading bytes common to all, and when it is reported |
| `CommonPrefix.ReportedWhenLongEnough` | Parser/src/parser/output/data/OutputTree.java:277-290 | for any messages, a common part of enough bytes gives length 0 exactly if it is a whole message of just so many bytes and the check is on; a shorter one is reported exactly if it is a whole message and the check is off |
| `CommonPrefix.EqualBytesUnreported` | Parser/src/parser/output/data/OutputTree.java:277-290 | two messages whose common byte is enough but not reported |
| `CommonPrefix.SuffixByReversal` | Parser/src/parser/output/data/OutputTree.java:206-218 | common prefixes of the reversed strings are the common suffixes |
| `CommonPrefix.LongestCommonPrefixes` | Parser/src/parser/output/data/OutputTree.java:206-218 | maximal common prefix and suffix of the messages; none for no messages |
| `Columns.Collect` | Parser/src/parser/output/data/OutputTree.java:163-175 | one pass collects the set of bytes of one column, the number of messages, and whether one is short |
| `Columns.AnalyzeMessages` | Parser/src/parser/output/data/OutputTree.java:152-204 | stays in range, ends, and visits the columns up to the end of the longest message; `ColumnShown` says what each one shows |
| `Columns.ColumnShown` | Parser/src/parser/output/data/OutputTree.java:163-200 | on the messages: a column shows the bytes found there, and the mark exactly if it is wanted and some message ends before; it is random exactly for more than 20 of these, or at least two and no fewer than occurrences |
| `Columns.EndedMessageMarked` | Parser/src/parser/output/data/OutputTree.java:186-188 | two messages of which one ends before the column: both the byte and the mark are shown |
| `Columns.MessageRebuilt` | Parser/src/parser/output/data/OutputTree.java:152-204 | every long enough message is common prefix, one byte of each column, common suffix |
| `Columns.DescribeMessages` | Parser/src/parser/output/data/OutputTree.java:105-133 | from any list of messages to its constant ends and the columns between them, of which every long enough message is made up; `ColumnShown` says what each column shows |
| `Columns.RandomIsAllDifferent` | Parser/src/parser/output/data/OutputTree.java:186-198 | when a column, with the mark for short messages, is shown as random, and exactly when this is what the limit of 0.33 says |
| `Columns.ThreeOfFourShown` | Parser/src/parser/output/data/OutputTree.java:195-198 | a column of three quarters different bytes that is not random |
| `WrapText.WrapText` | Parser/src/tools/StringUtil.java:25-64 | the wrapped text and the room left on the last line |
| `WrapText.LineByLine` | Parser/src/tools/StringUtil.java:25-64 | a text is cut after the room of the first line and then after every full width, with a break only before what follows |
| `WrapText.WrapAppend` | Parser/src/tools/StringUtil.java:25-64 | wrapping a+b is wrapping a, then b in the room that a leaves, and the room left agrees |
| `WrapText.WrapStrips` | Parser/src/tools/StringUtil.java:25-64 | deleting the breaks gives the text back |
| `WrapText.Label` | Parser/src/parser/output/data/OutputTree.java:228-240 | the three-piece label is the wrapped whole message with font tags where the wrapped left end and the wrapped middle stop; messages that the ends cover or overlap in are wrapped plainly |
| `Similarity.CountCommon` | Parser/src/tools/SimilarityTool.java:33-45 | striking out matches counts the multiset intersection |
| `Similarity.CompareStrings` | Parser/src/tools/SimilarityTool.java:26-48 | twice the common tokens over all tokens, never a division by zero; `MiddleTokens` says which tokens these are |
| `Similarity.SomeToken` | Parser/src/tools/SimilarityTool.java:50-53 | splitting a trimmed text always gives a token |
| `Similarity.MiddleTokens` | Parser/src/tools/SimilarityTool.java:26-53 | between constant ends of a and b bytes the tokens of a message are exactly its bytes there, in order, or a single empty one if there are none |
| `Similarity.TokensOfBytes` | Parser/src/tools/SimilarityTool.java:26-53 | the same for every byte stream as it is written out |
| `Similarity.AlikeCells` | Parser/src/tools/SimilarityTool.java:26-48 | the likeness of two messages is twice the number of bytes in common, as multisets, over the number of bytes between the ends |
| `Similarity.HalfAlike` | Parser/src/parser/output/data/OutputTree.java:293-325 | two messages with one byte of two in common: likeness one half, not similar |
| `Similarity.ScoreLaws` | Parser/src/tools/SimilarityTool.java:26-48 | symmetric, between 0 and 1, and 1 exactly for equal multisets |
| `Similarity.RankBounds` | Parser/src/parser/output/data/OutputTree.java:293-322 | the rank lies between 0 and its count |
| `Similarity.NoPairs` | Parser/src/parser/output/data/OutputTree.java:293-324 | the count is 0 exactly for no message or a single occurrence |
| `LikenessOrder.PairsCompared` | Parser/src/parser/output/data/OutputTree.java:298-321 | the number of pairs in closed form: once with the first message, twice among the others, once within a message |
| `LikenessOrder.OrderOfPairs` | Parser/src/parser/output/data/OutputTree.java:298-321 | a step: two orders compare equally many pairs if and only if their first messages occurred equally often or make up all |
| `LikenessOrder.RankByFirst` | Parser/src/parser/output/data/OutputTree.java:298-321 | the rank is that of all pairs without one count of the first message's likeness to the others |
| `LikenessOrder.OrderOfRank` | Parser/src/parser/output/data/OutputTree.java:298-321 | two orders have ranks that differ by the likeness of their first messages to the others |
| `LikenessOrder.ColourByFirst` | Parser/src/parser/output/data/OutputTree.java:293-325 | the colour in terms of the messages and of which one comes first |
| `LikenessOrder.OrderOfColour` | Parser/src/parser/output/data/OutputTree.java:293-325 | two orders get the same colour if and only if the margin is above the lead of both first messages or of none; with the same first message rank, count and colour agree |
| `LikenessOrder.ColourOfAllOrders` | Parser/src/parser/output/data/OutputTree.java:293-325 | all orders get one colour if and only if the margin is above the lead of all messages or of none |
| `LikenessOrder.OrderChangesColour` | Parser/src/parser/output/data/OutputTree.java:293-325 | three messages in two orders with equally many pairs and different colours |
| `Similarity.GetColorForMidStream` | Parser/src/parser/output/data/OutputTree.java:293-325 | rank and count of the double loop, and similar exactly if the rank exceeds half the count |
| `Dictionary.HashOf` | Iniparser/iniparser_all.h:110-129 | the 32-bit hash with sign-extended characters |
| `Dictionary.HashesOfLetters` | Iniparser/iniparser_all.h:110-129 | the hashes of the empty key and of one and two letters |
| `Dictionary.Dictionary.constructor` | Iniparser/iniparser_all.h:131-147 | empty, with at least 128 slots |
| `Dictionary.Dictionary.Get` | Iniparser/iniparser_all.h:167-185 | lookup in the map, or the default |
| `Dictionary.Dictionary.Set` | Iniparser/iniparser_all.h:187-233 | update of the map; slots double exactly when a new key finds all taken |
| `Dictionary.Dictionary.Unset` | Iniparser/iniparser_all.h:235-270 | removal from the map; nothing for a missing key |
| `Dictionary.Dictionary.Grow` | Iniparser/iniparser_all.h:75-108 | twice the slots, same entries, the new ones empty |
| `Dictionary.Dictionary.FindSlot` | Iniparser/iniparser_all.h:221-226 | the probe ends at the first empty slot from n on, around the end |
| `Dictionary.Dictionary.Counted` | Iniparser/iniparser_all.h:187-270 | n is the number of entries and at most the number of slots |
| `Dictionary.GetNSec` | Iniparser/iniparser_all.h:407-422 | the number of keys without a colon |
| `Dictionary.GetSecName` | Iniparser/iniparser_all.h:438-458 | the n-th such key in slot order, and nothing outside the range |
| `Dictionary.SelectEntries` | Iniparser/iniparser_all.h:407-458 | the enumeration has every entry with the property exactly once and no other |
| `Dictionary.SelectAt` | Iniparser/iniparser_all.h:438-458 | the enumeration is in the order of the slots |
| `Dictionary.SectionsAndKeys` | Iniparser/iniparser_all.h:407-690 | the sections are the keys without a colon, and the keys of a section those with its name in lower case and a colon in front, each once |
| `Dictionary.GetString` | Iniparser/iniparser_all.h:506-518 | lookup by the name in lower case, cut to 1024 characters |
| `Dictionary.FindEntry` | Iniparser/iniparser_all.h:532-539 | whether that name is an entry |
| `Dictionary.Strlwc` | Iniparser/iniparser_all.h:312-324 | the letters 'A' to 'Z' become 'a' to 'z' place by place and every other character stays, as far as the buffer reaches |
| `Dictionary.SameEntry` | Iniparser/iniparser_all.h:506-518 | two names find the same entry exactly if their first 1024 characters differ in nothing but case |
| `Dictionary.EntryIsName` | Iniparser/iniparser_all.h:506-518 | a name is looked up as it is exactly if it has at most 1024 characters and no upper-case letter |
| `Dictionary.UpperCaseName` | Iniparser/iniparser_all.h:506-518 | a name in upper case that finds an entry stored in lower case |
| `Dictionary.GetSecNKeys` | Iniparser/iniparser_all.h:624-646 | the number of keys of an existing section, 0 otherwise |
| `Dictionary.GetSecKeys` | Iniparser/iniparser_all.h:666-690 | writes exactly these keys to the front and leaves the rest |
| `Base64.ToText` | Winscard/CommonFnc.cpp:532-571 | the encoding of section 4 of RFC 4648, by 24-bit words |
| `Base64.FromText` | Winscard/CommonFnc.cpp:573-612 | the bytes of the letters up to the first other character |
| `Base64.RoundTrip` | Winscard/CommonFnc.cpp:532-612 | decoding an encoding gives the bytes, for every byte sequence |
| `Base64.StopsAtForeign` | Winscard/CommonFnc.cpp:573-612 | nothing behind the first character outside the alphabet is decoded |
| `Base64.DecodeLength` | Winscard/CommonFnc.cpp:573-612 | n letters are 6n/8 bytes, rounded down |
| `Base64.TestVectors` | Winscard/CommonFnc.cpp:532-571 | three of the test vectors of section 10 of RFC 4648 |
| `Base64.EncodeShape` | Winscard/CommonFnc.cpp:532-571 | length 4*ceil(n/3), alphabet letters, then one padding character for each missing byte |
| `Base64.EncodeInjective` | Winscard/CommonFnc.cpp:532-571 | different bytes, different encodings |
| `Base64.FoundInAlphabet` | Winscard/CommonFnc.cpp:522-530 | the characters that pass the test are those found in the table |
| `Base64.RemoteReaderName` | Winscard/Winscard.cpp:3313-3325 | an encoded name comes back decoded exactly when its length is no multiple of three, and as its letters otherwise |
| `Base64.NameRecognised` | Winscard/Winscard.cpp:3313-3325 | an encoded name is recognised, and then right, exactly when its length is no multiple of three |
| `HexCodec.ToHexString` | Winscard/CommonFnc.cpp:359-376 | two digits a byte, with or without spaces, none at the end |
| `HexCodec.TextShape` | Winscard/CommonFnc.cpp:359-376 | where the digits of each byte stand, and the spaces |
| `HexCodec.TwoDigits` | Winscard/CommonFnc.cpp:367 | the two digits are in lower case, the higher one first |
| `HexCodec.FromHexString` | Winscard/CommonFnc.cpp:260-316 | the bytes of the digit pairs without spaces, if they fit; their number in any case |
| `HexCodec.ValueAt` | Winscard/CommonFnc.cpp:295 | the value of a digit is its place among the digits in lower or in upper case |
| `HexCodec.PairRead` | Winscard/CommonFnc.cpp:291-303 | what two characters are read as, digits or not |
| `HexCodec.PairsAt` | Winscard/CommonFnc.cpp:291-303 | a pair of digits is read as the byte it stands for |
| `HexCodec.SqueezedChar` | Winscard/CommonFnc.cpp:270-284 | spaces and line ends are left out and nothing else |
| `HexCodec.RoundTrip` | Winscard/CommonFnc.cpp:260-376 | what is written is read back, with spaces and without |
| `MultiString.ParseSeparatedArray` | Winscard/CommonFnc.cpp:383-410 | the non-empty items up to the end or two separators, reading only inside the array |
| `MultiString.ParseRejoined` | Winscard/CommonFnc.cpp:383-410 | for any array: the items read are not empty, have no separator, and written one by one give the array up to its end or the first two separators in a row, but for a separator in front |
| `MultiString.ParseJoined` | Winscard/CommonFnc.cpp:383-481 | reading back what was written, from any position |
| `MultiString.Serialize` | Winscard/CommonFnc.cpp:446-481 | the non-empty items at the place given, the rest of the buffer unchanged; accepted exactly for a declared size not above the length |
| `MultiString.NonEmptyMore` | Winscard/CommonFnc.cpp:451-472 | what is written are the items that are not empty, in order |
| `MultiString.JoinedInjective` | Winscard/CommonFnc.cpp:446-481 | the written text determines the items |
| `Readers.SupplyReaders` | Winscard/Winscard.cpp:970-1035 | stays in the buffer; it then holds real and non-empty virtual readers as one well-formed list of the reported length, and zeros; the log list is the same names |
| `Readers.AnswerByNames` | Winscard/Winscard.cpp:970-1030 | status and size in terms of the lengths of the names |
| `Readers.ReportedSizeIsShort` | Winscard/Winscard.cpp:982-989 | a buffer is accepted exactly from two characters above the reported size on |
| `Readers.Reorder` | Winscard/Winscard.cpp:1037-1069 | moves the first occurrence of the name to the front and keeps the length |
| `Readers.ListReaders` | Winscard/Winscard.cpp:970-1069 | both parts together |
| `Readers.PreferredFirst` | Winscard/Winscard.cpp:1037-1069 | a whole entry comes first and the others stay in order: a permutation of the list |
| `Readers.ReorderExact` | Winscard/Winscard.cpp:1037-1069 | it is a permutation if and only if the name is a whole entry, or ends an entry before one with just that name |
| `Readers.NameBeginsAlike` | Winscard/Winscard.cpp:1042-1043 | an input for which it is not |
| `Rules.App.GetApduFromHistory` | Winscard/Winscard.cpp:3433-3458 | the APDU so many back, or an untouched buffer just behind the end |
| `Rules.App.AllMatch` | Winscard/Winscard.cpp:3372-3387 | whether every match value is the byte stored at its place: of the latest response, of a stored command, or zero behind the list |
| `Rules.FiresExactly` | Winscard/Winscard.cpp:3369-3387 | a rule fires exactly if it is active, of the right direction, and all its match values are the stored bytes |
| `Rules.OtherValueStops` | Winscard/Winscard.cpp:3380-3386 | any other value in one match of a rule that fires stops it |
| `Rules.MatchDecides` | Winscard/Winscard.cpp:3372-3401 | a rule with a match that changes one byte of a command for just those histories that have the byte it asks for |
| `Rules.Act` | Winscard/Winscard.cpp:3394-3400 | carries out the valid actions; the length element is not a byte |
| `Rules.App.ApplyRules` | Winscard/Winscard.cpp:3355-3431 | bytes and length given back are those of `Rewritten` and `LengthAfter`, which `BytesOfResult` and `LengthOfResult` state through the rules; the rest of the buffer is unchanged, and nothing happens when rules are off |
| `Rules.BytesOfResult` | Winscard/Winscard.cpp:3358-3424 | each byte given back is the value of the last valid action on it in the last rule that fires and has one, or the byte as it was |
| `Rules.LengthOfResult` | Winscard/Winscard.cpp:3398-3421 | five more than the length byte as it came for a command that a rule fires for, and otherwise the value of the last action on the length |
| `Rules.LengthSetByRule` | Winscard/Winscard.cpp:3398 | a rule for responses that sets the length and changes no byte |
| `Rules.EffectsAre` | Winscard/Winscard.cpp:3369-3401 | what is carried out are exactly the valid actions of rules that fire |
| `Rules.LastOnIs` | Winscard/Winscard.cpp:3394-3400 | the value kept is that of the action that no later one on the element follows |
| `Rules.LengthAgrees` | Winscard/Winscard.cpp:3417-3421 | for commands of any length: the length agrees with the length byte if and only if this byte is as before; from five bytes on, if and only if no rule wrote another value there |
| `Rules.LengthByteRewritten` | Winscard/Winscard.cpp:3417-3421 | a rule and a command whose length and length byte disagree afterwards |
| `Rules.Again` | Winscard/Winscard.cpp:3355-3431 | a second application with the same history keeps the length if and only if the length byte of a command has not changed, and then keeps the bytes |
| `Rules.AllWritten` | Winscard/Winscard.cpp:3358-3424 | the result is independent of what the local copy holds behind the original bytes if and only if every position there that is given back is written by a rule |
| `Rules.ShortCommandGrows` | Winscard/Winscard.cpp:3417-3424 | a command of five bytes that becomes 21 bytes long, the last 16 undetermined |

## Left out

- `PacketTree.Tree.Merge` and the parser: counts, packet counters and identifiers are unbounded integers; overflow of `int` is not modelled.
- `Similarity.GetColorForMidStream`: real arithmetic instead of floating point; the undefined average of no pairs counts as not similar.
- `Columns.AnalyzeMessages`: columns are sets, as their order in the output is that of a hash set; rendering them is not modelled, and counts are positive, as every message in a summary has been added once.
- `StreamTree.Node.Divide`: the guard against a bad index can never hold in the source (it asks for both sides at once), so that the index is required to be inside; `StreamTree.LeaveInsideEdge` shows that `merge` only passes such indices.
- `Dictionary.GetSecNKeys`: a section name longer than 1024 characters that is found cut would make the source write behind its buffer; such names are excluded, as in `Dictionary.GetSecKeys`.
- `Dictionary.FindEntry`: asks for the slot instead of comparing with a default that no entry can have.
- `Dictionary.Dictionary.Set`: null dictionaries and keys, failing allocation and `free` are not modelled, so that it always returns 0.
- `Base64.FromText`: the waiting letters are a string of their own, while the source keeps them in the array of the sextets.
- `HexCodec.FromHexString`: the variant with a length of one byte is not modelled.
- `MultiString.Serialize`: room for the items is required of the caller, as the source does not check it.
- `Readers.SupplyReaders`: the card subsystem is a parameter and gives the same answer to both calls; names contain no zero character.
- `Readers.Reorder`: a preferred name longer than the whole list is excluded when it is searched for, as the search would run past the buffer; so in `Readers.ListReaders`.
- `Rules.App.ApplyRules`: delays are left out; what the local copy holds behind the original bytes is a parameter, and `Rules.AllWritten` says when it matters.
- `Rules.App.GetApduFromHistory`: for responses only the latest one is asked for, because the loop over older ones does not end, and there has to be one; for commands the index is at most one behind the list.
- Splitting of log lines, `printHexBinary` and reading of numbers: lines are given as kind and bytes.
- `SCardListReadersW` and the path that allocates the buffer: near copies of the part that is modelled.
- The loop for further response bytes in `SCardTransmit`: it depends on the card.
- Loading of rules and of configuration files: string scanning of C library functions.
- Graphviz and text rendering, flow colours, settings, error texts: formatting without further state.
- Pass-through functions, library loading, sockets, files, logging, clocks and random delays: foreign calls.
