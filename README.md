# Tuple pipelines of adv-sys, modelled in Dafny

The repository is a series of course exercises. Each one passes records of the form
`(userid,action,topic)` or `(userid,topic,weight)` through a pipeline. A mapper reads
tuples character by character and turns actions into weights with a rule table.
Records are queued per channel, and a reducer adds up the weights per topic. A small
bank-account store keeps accounts in a binary search tree. The model covers:

- `text.dfy` (module `Text`): the tuple format's widths and delimiters, and the
  libc routines the C code relies on. These are `getchar`/`feof` on an input
  sequence, `atoi`, `sprintf("%d")`, `strncpy`, `strncmp` and the topic padding
  loop.
- `common.dfy` (modules `Common`, `EchoMapper`): `console_string_read` and
  `console_string_write` of `hw0/common.c` and `hw2/common.c`, the `hw0/mapper.c`
  reader that never returns -1, the action→weight table, and `debugger`.
- `tuple_reader.dfy` (module `TupleReader`): the `console_tuple_read` state machine
  of `hw1/reducer.c`. `r_console_tuple_read` of `hw2/reducer.c` is the same text and
  is modelled once. The C `while`/`switch` loop is a method, proved equal to a
  recursive step function `Run`. The parser's properties are lemmas about `Run`.
- `mapper.dfy` (module `Mapper`): `m_console_tuple_read` and `map` of
  `hw2/mapper.c`.
- `reducer_io.dfy` (module `ReducerIo`): `compareUserId`, `copyUserId`, `reduce`,
  the tuple writers, and the `main` loop of `hw1/reducer.c`. That loop prints and
  restarts the dictionary whenever the user id changes.
- `dictionary.dfy` (module `Dictionary`): the linked-list topic→total map of
  `hw0/dictionary.c`, as a class of heap nodes proved against a list of entries.
  It also covers the test drive of `hw0/reducer.c`.
- `channel.dfy` (module `Channel`): the bounded linked-list FIFO of
  `hw2/channel.c`.
- `fifo.dfy` (module `Fifo`): the per-channel ring buffers of `hw4/fifo.c` over
  arrays, with the wrap-around corrected (see Findings).
- `fifo_as_written.dfy` (module `FifoAsWritten`): the same FIFO with the wrap test
  exactly as the C code writes it. It includes the inputs on which that test
  overwrites a neighbouring channel or writes past the matrix.
- `ring_reducer.dfy` (module `RingReducer`): the circular doubly linked list of
  `hw4/reducer.c`. It is proved against a list of records and related to the hw0
  dictionary's `Add`.
- `account_tree.dfy` (module `AccountSearchTree`): the unbalanced search tree of
  `hw3/accountSearchTree.c`. Its heap nodes are described by a ghost tree value.

Standard input is a character sequence `s` with a cursor. Standard output is the
character sequence (or list of lines) a method returns. `LEN_WEIGHT` is not fixed
by the headers, so it is a parameter `lenW` of at most 3, the size of the
`tempWeight` buffer. That buffer has no NUL terminator, so `atoi` on a full buffer
reads on into the bytes after it; those bytes are a parameter `after` of the reader.

## Model

| member | source | states |
|---|---|---|
| Text.PadFromSpaces | hw1/reducer.c:110-113 | the topic padding loop leaves the characters read, then spaces up to the field width |
| Text.AtoiDigits | hw1/reducer.c:140 | atoi of a digit string ended by a non-digit (the 'X' fill or the end) is the digits' value, negated after a '-' |
| Text.AtoiStopsAt | hw1/reducer.c:140 | nothing after a character that is neither white space, a sign nor a digit changes what atoi returns |
| Text.AtoiItoa | hw1/reducer.c:194 | atoi reads back any integer that sprintf("%d") wrote, when a non-digit or the end follows |
| Text.StrNCpyNulFree | hw4/fifo.c:209-210 | strncpy of a field without NUL characters copies it unchanged |
| Text.CopyIsPadded | hw4/reducer.c:83-84 | after strncpy only NULs follow the first NUL of the copy |
| Text.PaddedIsCopy | hw4/reducer.c:125-126 | a field in the shape strncpy leaves is its own copy |
| Text.StrNCpyIdempotent | hw4/reducer.c:125-126 | copying a copy changes nothing |
| Text.StrNCmpEqualIffSameCopy | hw4/reducer.c:94 | strncmp(a, b, n) == 0 exactly when strncpy makes the same n-character copy of a and b |
| Common.ConsoleStringRead | hw0/common.c:19-35 | returns the count through the first ENTER, or -1; stores the characters read in order at indices 0..n-1 and nothing else; the cursor moves past them (hw2/common.c:30-46 is the same text) |
| Common.ReadLengthFindsLine | hw0/common.c:24-31 | a result n other than -1 is at most 50; character n-1 is ENTER and none before it is |
| Common.ReadLengthFails | hw2/common.c:35-45 | the result is -1 exactly when none of the next MAX_INPUT_STRING_LENGTH characters is ENTER |
| Common.ConsoleStringWrite | hw0/common.c:47-51 | exactly the first len characters are written, in order |
| Common.RuleWeight | hw2/common.c:11-12 | an action has a weight exactly when it is in RULE_ACTION, and the weight is RULE_WEIGHT at that index |
| Common.RuleActionsDistinct | hw2/common.c:11 | the action letters are pairwise distinct, so the first match is the only one |
| Common.RuleTableValues | hw2/common.c:11-12 | P→50, L→20, D→-10, C→30, S→40, and other letters have no weight |
| Common.Debugger | hw2/common.c:70-77 | returns 0 whatever the debug mode |
| EchoMapper.ConsoleStringRead | hw0/mapper.c:63-79 | returns the number of characters read, ENTER included, never -1; stores them in read order |
| EchoMapper.AgreesWithCommonReader | hw0/mapper.c:68-78 | with an ENTER within 50 characters the count matches the common reader; without one, 50 characters without ENTER are read and 50 is returned |
| EchoMapper.ConsoleStringWrite | hw0/mapper.c:91-95 | exactly the first len characters are written |
| TupleReader.ConsoleTupleRead | hw1/reducer.c:59-176 | the C loop returns, leaves in the tuple and consumes exactly what the step function ReadTuple gives (r_console_tuple_read, hw2/reducer.c:15-132, is the same text) |
| TupleReader.HandleChar | hw1/reducer.c:73-161 | one pass of the switch equals the step function Process, whose ')' case takes atoi of tempWeight together with the bytes that follow it |
| TupleReader.SkipsToBracket | hw1/reducer.c:76-79 | characters before the first '(' leave the machine unchanged (hw2/reducer.c:32-35 alike) |
| TupleReader.UserIdClosed | hw1/reducer.c:86-90 | the ',' after the user id moves to the topic with the characters read over the front of the old id |
| TupleReader.TopicClosed | hw1/reducer.c:110-117 | the ',' after the topic pads it with spaces to LEN_TOPIC and moves to the weight |
| TupleReader.WeightClosed | hw1/reducer.c:138-143 | the ')' sets the weight to atoi of the weight characters over the front of the buffer, the rest of the buffer and the bytes after it, sets error to 0, and leaves the loop |
| TupleReader.ShortWeightStaysInBuffer | hw1/reducer.c:66 | a weight of fewer than three characters leaves an 'X' behind it, so atoi stops inside the buffer and the bytes after it play no part |
| TupleReader.FullWeightReadsPastBuffer | hw1/reducer.c:66 | a three-character weight such as "-10" fills the buffer, and atoi's result then depends on the byte after it: -10 before an 'X', -105 before a '5' |
| TupleReader.ReadsWellFormedLine | hw1/reducer.c:59-176 | a well-formed line followed by any character: return 0, the tuple holds the fields and error 0, and the cursor stands after that character; a weight shorter than the buffer is atoi of its own characters, whatever follows the buffer |
| TupleReader.EofAfterCloseFails | hw1/reducer.c:165-172 | end of input right after ')' returns -1 although the tuple was filled (hw2/reducer.c:121-128 alike) |
| TupleReader.NewlineBeforeTuple | hw1/reducer.c:68-70 | ENTER before '(' returns 0 with the tuple's error left at -1 |
| TupleReader.NewlineInTopic | hw2/reducer.c:24-26 | ENTER inside the topic returns 0 with error -1 and the half-read fields |
| TupleReader.UserIdTooLong | hw1/reducer.c:92-95 | more than LEN_USER_ID user id characters return -1 (hw2/reducer.c:48-51 alike) |
| TupleReader.TopicTooLong | hw1/reducer.c:119-122 | more than LEN_TOPIC topic characters return -1 (hw2/reducer.c:75-78 alike) |
| TupleReader.WeightTooLong | hw1/reducer.c:145-148 | more than LEN_WEIGHT weight characters return -1 (hw2/reducer.c:101-104 alike) |
| TupleReader.NewlineEndsField | hw1/reducer.c:70 | ENTER inside a field ends the call with 0 and the characters stored so far |
| Mapper.ConsoleTupleRead | hw2/mapper.c:16-131 | the C loop returns and consumes exactly what ReadTuple gives; NULL only at end of input |
| Mapper.HandleChar | hw2/mapper.c:28-113 | one pass of the switch equals the step function Process |
| Mapper.SkipsToBracket | hw2/mapper.c:31-34 | characters before the first '(' leave the machine unchanged |
| Mapper.ActionClosed | hw2/mapper.c:62-82 | at the second ',' the action holds the last character read between the commas |
| Mapper.TopicClosed | hw2/mapper.c:91-96 | the ')' pads the topic with spaces to LEN_TOPIC and leaves the loop |
| Mapper.ReadsLine | hw2/mapper.c:16-131 | a well-formed line returns the filled tuple, unless the input ends right after ')', which returns NULL |
| Mapper.UserIdTooLongStillReturnsTuple | hw2/mapper.c:47-50 | an over-long user id stops the parse, yet the tuple comes back non-NULL |
| Mapper.ActionTooLongStillReturnsTuple | hw2/mapper.c:71-74 | an over-long action stops the parse, yet the tuple comes back non-NULL |
| Mapper.TopicTooLongStillReturnsTuple | hw2/mapper.c:98-101 | an over-long topic stops the parse, yet the tuple comes back non-NULL |
| Mapper.Map | hw2/mapper.c:141-179 | the loop over the rule table leaves exactly MapSpec's output and return value |
| Mapper.MapByTable | hw2/mapper.c:144-178 | map returns 0 exactly for a table letter, with that letter's weight, error 0, and topic and user id copied; otherwise error -1, return -1, and topic and user id untouched |
| Mapper.ExampleHistory | hw2/combiner.c:100-103 | "(1111,P,history)" maps to user id 1111, topic "history" padded, weight 50 |
| ReducerIo.CompareUserId | hw1/reducer.c:235-249 | returns 0 exactly when the first LEN_USER_ID characters agree, else -1 (hw2/reducer.c:189-203 is the same text) |
| ReducerIo.CopyUserId | hw1/reducer.c:257-261 | the id buffer holds exactly the first LEN_USER_ID characters (hw2/reducer.c:211-215 is the same text) |
| ReducerIo.RecordLineFields | hw2/reducer.c:147-160 | a printed tuple has '(' and ',' at fixed places, the id and topic in between, and a total that atoi reads back |
| ReducerIo.LinesAppend | hw2/reducer.c:144-164 | printing a list prints its first part, then the rest |
| ReducerIo.ConsoleTupleWrite | hw2/reducer.c:140-167 | one line per node from the head on, nothing for NULL |
| ReducerIo.WeightFieldLosesDigits | hw1/reducer.c:193-202 | as written, 21456 prints as "214" and 5 as '5', NUL and a junk byte |
| ReducerIo.Reduce | hw1/reducer.c:223-226 | the dictionary becomes Add of the tuple's topic and weight (hw2/reducer.c:177-180 is the same text) |
| ReducerIo.ReadsStep | hw1/reducer.c:290-322 | main handles a tuple exactly when the read returns 0, then reads on from where it stopped |
| ReducerIo.StepCases | hw1/reducer.c:297-314 | a new user id prints the old dictionary and starts a fresh one holding the tuple; the same id adds to the dictionary |
| ReducerIo.GroupEnd | hw1/reducer.c:334-336 | at the end, main prints its two messages and then the last run's dictionary |
| ReducerIo.InitIds | hw1/reducer.c:274-280 | currId starts as "XXXX" and prevId as "YYYY" |
| ReducerIo.HandleTuple | hw1/reducer.c:297-314 | the loop body prints and updates exactly as Step says |
| ReducerIo.RunGrouping | hw1/reducer.c:269-339 | main prints exactly the grouping Group of the tuples read, and fails exactly when reduce would get a NULL dictionary |
| Dictionary.AddTotals | hw0/dictionary.c:49-108 | adding v under k raises k's total by v and leaves every other total alone |
| Dictionary.AddPresent | hw0/dictionary.c:65-75 | a key already present: that entry's total grows, nothing else changes, the length stays |
| Dictionary.AddAbsent | hw0/dictionary.c:86-106 | an absent key: exactly one entry with that value is appended |
| Dictionary.AddKeys | hw0/dictionary.c:65-106 | keys stay pairwise distinct and in first-insertion order |
| Dictionary.CompareStrings | hw0/dictionary.c:177-190 | returns 1 exactly when the first LEN_TOPIC characters agree, else 0 |
| Dictionary.Dict.constructor | hw0/dictionary.c:24-36 | one node, not valid, value 0, no successor, key of LEN_TOPIC 'X' |
| Dictionary.Dict.AddToValue | hw0/dictionary.c:49-108 | the entries become Add of the key and value; at most one node is allocated, at the tail; the node returned holds the key's new total |
| Dictionary.Dict.FillHead | hw0/dictionary.c:55-62 | the first add fills the head node and allocates nothing |
| Dictionary.Dict.Find | hw0/dictionary.c:65-84 | the walk stops at the first node with the key, or at the last node when there is none |
| Dictionary.Dict.AddAt | hw0/dictionary.c:71-75 | only the found node's value changes, by the value added |
| Dictionary.Dict.Append | hw0/dictionary.c:86-106 | one new valid node holding the key and value follows the old tail |
| Dictionary.ReplayRunningTotals | hw0/dictionary.c:49-108 | each call returns the key's total so far: the old total plus every value given with it up to that call |
| Dictionary.Drive | hw0/reducer.c:50-101 | for any three distinct keys, the test drive's calls return 10, 456, 15, 1456, 20, 21456, 12321, 24642 |
| Dictionary.TestDrive | hw0/reducer.c:56-101 | the same with the keys of the test drive |
| Channel.EnqueueDequeueBounded | hw2/channel.c:52-105 | reads and writes keep count within max; a write succeeds exactly below max |
| Channel.EnqueueAllAppends | hw2/channel.c:81-101 | writes that fit queue up behind what is there |
| Channel.DequeueNTakesOldest | hw2/channel.c:52-66 | n reads take the n oldest tuples, in order |
| Channel.WriteOrderIsReadOrder | hw2/channel.c:85-98 | tuples come out in the order they were written |
| Channel.ChannelT.constructor | hw2/channel.c:22-39 | userid all NUL, max = size, count 0, head and tail NULL |
| Channel.ChannelT.Write | hw2/channel.c:78-106 | full: -1 and nothing changes; else 0, the tuple becomes the head, and count rises by one; no queued tuple's contents change |
| Channel.ChannelT.Read | hw2/channel.c:49-68 | empty: NULL and nothing changes; else the tail is detached and returned, and count drops by one; no queued tuple's contents change |
| Channel.ChannelT.SetUserId | hw2/channel.c:114-118 | the id is the strncpy copy of LEN_USER_ID characters, and the result is 0 |
| Fifo.Copy | hw4/fifo.c:206-213 | the copy has the field widths of a tuple and keeps the weight (its fields are the subject of CopyIdempotent and CopyNulFree) |
| Fifo.CopyIdempotent | hw4/fifo.c:207-213 | copying a copied tuple changes nothing |
| Fifo.CopyNulFree | hw4/fifo.c:209-211 | a tuple without NULs in its id and topic is copied exactly |
| Fifo.QueueWrite | hw4/fifo.c:177-185 | a store at the write index appends to the channel's queue |
| Fifo.QueueRead | hw4/fifo.c:139-147 | the slot at the read index is the oldest tuple; advancing the index drops it |
| Fifo.RowsApart | hw4/fifo.c:177-180 | channel rows ch*depth..ch*depth+depth-1 do not overlap |
| Fifo.IndicesEmpty | hw4/fifo.c:87-93 | after the init loop every channel is empty, with both indices 0 |
| Fifo.IndicesWrite | hw4/fifo.c:175-186 | a write stores at row start plus write index, and its queue gains the tuple while other channels' queues stay |
| Fifo.IndicesRead | hw4/fifo.c:137-148 | a read takes the oldest tuple and leaves the rest and the other channels |
| Fifo.FifoT.constructor | hw4/fifo.c:45-93 | every channel has depth d, write index, read index and size 0, and is empty |
| Fifo.FifoT.Write | hw4/fifo.c:170-197 | full: -1 and no index, size or slot changes; else 0, the copy goes into slot ch*depth + wrindex, and the channel's queue gains it, others unchanged |
| Fifo.FifoT.Read | hw4/fifo.c:130-161 | empty: None and nothing changes; else a copy of slot ch*depth + rdindex, the oldest, and the size one smaller, others unchanged |
| FifoAsWritten.Init | hw4/fifo.c:45-93 | the as-written FIFO starts with zero indices and sizes and a zero-filled matrix |
| FifoAsWritten.Write | hw4/fifo.c:170-197 | full: -1 and nothing changes; else 0, the copy is stored at ch*depth + wrindex, the size grows by one, an index below depth steps up by one, and other channels keep their indices and sizes |
| FifoAsWritten.Read | hw4/fifo.c:130-161 | empty: nothing changes; else the size drops by one, an index below depth steps up by one, and the slot at ch*depth + rdindex is returned, or its address when no slot of the matrix is there |
| FifoAsWritten.AdvanceReachesDepth | hw4/fifo.c:184-185 | `if (i++ == depth)` takes depth-1 to depth, not to 0 |
| FifoAsWritten.NeighbourOverwritten | hw4/fifo.c:175-185 | two more writes to a channel at depth-1 overwrite the next channel's first slot |
| FifoAsWritten.NeighbourOverwrittenReachable | hw4/fifo.c:130-197 | such a state is reached from a fresh FIFO of two channels of depth 2 |
| FifoAsWritten.WritePastMatrix | hw4/fifo.c:177-185 | for the last channel the second write stores at n*d, outside the matrix |
| RingReducer.TopicIndex | hw4/reducer.c:91-100 | the search stops at the first record whose topic strncmp-matches, or after all of them |
| RingReducer.ReducedFound | hw4/reducer.c:124-127 | a found record takes the tuple's id and topic and adds its weight |
| RingReducer.ReducedAppends | hw4/reducer.c:104-127 | a new topic appends one record with total 0 + weight |
| RingReducer.ReducedSettled | hw4/reducer.c:64-129 | reduce keeps every topic a strncpy copy, and the topics distinct |
| RingReducer.SettledIsKeysDistinct | hw4/reducer.c:91-127 | for copied topics, distinct topics are exactly distinct dictionary keys |
| RingReducer.MatchIsSameKey | hw4/reducer.c:94 | two topics strncmp-match exactly when they have the same key |
| RingReducer.TopicIndexIsKeyIndex | hw4/reducer.c:91-100 | the ring search finds the position the dictionary lookup gives |
| RingReducer.ReducedIsAdd | hw4/reducer.c:64-129 | on the key→total view, reduce is the hw0 dictionary's Add |
| RingReducer.ReducedAggregates | hw4/reducer.c:64-129 | the tuple's topic total grows by its weight, and every other total stays |
| RingReducer.PrecisionNulFree | hw4/reducer.c:48 | "%.ns" prints a NUL-free field in full |
| RingReducer.LineNulFree | hw4/reducer.c:48 | a record without NULs prints as the line of hw2's writer |
| RingReducer.Reducer.constructor | hw4/reducer.c:9-11 | globals start at 0 with root NULL and no records |
| RingReducer.Reducer.WalkVisitsEachOnce | hw4/reducer.c:108-116 | following next from root visits count different nodes and returns to root |
| RingReducer.Reducer.TupleInit | hw4/reducer.c:25-29 | count and used flag back to 0 and the ring forgotten; root is left as it is |
| RingReducer.Reducer.Reduce | hw4/reducer.c:64-129 | the records become Reduced of the tuple, the used flag is 1, and at most one node is added, at the tail |
| RingReducer.Reducer.First | hw4/reducer.c:72-88 | the first reduce makes one self-linked root holding the tuple, and count 1 |
| RingReducer.Reducer.Find | hw4/reducer.c:91-100 | the counted loop finds the TopicIndex node, or reports none after count steps |
| RingReducer.Reducer.AddToFound | hw4/reducer.c:124-127 | a found node's record is updated in place; the nodes stay |
| RingReducer.Reducer.AddNew | hw4/reducer.c:104-127 | a new node is spliced in before root, and count rises by one |
| RingReducer.Reducer.Splice | hw4/reducer.c:104-122 | the new node becomes root->prev and the old tail's next, and the ring stays consistent |
| RingReducer.Reducer.WriteTuple | hw4/reducer.c:37-52 | nothing before any reduce, else one line per record in first-seen order |
| AccountSearchTree.Account.constructor | hw3/accountSearchTree.c:49-53 | the new node has the given number and balance and no children |
| AccountSearchTree.OrderedInOrder | hw3/accountSearchTree.c:154-162 | the in-order traversal of a search tree has non-decreasing numbers |
| AccountSearchTree.InsertContents | hw3/accountSearchTree.c:109-128 | insertion adds exactly the new account to the accounts listed |
| AccountSearchTree.InsertOrdered | hw3/accountSearchTree.c:111-127 | greater numbers go right and others left, so left ≤ node < right is kept |
| AccountSearchTree.InsertDistinct | hw3/accountSearchTree.c:109-128 | a new node object keeps the nodes free of sharing |
| AccountSearchTree.InsertAddsLeaf | hw3/accountSearchTree.c:109-128 | the new node is in the tree, taking its leaf away gives back the old tree, and the size grows by one |
| AccountSearchTree.InsertAccountInTree | hw3/accountSearchTree.c:109-128 | the heap nodes from r describe Insert of the old tree: the node hangs at the first empty child on its search path |
| AccountSearchTree.PrintInOrderContents | hw3/accountSearchTree.c:154-162 | the accounts printed are the in-order traversal |
| AccountSearchTree.Accounts.constructor | hw3/accountSearchTree.c:20 | root starts NULL: an empty tree |
| AccountSearchTree.Accounts.InitAccountTree | hw3/accountSearchTree.c:35-38 | root NULL: the tree is empty |
| AccountSearchTree.Accounts.AddAccount | hw3/accountSearchTree.c:47-71 | a fresh node becomes the root of an empty tree (0) or a leaf of a non-empty one (-1); the tree stays ordered |
| AccountSearchTree.Accounts.AccountTransaction | hw3/accountSearchTree.c:73-76 | always -1 |
| AccountSearchTree.Accounts.PrintAccountContents | hw3/accountSearchTree.c:85-89 | the accounts in in-order, with non-decreasing numbers |

## Left out

- Mutexes, `mmap` and threads (hw4/fifo.c, hw2/combiner.c): the model is single-threaded, and no lock flag is kept.
- Memory release and allocation failure (`dictFreeNodes`, `_destroyTree`, `free`, the NULL branch at hw0/dictionary.c:89-93): allocation always succeeds and freed nodes are simply no longer used.
- `destroyAccountTree`: it only frees memory.
- `FifoDestruct`: a stub returning -1.
- Channel routing (`getUserChannel` and its maps): declared but not implemented in the shown code.
- hw4/mapper.c, hw1/combiner.c, hw4/combiner.c, hw3/transfProg.c, the drivers and user applications of hw5 to hw7: stubs, process plumbing, file I/O, or concurrency.
- Debug printing (`dictDisplayContents`, `debugger`'s text, "Initializing root.", "**DEBUG**" lines): printing is reduced to the values shown. For example, the hw3 traversal returns the accounts it would print.
- 32-bit integers: weights and totals are unbounded, so an `int32_t` overflow of a total is not modelled.
- Fifo.FifoT.constructor: requires a positive depth. A FIFO of depth 0 is not modelled.
- Fifo.Copy: the constant 0 that `copy_reducer_tuple` returns is not modelled, since no caller reads it.
- The `char weightString[3]` buffer of hw2/reducer.c:147-149 is too small for totals of three or more characters, such as 100 or -10 (with the NUL, four bytes). ReducerIo.ConsoleTupleWrite prints the whole decimal total, as `%s` would if the overflowed bytes survived.
- RingReducer.Reducer.TupleInit: the old ring stays allocated, and its nodes are no longer described by the model.
- RingReducer.Reducer.WriteTuple: returns the lines after walking the ring, instead of printing inside the loop.
- ReducerIo.RunGrouping: keeps main's dictionary pointer as its list of entries, or None for NULL. `reduce` and the writer are proved separately over the heap dictionary (ReducerIo.Reduce, ReducerIo.ConsoleTupleWrite), and main's printing uses the corrected writer.
- TupleReader.ConsoleTupleRead: the bytes after `tempWeight[3]` that atoi reads when a weight fills the buffer are a parameter `after`, the same on every call; what memory holds there is not known to the model, and atoi stops at the end of `after`.
- TupleReader.HandleChar: its ')' case uses the same `after` bytes, so it is only as exact as that parameter.
- TupleReader.WeightClosed: the weight of a three-character field depends on `after` (TupleReader.FullWeightReadsPastBuffer); only shorter fields have a value fixed by the input alone.
- TupleReader.ReadsWellFormedLine: its weight is fixed by the line alone only for weights shorter than three characters (TupleReader.ShortWeightStaysInBuffer).
- Channel.ChannelT.Write: requires a tuple written behind others to have a NULL `prev`. hw2/channel.c:94-98 never clears `prev` on that path, so this is the caller's obligation in the model.
- `tupleIn_t inputTuple` in main is uninitialised C memory: the model takes its first contents as a parameter `t0`.
- The freshly malloc'd tuple of `m_console_tuple_read` is likewise a parameter `junk0`.
- A real 0xFF input byte reads like EOF in C only when `feof` is set; the model treats end of input as the end of the sequence.

## Findings

| source | as written | input that shows it | evidently intended | confidence | as-written member | corrected member |
|---|---|---|---|---|---|---|
| hw4/fifo.c:184-185 | `if (fifo->_wrindex[ch]++ == fifo->_depth[ch])` compares the index before the increment, so it reaches depth; fifo_read does the same at hw4/fifo.c:146-147 | two channels of depth 2: write to channel 1, write to channel 0, read channel 0, then write channel 0 twice. The second write lands in slot 2, channel 1's oldest tuple | wrap to 0 on reaching depth, keeping indices in [0, depth) | not executed | FifoAsWritten.NeighbourOverwritten | Fifo.FifoT.Write |
| hw4/fifo.c:184-185 | the same test on the last channel | the last channel with write index depth-1 and room for two: the second write stores at n*depth, past the matrix | the same wrap | not executed | FifoAsWritten.WritePastMatrix | Fifo.IndicesWrite |
| hw1/reducer.c:193-202 | `sprintf` into `char weightString[3]`, then exactly 3 characters of the buffer are written | a total of 21456 (the hw0 test drive's) prints as "214"; a total of 5 prints '5', NUL and a junk byte | print the whole decimal total in a buffer large enough for it (hw2/reducer.c:147-149 uses the same 3-byte buffer, and its `%s` prints the whole total only if the overflowed bytes survive) | not executed | ReducerIo.WeightFieldLosesDigits | ReducerIo.RecordLineFields |
