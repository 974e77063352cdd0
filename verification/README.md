# Verified models of MulleScion

MulleScion is a template engine. A template is one flat chain of objects in which
commands nest like brackets; the engine rewires that chain in place. The repository also
carries an HTTP server (mongoose) and a Markdown renderer (hoedown). This project models the
parts of all three whose correctness is hardest to see, and proves what they promise, or
exactly when they keep it.

`dafny verify dfyconfig.toml` checks everything.

| modules | subject |
|---|---|
| ObjectModel, BlockRun, BlockTree, BlockContent, BlockTheorems, BlockExpansion | `expandBlocksUsingTable:`: the chain on the heap, the loop on sequences with its termination measure, the recursion on trees, and what follows from it |
| Expressions, MacroBody | variable substitution and the expansion of macro bodies |
| Archive, ArchiveCoding | `encodeWithCoder:` and `initWithCoder:`, and with them `copy` |
| SocketQueue, WorkerPool, WorkerPoolSafety, WorkerPoolCount | the ring of accepted sockets, and master, workers and `mg_start`/`mg_stop` as interleaved steps |
| GlobMatch | `match_prefix` |
| Digest | streaming MD5 and SHA-1, with the compression functions as parameters |
| RequestFraming, Connection | `get_request_len`, `mg_read` and the keep-alive loop |
| Uri, UriBuffers | percent-encoding and path cleaning, in place |
| BufferPool, BlockScanner, DocumentParser | hoedown's document parser and its pools of work buffers |
| LinkRefs | hoedown's table of link references |
| Toc | hoedown's table-of-contents renderer |
| Wrappers | types that several modules share |

Code that works step by step is modelled by methods on heap objects or arrays, with ghost
parameters for the abstract value (a chain, a message, a byte stream); what is promised is
proved about the functions these methods are tied to. Threads are steps of a state machine
in any order. In DocumentParser the inline scanners are left open: a value that the model
does not fix stands for whatever the text, the renderer's callbacks and the extension flags
make of it, so its results hold for all of them.

## What does not hold

Some of the repository's promises hold only under a condition; each is proved as an
if-and-only-if, with inputs that fail beside it.

- Expansion raises for recursion exactly when some block would be opened inside itself
  (`RaisesIffSelfNested`, `BlockInItself`).
- The worker pool's shutdown is safe exactly when no worker can leave while `mg_start` still
  counts: it counts a thread, without the lock, after starting it (`SafeIffNoEarlyExit`,
  `EarlyExitUnderflows`, `EarlyExitFreesTooSoon`). Any schedule in which none does is safe
  (`ScheduleWithoutEarlyExitIsSafe`). In one in which some do, the count drifts by exactly what is
  stale in the writes to it (`CountDrifts`). Where no write is stale, all that can happen is that it
  is decremented at zero, which the source's assertion would catch, and for a moment before the
  shutdown (`SafeUnlessDecrementedAtZero`).
- A rebuilt comparison compares with `==`, and a pipe or dot whose right side alone changes
  loses its left side: substitution in an expression is plain exactly where none of that shows
  (`PlainIffExact`, `ComparisonTurnsEqual`, `PipeLosesLeft`). In an element of a macro body it is plain
  exactly where, besides, no filter loses flags (`ElementIsPlainIffExact`, `FilterLosesFlags`). Only
  one parameter is substituted in each element, which is all of them exactly when no other argument
  would show in it (`SimultaneousIffOthersDoNotShow`, `SimultaneousIffOneOccurs`, `TwoParameters`).
- A copy equals the original exactly when no line number reaches 2^32, no comparison code
  leaves a byte, and nothing is set that no class codes, as in a macro
  (`CopyIsIdentityIffFaithful`, `LongLine`, `UncodedIsLost`).
- The guard of `SHA1Update` is a sum that wraps: it is right exactly below 2^32
  (`Sha1GuardIsExact`).
- Keep-alive stays in step exactly when the body was buffered or read completely
  (`InStepIffDrained`, `UnreadBody`).
- `url_encode` skips a byte of its buffer, without writing it, where an escape no longer fits. What
  it leaves is a part of the encoding, whatever was in the buffer, exactly when the end of the buffer
  cuts no escape (`PrefixIffNoEscapeIsCut`, `StaleByte`).
- The path cleaner leaves two dots in front of a path, and only there (`ParentStaysInFront`).
- The table of contents counts headers in block quotes and list items, but their entries are
  dropped. Its markup is balanced exactly when every entry that is kept stands in a list
  and the kept moves add up to the final level (`BalancedIffKeptMovesAddUp`, `QuotedHeader`,
  `QuotedHeaderBetween`); where nothing is dropped, exactly when no listed header is above the first
  one (`BalancedIffFirstOutranksAll`, `HigherHeader`).
- Its entries link to the right headers exactly when each header has the same position in what
  both renderers list, but for the head start of the main renderer's counter, which nothing
  resets (`AnchorsAgreeIff`, `HeaderInHtmlBlock`). Where both list the same headers: exactly when
  there is no head start, or no entry (`AnchorsAgreeIffFreshRenderer`, `SecondDocument`).

## Model

| member | source | states |
|---|---|---|
| ObjectModel.FindEndIsFirstClose | src/MulleScionObjectModel.m:841-866 | the terminator found is the first position at which the commands of the class are closed once more than opened, at any nesting |
| BlockRun.WeightOfStretch | src/MulleScionObjectModel+BlockExpansion.m:115-142 | a stretch that closes the open blocks costs at most its length times the cost inside the outermost of them |
| BlockRun.SpliceLowersWeight | src/MulleScionObjectModel+BlockExpansion.m:115-142 | a splice lengthens the unvisited chain but lowers its weight, so expansion terminates for every table, mutually referring overrides included |
| BlockTree.FindEndSkipsForest | src/MulleScionObjectModel.m:841-866 | the search for a terminator passes over whole nested blocks |
| BlockTree.RunRefinesExpand | src/MulleScionObjectModel+BlockExpansion.m:102-145 | from any point and any stack, the flat loop does to the flattening of a forest what the recursion does to the forest, and then goes on behind it; or it raises with the same line, identifier and stack |
| BlockTree.RunRefinesInside | src/MulleScionObjectModel+BlockExpansion.m:119-142 | the same inside a block just opened, up to its endblock |
| BlockTree.ExpansionIsTreeRecursion | src/MulleScionObjectModel+BlockExpansion.m:102-145 | the whole loop yields the flattening of the tree expansion, and raises exactly when that recursion meets an identifier already open |
| BlockTheorems.ReopeningRaises | src/MulleScionObjectModel+BlockExpansion.m:122-128 | wherever blocks open each other, through overrides too, along a path that comes back to an open identifier, the expansion raises |
| BlockTheorems.RaisingReopens | src/MulleScionObjectModel+BlockExpansion.m:122-128 | and it raises only then: such a path is produced from every failure |
| BlockTheorems.RaisesIffSelfNested | src/MulleScionObjectModel+BlockExpansion.m:122-128 | the loop raises if and only if some block would end up nested inside itself |
| BlockTheorems.BlockInItself | src/MulleScionObjectModel+BlockExpansion.m:122-128 | a block in a block of the same name raises, with the inner line and the open identifiers |
| BlockTheorems.ExpandTwice | src/MulleScionObjectModel+BlockExpansion.m:102-145 | expanding an expansion with the same table and stack changes nothing |
| BlockTheorems.ExpansionIsIdempotent | src/MulleScionObjectModel+BlockExpansion.m:102-145 | the same for the loop on chains |
| BlockTheorems.BalancedParses | src/MulleScionObjectModel.m:841-866 | every balanced chain is the flattening of a well-formed forest |
| BlockTheorems.TableParses | src/MulleScionObjectModel+BlockExpansion.m:102-106 | every table of single-block chains is the flattening of a table of trees |
| BlockTheorems.ChainExpandsAsTree | src/MulleScionObjectModel+BlockExpansion.m:102-145 | for every balanced chain and every table of single-block chains there are trees such that the loop is the recursion on them |
| BlockTheorems.BalancedNeverFails | src/MulleScionObjectModel+BlockExpansion.m:85-90 | on balanced chains no assertion fails and no empty stack is popped: the result is balanced, or the loop raises for recursion |
| BlockTheorems.ExpansionConservesBalance | src/MulleScionObjectModel+BlockExpansion.m:102-145 | on any chain, balanced or not, expansion keeps the number of open minus closed blocks |
| BlockTheorems.SpliceIsBalanced | src/MulleScionObjectModel+BlockExpansion.m:72-95 | replacing a block by anything balanced keeps a balanced chain balanced, and what is taken out is balanced |
| BlockContent.NothingMadeUp | src/MulleScionObjectModel+BlockExpansion.m:102-145 | every item of the chain that the loop leaves was in the chain, or is one of an override's |
| BlockContent.NothingToOverride | src/MulleScionObjectModel+BlockExpansion.m:130-132 | a chain none of whose blocks has an override stays as it is |
| BlockContent.ExpandPutsOverridesIn | src/MulleScionObjectModel+BlockExpansion.m:130-142 | what lies outside of overridden blocks is the same before and after, and every overridden block is its override, up to the blocks in it that have overrides themselves |
| BlockContent.ExpansionIsTheOnlyOne | src/MulleScionObjectModel+BlockExpansion.m:130-142 | the expansion is the only forest of which that holds |
| BlockExpansion.MulleScionObject.Behead | src/MulleScionObjectModel+Parsing.m:42-49 | cuts the first object off; what is left is a chain |
| BlockExpansion.MulleScionObject.Tail | src/MulleScionObjectModel+Parsing.m:52-58 | finds the last object of the chain |
| BlockExpansion.MulleScionObject.Count | src/MulleScionObjectModel+Parsing.m:61-70 | counts the chain |
| BlockExpansion.MulleScionObject.AppendRetainedObject | src/MulleScionObjectModel+Parsing.m:73-78 | concatenates two chains without common objects |
| BlockExpansion.MulleScionObject.Copy | src/MulleScionObjectModel+NSCoding.m:53-113 | a new chain of new objects, each of which has the class, identifier and payload of the one it copies, and the lower 32 bits of its line number |
| BlockExpansion.MulleScionObject.TerminateToEnd | src/MulleScionObjectModel.m:841-866 | returns the bracket-matching terminator, which is the class that ends that command (endif for if, endfor for for, and so on), nil when the chain runs out |
| BlockExpansion.MulleScionObject.NextOwnerOfBlockCommand | src/MulleScionObjectModel+BlockExpansion.m:44-56 | the object before the next block or endblock; everything passed is neither |
| BlockExpansion.MulleScionObject.ReplaceOwnedBlockWith | src/MulleScionObjectModel+BlockExpansion.m:72-95 | yields prefix, replacement, and what follows the matching endblock, as one acyclic chain, balanced if both were; the old block up to its endblock is detached as a chain of its own, balanced then too; without an endblock nothing changes |
| BlockExpansion.SpliceStaysBalanced | src/MulleScionObjectModel+BlockExpansion.m:72-95 | the same of the sequences of objects |
| BlockExpansion.MulleScionObject.ExpandBlocksUsingTable | src/MulleScionObjectModel+BlockExpansion.m:102-145 | the pointer loop terminates with the outcome and the items of `Run`, in an acyclic chain that shares no object with the table, whose chains are unchanged; every item of it is one of the old chain, or has class, identifier, payload and lower line number of one of an override |
| SocketQueue.RebasedKeepsContents | src/mongoose/mongoose.c:5010-5019 | moving both counters back together keeps the waiting sockets and the next one, and bounds the counters |
| SocketQueue.GrabbedDequeues | src/mongoose/mongoose.c:5009-5020 | consuming removes exactly the oldest waiting socket |
| SocketQueue.AddedEnqueues | src/mongoose/mongoose.c:5091-5096 | producing appends exactly the given socket |
| SocketQueue.MgContext.ConsumeSocket | src/mongoose/mongoose.c:5000-5027 | on the array: the oldest socket, if any, and the rest of the queue in order |
| SocketQueue.MgContext.ProduceSocket | src/mongoose/mongoose.c:5082-5100 | on the array: the socket last, or nothing when 20 are waiting |
| WorkerPool.QueueInvKept | src/mongoose/mongoose.c:5000-5078 | every step of every thread keeps: no socket is lost, duplicated or reordered, and each one grabbed is served, dropped, or held by the worker that grabbed it |
| WorkerPoolSafety.FirstInFirstOut | src/mongoose/mongoose.c:5000-5100 | in every reachable state of every schedule: dequeued followed by waiting sockets are the enqueued ones; 0 <= tail <= head, head - tail <= 20, tail <= 20, head <= 40; a worker serves the socket it dequeued itself; nothing is dropped or refused before the stop |
| WorkerPoolSafety.ThreadInvKept | src/mongoose/mongoose.c:5029-5078 | without early exits every step keeps the thread count and the state of the handshake |
| WorkerPoolSafety.StopIsSafe | src/mongoose/mongoose.c:5182-5249 | in every reachable state `num_threads` is not negative; once the master has joined, and destroys the mutex, no worker is alive; once the context is freed no thread can take a step |
| WorkerPoolSafety.ConsumeEnabled | src/mongoose/mongoose.c:5004-5020 | in every reachable state with the mutex free, a worker at the queue can go on if and only if a socket waits or the stop has begun, and then takes the oldest if there is one |
| WorkerPoolSafety.ProduceEnabled | src/mongoose/mongoose.c:5086-5096 | the master can put down a socket if and only if fewer than 20 wait or the stop has begun; if fewer wait it is then the last of them |
| WorkerPoolSafety.ServeEnabled | src/mongoose/mongoose.c:5025-5067 | a worker that took a socket serves that one while the stop has not begun and is back at the queue then, and leaves otherwise |
| WorkerPoolSafety.AcceptEnabled | src/mongoose/mongoose.c:5161-5176 | the master takes new sockets exactly until the stop begins |
| WorkerPoolSafety.StartEnabled | src/mongoose/mongoose.c:5328-5341 | `mg_start` starts and counts every worker before it returns, and skips those that do not start |
| WorkerPoolSafety.WaitingSocketGetsOn | src/mongoose/mongoose.c:5000-5078 | while a socket waits or the stop has begun, and a worker is alive, some worker can take a step |
| WorkerPoolSafety.StopGetsOn | src/mongoose/mongoose.c:5182-5249 | once the stop has begun, in every reachable state somebody can take a step until the context is freed |
| WorkerPoolSafety.JoinEnabled | src/mongoose/mongoose.c:5188-5193 | the master joins if and only if no worker is left |
| WorkerPoolSafety.EarlyExitUnderflows | src/mongoose/mongoose.c:5033-5078 | a schedule in which a worker fails its allocation and the count becomes -1 |
| WorkerPoolSafety.EarlyExitFreesTooSoon | src/mongoose/mongoose.c:5330-5340 | a schedule that loses an update of the count and frees the context under a live worker |
| WorkerPoolSafety.SafeIffNoEarlyExit | src/mongoose/mongoose.c:5029-5078 | all schedules are safe if and only if workers cannot leave while `mg_start` still counts |
| WorkerPoolSafety.SameRunWithoutEarlyExit | src/mongoose/mongoose.c:5029-5078 | a schedule without an early exit does the same whether or not early exits are possible |
| WorkerPoolSafety.ScheduleWithoutEarlyExitIsSafe | src/mongoose/mongoose.c:5029-5078 | any one schedule in which no worker leaves early is safe |
| WorkerPoolCount.DriftOfStep | src/mongoose/mongoose.c:5070-5075 | a step makes the count differ from the threads it counts by exactly what is stale in its write |
| WorkerPoolCount.CountDrifts | src/mongoose/mongoose.c:5330-5340 | after any schedule, early exits included, the count is off by the sum of what was stale |
| WorkerPoolCount.SafeUnlessDecrementedAtZero | src/mongoose/mongoose.c:5029-5078 | a schedule without a stale write is safe if and only if the count is not negative, and it is negative exactly where the only thread that is not counted yet has left and no other is there, before the shutdown |
| GlobMatch.MatchesCross | src/mongoose/mongoose.c:865-902 | two matches of one pattern whose paths cross can be spliced |
| GlobMatch.GreedyIsLongest | src/mongoose/mongoose.c:884-894 | when no longer run of a star leads to a match, the longest match behind this one is the longest of all |
| GlobMatch.MatchStar | src/mongoose/mongoose.c:879-894 | backtracking over a star finds the longest match, or -1 when there is none |
| GlobMatch.MatchPrefix | src/mongoose/mongoose.c:865-902 | for a pattern not followed by `*`: -1 exactly when no prefix is in the pattern's language; else the longest such prefix of the first alternative with a non-empty match |
| GlobMatch.SingleAlternative | src/mongoose/mongoose.c:865-902 | without a bar the answer is simply the longest match |
| GlobMatch.AnswerIsUnique | src/mongoose/mongoose.c:865-902 | there is one answer only |
| GlobMatch.AlternativesAreAll | src/mongoose/mongoose.c:869-873 | the alternatives, with bars between them, are the whole pattern |
| GlobMatch.LetterAlone | src/mongoose/mongoose.c:896-898 | an ordinary character matches itself |
| GlobMatch.QuestionMarkAlone | src/mongoose/mongoose.c:877-878 | `?` matches any one character |
| GlobMatch.DollarAlone | src/mongoose/mongoose.c:879-880 | `$` matches the end only |
| GlobMatch.StarAlone | src/mongoose/mongoose.c:881-888 | `*` matches any run without a slash |
| GlobMatch.TwoStarsAlone | src/mongoose/mongoose.c:881-888 | `**` matches any run |
| Digest.DigestContext.Md5Update | src/mongoose/mongoose.c:2119-2149 | takes the context after a message m to the context after m and the data: chaining value, unfinished block, 64-bit count with its carry |
| Digest.DigestContext.Md5Final | src/mongoose/mongoose.c:2155-2181 | the digest is the fold over the message padded as section 3 of RFC 1321 says |
| Digest.DigestContext.Sha1Update | src/mongoose/mongoose.c:3703-3722 | as Md5Update, as long as the unfinished block and the data together stay below 2^32 bytes |
| Digest.DigestContext.Sha1Final | src/mongoose/mongoose.c:3724-3745 | the digest is the fold over the message padded as section 4 of RFC 3174 says |
| Digest.PaddedBlocks | src/mongoose/mongoose.c:2155-2181 | the padding built block by block, with or without an additional block, is the padding of the RFC |
| Digest.LengthWords | src/mongoose/mongoose.c:2122-2126 | two 32-bit words with carry, in either byte order, are the 64-bit length |
| Digest.LittleEndianValue | src/mongoose/mongoose.c:2122-2126 | the bytes, read back least significant first, are the number modulo 256^k |
| Digest.BigEndianValue | src/mongoose/mongoose.c:3728-3731 | the same most significant first |
| Digest.LengthFields | src/mongoose/mongoose.c:2174-2175 | the eight bytes at the end of either padding are the length of the message in bits, modulo 2^64 |
| Digest.PaddedAsStandardised | src/mongoose/mongoose.c:2155-2181 | a padded message is the message, a byte 0x80, zero bytes, and the eight of the length, in the fewest blocks of 64 |
| Digest.Sha1GuardIsExact | src/mongoose/mongoose.c:3703-3722 | the wrapped comparison sees a full block exactly when the true sum is below 2^32, and misses it always otherwise |
| Digest.MgMd5 | src/mongoose/mongoose.c:2196-2213 | the digest of the concatenation, however it is cut up |
| Digest.Sha1 | src/mongoose/mongoose.c:3694-3745 | the same for SHA-1 |
| RequestFraming.ScanIsFirstEvent | src/mongoose/mongoose.c:1808-1827 | the scan reports the first bad character or end of header, and 0 only when there is neither |
| RequestFraming.RequestLenIsStable | src/mongoose/mongoose.c:1808-1827 | a nonzero answer is the answer for every extension of the buffer |
| RequestFraming.RequestLenMeaning | src/mongoose/mongoose.c:1808-1827 | the header found ends in an empty line, contains no earlier one and no bad character |
| RequestFraming.FoundIff | src/mongoose/mongoose.c:1808-1827 | a header is found if and only if an empty line (10 10, or 10 13 10) occurs and no byte before it is 127 or below 32 but 10 and 13; it ends with the first such line |
| RequestFraming.MalformedIff | src/mongoose/mongoose.c:1808-1827 | the answer is -1 if and only if such a byte, not the last of the buffer, comes before any empty line |
| RequestFraming.OrdinaryRequest | src/mongoose/mongoose.c:1808-1827 | a request for `/` is found, with its length |
| RequestFraming.PrefixDecides | src/mongoose/mongoose.c:1808-1827 | a prefix shows the header of the whole exactly when it holds it |
| RequestFraming.GetRequestLen | src/mongoose/mongoose.c:1808-1827 | the loop over the buffer computes that |
| Connection.FlowingDraws | src/mongoose/mongoose.c:1492-1508 | as many reads as bytes to come, each of which delivers something, bring all of them |
| Connection.MgConnection.Pull | src/mongoose/mongoose.c:1492-1508 | one read does what the next arrival says, and the rest of the arrivals does the rest |
| Connection.MgConnection.ReadRequest | src/mongoose/mongoose.c:2897-2910 | a header is found if and only if what is buffered and what the reads to come bring for the rest of the buffer reach its end, however they split the stream; none is read where it was buffered; -1 with room and enough reads only for a malformed header |
| Connection.MgConnection.GetReq | src/mongoose/mongoose.c:4893-4926 | a request is accepted if and only if its header is reached so and the parser takes it; then with the header length of the stream and its content length; the second scan, over the whole buffer, agrees with the first |
| Connection.MgConnection.MgRead | src/mongoose/mongoose.c:1511-1554 | returns the next bytes of the body: exactly as many as wanted and left of the content length, as far as the buffer and the reads to come bring them, and -1 exactly when one of those failed; all that are still to come when the reads bring everything |
| Connection.MgConnection.ReadBody | src/mongoose/mongoose.c:1511-1554 | any number of reads return consecutive bytes, and when the reads bring everything, altogether what was asked for up to the content length and the end of the stream |
| Connection.MgConnection.Discard | src/mongoose/mongoose.c:4984-4995 | where exactly the next request is looked for |
| Connection.InStepIffDrained | src/mongoose/mongoose.c:4984-4995 | that is the end of the message if and only if the body was buffered or read completely, and a place inside the body otherwise |
| Connection.UnreadBody | src/mongoose/mongoose.c:4984-4995 | when a handler reads nothing of a body that came after its header, the next request is looked for in it |
| Connection.MgConnection.ProcessNewConnection | src/mongoose/mongoose.c:4946-4998 | every request is framed as the whole stream frames it and starts where the one before left off; when the reads bring everything, the loop ends before the last handler only without a length or where the stream has no request, and every handler gets all it asks for |
| Expressions.ReplaceVariablesInArray | src/MulleScionObjectModel+MacroExpansion.m:122-153 | nil exactly when no element changes; else every element replaced or as it was |
| Expressions.ReplaceVariablesInDictionary | src/MulleScionObjectModel+MacroExpansion.m:74-119 | the same for keys and values |
| Expressions.ExactIsPlain | src/MulleScionObjectModel+MacroExpansion.m:44-470 | where nothing deviates: the result is the plain recursive substitution, with lvalues and method targets left alone, and nothing is rebuilt without an occurrence |
| Expressions.NilIffNoOccurrence | src/MulleScionObjectModel+MacroExpansion.m:44-470 | there nil is answered exactly when the identifier does not occur, and for an argument that is the identifier itself only where it would not show |
| Expressions.SameIffSameValues | src/MulleScionObjectModel+MacroExpansion.m:44-470 | two substitutions give the same if and only if they agree at every place where a variable can be replaced |
| Expressions.AgreeingSubst | src/MulleScionObjectModel+MacroExpansion.m:44-470 | substitution depends only on what occurs |
| Expressions.OccurrenceIsVisible | src/MulleScionObjectModel+MacroExpansion.m:44-470 | an argument that is not the identifier itself shows wherever that occurs |
| Expressions.DeviationShows | src/MulleScionObjectModel+MacroExpansion.m:277-366 | each deviation (comparison operator, lost left operand, parameter assignment) leads to a different expression |
| Expressions.ComparisonTurnsEqual | src/MulleScionObjectModel+MacroExpansion.m:277-304 | any other comparison becomes an equality when its operand is replaced |
| Expressions.PipeLosesLeft | src/MulleScionObjectModel+MacroExpansion.m:308-340 | a pipe loses its left side when only its right side is replaced |
| Expressions.RightSideTakes | src/MulleScionObjectModel+MacroExpansion.m:308-366 | the right side of a pipe takes a method, a pipe or a variable, that of a dot a dot besides |
| Expressions.PlainIffExact | src/MulleScionObjectModel+MacroExpansion.m:44-470 | for every argument, the code substitutes plainly if and only if nothing deviates where it would show |
| MacroBody.ExpandedBodyWithParameters | src/MulleScionObjectModel+MacroExpansion.m:528-596 | every element of the copied body is expanded on its own, or the first parameter without an argument is reported |
| MacroBody.ReplaceIsSubst | src/MulleScionObjectModel+MacroExpansion.m:405-494 | where nothing deviates: nil leaves what substitution gives, and exactly when the parameter does not occur unless it is its own argument; anything else is that substitution |
| MacroBody.ElementIsPlainIffExact | src/MulleScionObjectModel+MacroExpansion.m:405-494 | an element is substituted plainly if and only if its expression is and no filter loses flags |
| MacroBody.FilterLosesFlags | src/MulleScionObjectModel+MacroExpansion.m:474-490 | a filter with flags loses them when its expression is the parameter |
| MacroBody.ExpandsFirstHit | src/MulleScionObjectModel+MacroExpansion.m:570-592 | only the first parameter with something to rebuild is substituted, and never inside what was inserted |
| MacroBody.SimultaneousIffOthersDoNotShow | src/MulleScionObjectModel+MacroExpansion.m:570-592 | this is the simultaneous substitution of all parameters if and only if both agree at every place of the element |
| MacroBody.SimultaneousIffOneOccurs | src/MulleScionObjectModel+MacroExpansion.m:570-592 | where no argument is its parameter's own name: if and only if at most one of them occurs in the element |
| MacroBody.TwoParameters | src/MulleScionObjectModel+MacroExpansion.m:570-592 | of two parameters in one element the second stays |
| Archive.DecodesEncoded | src/MulleScionObjectModel+NSCoding.m:81-381 | decoding what was encoded gives the tree with numbers cut to their archived width, and takes up exactly its own tokens |
| Archive.StoredIffFaithful | src/MulleScionObjectModel+NSCoding.m:102-113 | an archive keeps a tree if and only if no line reaches 2^32, every code fits a byte, and nothing uncoded is set |
| Archive.CopyIsIdentityIffFaithful | src/MulleScionObjectModel+NSCoding.m:53-79 | a copy equals the original if and only if nothing is cut off |
| Archive.LongLine | src/MulleScionObjectModel+NSCoding.m:102-110 | line 2^32 comes back as line 0 |
| Archive.UncodedIsLost | src/MulleScionObjectModel+NSCoding.m:383-398 | what no class codes comes back as nil, in every object |
| Archive.LayoutsAre | src/MulleScionObjectModel+NSCoding.m:118-297 | which fields are archived of which expression class, and in which form |
| Archive.CommandLayoutsAre | src/MulleScionObjectModel+NSCoding.m:299-420 | the same for commands |
| Archive.ComparisonTokens | src/MulleScionObjectModel+NSCoding.m:251-275 | the archive of a comparison: class, line, next object, operands, and its code as one byte |
| ArchiveCoding.Archiver.EncodeWithCoder | src/MulleScionObjectModel+NSCoding.m:102-381 | each class encoding its superclass's part and then its own gives line, next object and all fields in order |
| ArchiveCoding.Unarchiver.InitWithCoder | src/MulleScionObjectModel+NSCoding.m:81-381 | each class decoding in the same order reads exactly that back |
| ArchiveCoding.OwnFieldsLast | src/MulleScionObjectModel+NSCoding.m:118-381 | what a class reads is what its superclass reads, followed by its own fields |
| ArchiveCoding.CopyOf | src/MulleScionObjectModel+NSCoding.m:53-79 | archiving and unarchiving always succeeds, and is the identity if and only if nothing is cut off |
| Uri.DecodesEncoded | src/mongoose/mongoose.c:1646-1669 | decoding gives back every byte string that was encoded, whether or not `+` stands for a space |
| Uri.EscapeDecodes | src/mongoose/mongoose.c:1653-1658 | a percent sign and two digits in either case are the byte they name |
| Uri.OtherDecodes | src/mongoose/mongoose.c:1659-1664 | in a form a plus sign is a blank; anything else, with a percent sign that no two digits follow, stands for itself |
| Uri.ByteEncodes | src/mongoose/mongoose.c:2507-2525 | letters, digits and `._-$,;~()` stay as they are, every other byte becomes a percent sign and two lower-case digits |
| Uri.FitsIsEncoded | src/mongoose/mongoose.c:2507-2525 | in a buffer large enough the whole encoding is left |
| Uri.PrefixIffNoEscapeIsCut | src/mongoose/mongoose.c:2507-2525 | for every length of the buffer: whatever it held, a prefix of the encoding is left if and only if its end cuts no escape |
| Uri.StaleByteStays | src/mongoose/mongoose.c:2513-2521 | where an escape is cut off, the byte that was in its place stays, in place of a percent sign |
| Uri.StaleByte | src/mongoose/mongoose.c:2513-2521 | a slash and room for one byte |
| Uri.CleanedIsClean | src/mongoose/mongoose.c:1874-1893 | in a cleaned path no separator is followed by a separator or by two dots |
| Uri.CleanedOnce | src/mongoose/mongoose.c:1874-1893 | cleaning changes nothing if and only if the path is clean, so twice is once |
| Uri.CleanedIsSubsequence | src/mongoose/mongoose.c:1874-1893 | cleaning only removes bytes |
| Uri.WhatStays | src/mongoose/mongoose.c:1874-1893 | where each byte that stays comes from: right behind the one before, or, behind a separator that stays, at the end of the whole run of separators and pairs of dots there; nothing else is dropped |
| Uri.LettersStay | src/mongoose/mongoose.c:1874-1893 | the bytes that are no slash, backslash or dot are the same sequence before and after |
| Uri.FrontStays | src/mongoose/mongoose.c:1874-1893 | everything before the first separator stays |
| Uri.ParentStaysInFront | src/mongoose/mongoose.c:1874-1893 | two dots begin a component of a cleaned path if and only if the path itself began with two dots, and then they begin it still |
| UriBuffers.UrlEncode | src/mongoose/mongoose.c:2507-2525 | the buffer holds what `EncodedOver` says of what it held, terminated, and is untouched behind that |
| UriBuffers.UrlDecode | src/mongoose/mongoose.c:1646-1669 | the buffer holds the decoded bytes that fit, terminated, also when it is the source itself |
| UriBuffers.RoomForAll | src/mongoose/mongoose.c:1646-1669 | all of the source is used if and only if all decoded bytes fit; otherwise a prefix of them is decoded |
| UriBuffers.TraceDecodes | src/mongoose/mongoose.c:1653-1664 | decoding byte by byte from any place on is decoding the rest |
| UriBuffers.RemoveDoubleDotsAndDoubleSlashes | src/mongoose/mongoose.c:1874-1893 | the loop leaves the cleaned path in place, terminated, and touches nothing behind the old one |
| BufferPool.Stack.Push | src/hoedown/stack.c:48-57 | one more buffer on top; the others keep their slots when the array grows |
| BufferPool.Stack.NewBuf | src/hoedown/document.c:135-152 | an empty buffer that was not live, parked or new; no other buffer of the pool changes |
| BlockScanner.StripQuote | src/hoedown/document.c:1588-1623 | prefixes are removed in place: what lies there then is the quote without them, and nothing before the quote or behind its end changes |
| BlockScanner.StripsQuoted | src/hoedown/document.c:1594-1619 | stripping gives back any lines that were quoted, and goes on with what follows |
| BlockScanner.QuoteAlone | src/hoedown/document.c:1605-1609 | a quote ends behind an empty line that a paragraph follows |
| BlockScanner.GapInQuote | src/hoedown/document.c:1605-1609 | it goes on behind an empty line that an empty or a quoted one follows, and ends with one at the end of the text |
| BlockScanner.LazyLine | src/hoedown/document.c:1605-1619 | a line without the mark that is not empty belongs to the quote as it is |
| BlockScanner.QuotePrefix | src/hoedown/document.c:1507-1523 | where a line is quoted, and how long the prefix is |
| BlockScanner.UnorderedPrefix | src/hoedown/document.c:1561-1579 | where an unordered item starts, and how long its prefix is |
| BlockScanner.OrderedPrefix | src/hoedown/document.c:1536-1558 | the same for an ordered item |
| BlockScanner.CodePrefix | src/hoedown/document.c:1526-1533 | indented code starts with four blanks |
| BlockScanner.UnderlineIff | src/hoedown/document.c:1472-1490 | a line underlines a header of level 1 or 2 if and only if it is made of `=` or `-`, then blanks |
| BlockScanner.NextLineIff | src/hoedown/document.c:1492-1504 | that is asked of the line behind the first newline |
| BlockScanner.EmptyIff | src/hoedown/document.c:1344-1356 | an empty line has blanks only; the answer is its length with the newline |
| BlockScanner.HruleIff | src/hoedown/document.c:1358-1386 | a rule is one of `*`, `-` and `_` at least three times, with nothing but blanks besides |
| BlockScanner.AtxheaderIff | src/hoedown/document.c:1451-1469 | a header starts with a number sign; where blanks are asked for, up to six of them and a blank |
| BlockScanner.HashesAre | src/hoedown/document.c:1964-1965 | its level is the number of these signs, at most six |
| BlockScanner.CodeLine | src/hoedown/document.c:1755-1775 | a text that starts as indented code has a first line that does |
| DocumentParser.HoedownDocument.NewSpanBuf | src/hoedown/document.c:135-152 | the buffer handed out is not among the live ones of either pool, which are all kept; the pools never hold more than `max_nesting` + 5 buffers |
| DocumentParser.HoedownDocument.ParseInline | src/hoedown/document.c:459-495 | terminates if its scanners do, and leaves both pools and every live buffer but its output as they were |
| DocumentParser.HoedownDocument.ParseEmph3 | src/hoedown/document.c:676-712 | the same, also where it hands over to the other two |
| DocumentParser.HoedownDocument.CharLink | src/hoedown/document.c:1067-1287 | the same on every way out, whatever was taken before |
| DocumentParser.HoedownDocument.LinkText | src/hoedown/document.c:1253-1266 | the link flag is not set afterwards unless it was before |
| DocumentParser.HoedownDocument.CharFootnote | src/hoedown/document.c:1097-1123 | a footnote is listed at most once |
| DocumentParser.HoedownDocument.ParseParagraph | src/hoedown/document.c:1633-1710 | keeps the pools, and gets at least one byte on wherever parse_block turns to it |
| DocumentParser.HoedownDocument.ParseBlockcode | src/hoedown/document.c:1755-1793 | the same for indented code |
| DocumentParser.HoedownDocument.ParseListitem | src/hoedown/document.c:1798-1932 | keeps the pools though it parses a text that lies in one of their buffers; it gets on exactly when the text starts with a list prefix |
| DocumentParser.HoedownDocument.ParseTable | src/hoedown/document.c:2343-2408 | keeps the pools, five buffers deep |
| DocumentParser.HoedownDocument.ParseOneBlock | src/hoedown/document.c:2423-2469 | whichever block parser is chosen for a text consumes at least one byte of it |
| DocumentParser.HoedownDocument.ParseBlock | src/hoedown/document.c:2411-2471 | terminates, keeps the pools and every live buffer but its output and its text |
| DocumentParser.HoedownDocument.RenderFootnotes | src/hoedown/document.c:2007-2030 | rendering the footnotes ends although footnotes can refer to further footnotes |
| DocumentParser.HoedownDocument.Render | src/hoedown/document.c:2803-2893 | for every text, renderer and set of extensions rendering ends, if the scanners do, and both pools are empty: the closing assertions hold |
| DocumentParser.HoedownDocument.RenderInline | src/hoedown/document.c:2895-2938 | the same for inline rendering |
| DocumentParser.DistinctBelow | src/hoedown/document.c:2007-2030 | there are at most as many footnotes used as defined |
| LinkRefs.RoundIsHorner | src/hoedown/document.c:186-187 | one round of shifts, in 32-bit arithmetic, is one step of the polynomial at 65599 |
| LinkRefs.HashLinkRef | src/hoedown/document.c:180-190 | the hash is that polynomial over the lower-cased name, modulo 2^32 |
| LinkRefs.TwoLetters | src/hoedown/document.c:180-190 | the hash of two letters |
| LinkRefs.FirstInBucket | src/hoedown/document.c:206-225 | looking in one bucket is looking through all entries |
| LinkRefs.FirstIsNewest | src/hoedown/document.c:206-225 | what is found is the newest entry with that hash, and nothing exactly when there is none |
| LinkRefs.FindIgnoresCase | src/hoedown/document.c:180-225 | names of which every letter is the same, or an upper-case letter and the one 32 further on, find the same entry |
| LinkRefs.RefTable.AddLinkRef | src/hoedown/document.c:192-204 | the entry is the newest of all |
| LinkRefs.RefTable.FindLinkRef | src/hoedown/document.c:206-225 | after any additions, the most recently added entry with the hash of the name |
| Toc.TocRenderer.Header | src/hoedown/html.c:559-592 | the tags written to the buffer passed, and the new level, offset and count |
| Toc.TocRenderer.Finalize | src/hoedown/html.c:601-617 | closes the open levels and restarts the count |
| Toc.TocRenderer.Render | src/hoedown/html.c:559-617 | a whole document in one run of the renderer, where some of the buffers it writes to are dropped |
| Toc.MovesNest | src/hoedown/html.c:567-582 | in a document any number of lists deep, a move between levels is proper nesting if and only if it ends inside a list |
| Toc.RunNests | src/hoedown/html.c:559-592 | after any headers the document is open to the depth that the kept moves add up to, or was broken, exactly as every kept entry stands in a list or not |
| Toc.BalancedIffKeptMovesAddUp | src/hoedown/html.c:559-617 | from any state of the renderer: the markup is nested and closed if and only if every kept entry stands in a list and the kept moves add up to the level to be closed |
| Toc.BalancedIffFirstOutranksAll | src/hoedown/html.c:559-617 | where no entry is dropped: if and only if no listed header is above the first listed one |
| Toc.EntryDepth | src/hoedown/html.c:564-588 | there every entry stands in exactly as many lists as its level minus the offset of the first |
| Toc.BelowNestingLevel | src/hoedown/html.c:564 | a header below the nesting level leaves nothing, neither in the document nor in the state |
| Toc.OneEntry | src/hoedown/html.c:564-590 | any other leaves one entry, with the next number, unless it is dropped |
| Toc.QuotedHeader | src/hoedown/html.c:622-663 | a quoted first-level header alone leaves an unopened list closed |
| Toc.QuotedHeaderBetween | src/hoedown/html.c:622-663 | a deeper quoted header between two others breaks the nesting |
| Toc.QuotedSibling | src/hoedown/html.c:622-663 | a quoted header at the current level changes nothing, after any headers |
| Toc.HigherHeader | src/hoedown/html.c:572-578 | a second-level header before a first-level one breaks the nesting |
| Toc.AnchorsCount | src/hoedown/html.c:584-588 | the entries are the kept ones of the listed headers, each with its position among all listed ones |
| Toc.HeaderIdsCount | src/hoedown/html.c:213-229 | the main renderer numbers the headers it lists upwards from where its counter stands |
| Toc.AnchorsAgreeIff | src/hoedown/html.c:213-229 | for any two sequences of headers: every entry links to its header if and only if that has the same position in both, but for the main counter's head start |
| Toc.AnchorsAgreeIffFreshRenderer | src/hoedown/html.c:213-229 | where both list the same headers: if and only if there is no head start, or no entry |
| Toc.SecondDocument | src/hoedown/html.c:213-229 | in a second document of the same main renderer the first entry links to no header |
| Toc.HeaderInHtmlBlock | src/hoedown/document.c:2429-2431 | a header in an HTML block, which only the table of contents takes for one, shifts the links behind it |

## Left out

- The template parser and printer: chains and block tables are given. Block tables hold single
  blocks under their own identifiers; nothing is said of other tables.
- `terminateToElse:`, `elseClass` and `hierarchicalExchange:`: no property of the core needs them.
- A macro definition inside a macro body, whose own substitution (src/MulleScionObjectModel+MacroExpansion.m:499-520) rebuilds its head only.
- Retain, release and autorelease pools; the detached block is only known to be a chain.
- `parametersWithArguments:` and `getDefaultArguments:`, which make the parameter dictionary; its
  enumeration order is a parameter of the model.
- ExpandBlocksUsingTable: prints no trace, and an exception leaves the chain as far as it was spliced, as in the source.
- Expressions.PlainIffExact: asks that the argument is no parameter assignment; a named argument of a call is taken apart before.
- Expressions.DeviationShows: takes a pipe or dot that loses its left side as it is built where assertions are off; where they are on, the constructor stops there (src/MulleScionObjectModel.m:599).
- Expressions.ReplaceVariablesInDictionary: keeps entries apart whose keys become equal by replacement; the source's dictionary keeps one of them.
- MacroBody.ExpandedBodyWithParameters: does not model file and line of the template it returns.
- Archive.DecodesEncoded: objects are trees, so an object shared by two owners is archived twice, and the archiver's bytes are tokens; dictionaries are coded as keys and then values.
- The MD5 and SHA-1 compression functions and host byte order: the transform is a parameter on blocks of 64 bytes.
- Digest.DigestContext.Md5Final: does not say that the context is wiped afterwards.
- Digest.DigestContext.Sha1Final: as little.
- Digest.DigestContext.Sha1Update: asks for what its guard sees correctly, as Sha1GuardIsExact shows it must.
- GlobMatch.MatchPrefix: string lengths are unbounded, so an `int` that overflows is not modelled; the pattern must not be followed by a `*`, because a star at its end reads that byte.
- Sockets, SSL, pthread and the request parser in mongoose: a client is the byte sequence it sends, a read takes any part of it or fails, parsing yields a content length.
- Connection.MgConnection.ProcessNewConnection: ends the log at a request that is not accepted; there `content_len` keeps its last value, and the source may go on.
- Which requests are valid, and when a connection is to be kept: a handler more or less in the list, and what the parser takes.
- Liveness of the worker pool: which steps are enabled is proved, not that a sleeping thread is woken; the broadcast at shutdown is made without the lock. Spurious wake-ups change nothing and are not steps.
- Uri: converting a path to a file name, and where the path comes from.
- DocumentParser.HoedownDocument.ParseInline: what the inline and HTML scanners find in a text, and what is written to the output, is left open; that their own loops end is taken for granted.
- BlockExpansion.MulleScionObject.Copy: keeps all of an object but its line number; a macro in the chain would lose what no class codes.
- DocumentParser.HoedownDocument.Render: starts with what the first pass over the text came to, as RenderInline does.
- DocumentParser.HoedownDocument.RenderInline: leaves the text to be rendered open.
- The first pass of hoedown (footnote and reference definitions, tabs), autolinks, smartypants, the HTML renderer's strings and the growth of a buffer's own memory.
- LinkRefs.RefTable.FindLinkRef: finds by the hash alone, as the source does; two names with one hash are one name to it.
- Toc: links, escaping and the text of entries; which headers the parser finds for either renderer is given.
