# Models of HAProxy's core, verified

This project models the parts of HAProxy whose correctness is hardest to see from the code, and proves what they
promise. Each module follows one piece of the C code: operations that change things in place are methods on classes and
arrays, proved against functions on plain values, and the laws are lemmas about these functions, about whole runs, or
about several operations together.

`dafny verify dfyconfig.toml` checks all of it.

| module | what it models |
|---|---|
| `RingSpec`, `RingMove`, `RingBuffer`, `Varint` | the wrapping byte buffer, edited in place by overlapping copies, and its variable-length integers |
| `CacheWriter`, `CacheReader` | storing a response in a row of fixed-size blocks and sending it back piecemeal |
| `CacheLru` | the two LRU lists of the cache, stripping and evicting entries |
| `CacheIndex`, `VaryKey` | the 32-bit index over full hashes, the variants of a response, their secondary keys |
| `ServerSlots` | streams and threads that compete for the connection slots of servers |
| `AclEval`, `AclGraph` | evaluating conditions over ACLs; keeping the references between ACLs free of loops |
| `ArgList`, `CfgCond` | the conditions of configuration files: lexer, parser, evaluator |
| `Acme`, `AcmeTask` | the ACME client as a state machine, and the task that runs it in place |
| `Base64`, `ShortNumber`, `Decimal` | the codecs and the division-free decimal printer |
| `Common` | what the others share |

Four promises do not hold for every input; for each the exact condition is proved, with a counterexample.

- The bound that the comment above `b_move()` puts on the shift is not enough: the bytes and the shift must fit in the
  area together, or neither range may wrap (`RingMove.MovesExactlyWhen`, `RingMove.TwoBytesLost`).
- The number of streams served is not always the number of slots held: a redirectable request assigned to a server with a
  redirection attaches a slot without counting it. In every run a counter misses exactly these requests, so that it is
  exact if and only if the server redirects none (`ServerSlots.SlotsCounted`, `ServerSlots.ExactUnlessRedirecting`,
  `ServerSlots.RedirectionAdmitsTwo`).
- The ACME client finalizes an order on a status that is only the beginning of "valid", even the empty one, and on
  "valid" followed by a zero byte and anything else (`Acme.FinalizesOnlyValidExactly`, `Acme.TakenForValidFinalizes`,
  `Acme.MistakenStatuses`).
- A decimal number is padded to the asked number of pairs only up to five of them; the callers in the same file ask for
  three at most (`Decimal.WidthReached`).

Where a comment and the code disagree, the code is followed: besides `b_move()`, the comment about text left untouched
when parsing a condition fails is not modelled.

## Model

| member | source | states |
|---|---|---|
| `RingMove.MovesExactlyWhen` | src/buf.c:418-468 | for all arguments within the documented bounds, the loops move every content as asked, despite overlap and wrapping of both ranges, if and only if the bytes and the shift fit in the area together or neither range wraps |
| `RingMove.TwoBytesLost` | src/buf.c:430-447 | an area of two bytes moved by one, within these bounds, ends up with the same byte twice |
| `RingMove.MovableMoves` | src/buf.c:418-468 | under that condition the destination range holds exactly what the source range held, and nothing else changes |
| `RingMove.RightLoopFails` | src/buf.c:430-447 | otherwise some content goes wrong when moved to the left |
| `RingMove.LeftLoopFails` | src/buf.c:448-467 | or to the right, where the loop may also leave the area |
| `RingBuffer.Buffer.Move` | src/buf.c:418-468 | in place, the bytes are moved as the loops do for any arguments that stay in the area, and as asked under the exact condition |
| `RingBuffer.Buffer.MoveRightward` | src/buf.c:430-447 | the left-to-right loop ends, also when its first chunk is empty, and leaves what its specification says |
| `RingBuffer.Buffer.MoveLeftward` | src/buf.c:448-467 | so does the right-to-left loop, whenever it stays in the area |
| `RingSpec.MoveChunkRightward` | src/buf.c:433-446 | one chunk more of an overlapping, wrapping move reads only bytes not overwritten yet |
| `RingSpec.MoveChunkLeftward` | src/buf.c:451-466 | the same from the other end |
| `RingBuffer.Buffer.ReplaceBlock` | src/buf.c:486-556 | for any ring, wrapped or full, the content c becomes c[..i] + blk + c[j..], and the change of length is returned |
| `RingSpec.GrowContent` | src/buf.c:506-536 | moving what follows and then writing the longer block gives that content |
| `RingSpec.ShrinkContent` | src/buf.c:528-553 | writing the shorter block and then moving what follows gives it too |
| `RingBuffer.Buffer.InsertBlock` | src/buf.c:564-586 | inserts the block at an offset of the content, or nothing when it is empty or does not fit |
| `RingBuffer.Buffer.Realign` | src/buf.c:210-241 | the content is unchanged and the head is where the output bytes end the area |
| `RingBuffer.Buffer.RealignAt` | src/buf.c:249-274 | the content is unchanged and starts at the offset, which must be inside the area for the ring to stay valid |
| `RingBuffer.Buffer.PutBlock` | src/buf.c:314-328 | appends a block that fits to the content, in one or two parts |
| `RingBuffer.Buffer.Transfer` | src/buf.c:337-373 | moves the first min(count, data) bytes of one content to the end of the other, by copying or by swapping the areas |
| `RingBuffer.Buffer.Delete` | include/haproxy/buf.h:410-417 | drops the first bytes of the content |
| `RingBuffer.Buffer.PutVarint` | src/buf.c:631-668 | appends the encoding if it fits and leaves the content alone if not, and returns its length or zero |
| `RingBuffer.Buffer.PutVarintUnchecked` | src/buf.c:593-623 | appends the same encoding when there is room for it |
| `RingBuffer.Buffer.PeekVarint` | include/haproxy/buf.h:503-537 | reads the integer encoded at an offset, at any wrap position, or nothing if its last byte is not there |
| `RingBuffer.Buffer.GetVarint` | src/buf.c:674-681 | takes that integer out of the content |
| `Varint.RoundTrip` | src/buf.c:593-668 | decoding inverts encoding, whatever follows |
| `Varint.Canonical` | src/buf.c:593-668 | every encoding that can be decoded is the one of its value: encoding is a bijection |
| `Varint.PrefixFree` | src/buf.c:593-668 | no encoding is the beginning of another one |
| `Varint.AtMostTenBytes` | src/buf.c:593-668 | 64-bit values take ten bytes at most |
| `CacheReader.Serve` | src/cache.c:2297-2307 | over any mix of turns of both kinds, each with whatever room there is, what was delivered and what is owed make the stored message; when the row is exhausted all was delivered, in order, and nothing is left to forward |
| `CacheReader.Reader.DumpMessage` | src/cache.c:2029-2079 | one turn of the message path keeps that and advances the position by what it returns; if that is all the row held, nothing is owed or left to forward |
| `CacheReader.Reader.DumpRecord` | src/cache.c:1933-1975 | a record which is not data goes out whole or not at all |
| `CacheReader.Reader.DumpData` | src/cache.c:1977-2027 | a data record may go out in parts, the rest of it being remembered |
| `CacheReader.Reader.SendData` | src/cache.c:2081-2126 | what was not taken of a data record is exactly what is remembered, and the counters follow |
| `CacheReader.Reader.CopyOut` | src/cache.c:2004-2019 | the copy loop delivers a prefix of the data wherever the blocks are cut, and the position advances by its length |
| `CacheReader.Reader.ReadInfo` | src/cache.c:2050-2058 | the 4-byte header is read even when two blocks share it |
| `CacheReader.Reader.ReadPayload` | src/cache.c:1958-1972 | a payload spread over any number of blocks is put together |
| `CacheReader.Reader.ForwardData` | src/cache.c:2128-2179 | so does the fast-forward path, delivering at most what was asked |
| `CacheReader.InfoRoundTrip` | src/cache.c:2050-2061 | the four bytes of a header give back the 32-bit value |
| `CacheWriter.Store.StorePayload` | src/cache.c:854-940 | a call stores exactly the records of the part of the message it was given, cutting data only, and returns their size; on any failure it gives up and lets everything pass |
| `CacheWriter.Store.Add` | src/cache.c:893-905 | a record is appended with its header and its data is counted, or caching is given up |
| `CacheWriter.FindOffset` | src/htx.c:493-511 | the block and the offset in it where a position of the message is |
| `CacheWriter.Row.Append` | src/shctx.c:242-289 | the data goes right after the content of the row, block by block, or the missing room is returned and nothing is written |
| `CacheWriter.Row.Strip` | src/cache.c:1359-1397 | exactly when this frees a block, the content becomes the entry followed by the hints, in as few blocks as hold it; nothing changes otherwise |
| `CacheWriter.Row.Overwrite` | src/cache.c:1370-1391 | the copy loop puts the hints at any offset, across any number of blocks, and keeps what is before |
| `CacheWriter.Row.Get` | src/shctx.c:298-333 | reads the content from an offset, as far as asked or as it goes, and returns zero; past the content it reads nothing and returns the length asked for |
| `CacheWriter.StripAndRead` | src/cache.c:1359-1397 | after stripping and truncating, reading the row past the entry gives the hints back |
| `CacheWriter.PickedAndRest` | src/cache.c:882-930 | for every message and length, what a call stores and what is past it make the message, and no block other than data is split |
| `CacheWriter.FromAgain` | src/cache.c:879-881 | going on from where a call stopped is going on in the message |
| `CacheWriter.StoreAll` | src/cache.c:854-940 | after any number of calls, what is stored and what is to come make the message, unless caching was given up |
| `CacheWriter.OpenReader` | src/cache.c:2242-2257 | what was stored can be read: all of its records are owed to the client |
| `CacheWriter.StoreAndServe` | src/cache.c:854-940 | storing in any number of calls and then sending in any number of turns delivers the message |
| `CacheLru.Cache.Reattach` | src/cache.c:625-643 | the entry moves to the tail of the list of its kind if it is listed or complete; the lists and the block counter stay right |
| `CacheLru.Cache.Complete` | src/cache.c:943-973 | a complete entry joins the full list |
| `CacheLru.Cache.CompleteHints` | src/cache.c:1880-1888 | an entry of hints only joins the hints list, whose counter grows by its blocks |
| `CacheLru.Cache.Abandon` | src/cache.c:1897-1907 | a row given up by its writer has no data, no index and no list, and the lists stay right |
| `CacheLru.Cache.Evict` | src/cache.c:1198-1218 | all blocks of the row are freed, it leaves its list and the counter |
| `CacheLru.Cache.Strip` | src/cache.c:1359-1397 | the entry is stripped exactly when this frees a block, and moves to the hints list with its remaining blocks counted |
| `CacheLru.Cache.MakeRoom` | src/cache.c:1407-1455 | picks the victim by age, use, cap and hints; success frees at least one block, and every row stays on exactly the list of its kind with the counter exact |
| `CacheLru.Cache.MakeAllRoom` | src/cache.c:1407-1455 | calling it until it fails ends, whatever hints the entries have at each call |
| `CacheLru.Cache.Refresh` | src/cache.c:2732-2734 | a stripped entry whose hints were used becomes the newest one |
| `CacheLru.OldestIdle` | src/cache.c:1413-1430 | the first entry of a list without users, all those before it being in use |
| `CacheIndex.Tree.Insert` | src/cache.c:492-563 | succeeds exactly when the list is empty, or has that full hash, the entry has a signature and the list is not full, counting only entries that have not expired once it was cleared; all entries that share 32 bits keep one full hash, only the first may lack a signature, and only expired ones may disappear, the others keeping their order |
| `CacheIndex.Tree.Get` | src/cache.c:272-292 | without deletion, finds an entry exactly when some indexed entry has that full hash |
| `CacheIndex.Tree.GetFresh` | src/cache.c:272-292 | with deletion, an expired entry is released instead |
| `CacheIndex.Tree.GetSecondary` | src/cache.c:396-433 | the first suitable variant, if it has the wanted hash and has not expired; entries that have not expired stay |
| `CacheIndex.Tree.Release` | src/cache.c:309-331 | dropping the last reference removes the entry, and the lists stay right |
| `CacheIndex.Chosen` | src/cache.c:362-433 | the variant given has not expired, has the wanted hash and the same referer and origin, and encodings all accepted and known |
| `CacheIndex.ClearExpired` | src/cache.c:451-474 | releases exactly the expired entries and counts the others |
| `CacheIndex.ClearedKeeps` | src/cache.c:451-474 | clearing loses only expired entries and keeps the others in order |
| `CacheIndex.ThinnedMeaning` | src/cache.c:451-474 | so every entry that has not expired is there as often as before, and nothing is new |
| `CacheIndex.InsertIntoFull` | src/cache.c:529-562 | a list taken for full accepts the new entry exactly when it was not cleared in the same second and has room without its expired entries, and is otherwise as before but for these |
| `CacheIndex.DeletedFine` | src/cache.c:573-605 | a list from which any entry was deleted is still right |
| `VaryKey.ReducedIsBuilt` | src/cache.c:3523-3605 | whenever the full key can be built, cutting it down to a signature gives the key built for that signature |
| `VaryKey.Build` | src/cache.c:3544-3577 | the key is made of one part per header, zeros where it is left out or absent; it fails exactly when a header of the signature cannot be normalized |
| `VaryKey.Reduce` | src/cache.c:3584-3605 | in place, exactly the parts outside the signature become zero |
| `VaryKey.FullFails` | src/cache.c:3523-3528 | the full key can be built exactly when every header can be normalized |
| `VaryKey.SupportedHeaders` | src/cache.c:173-177 | with the three supported headers the key has 20 bytes, in their order |
| `ServerSlots.SlotsCounted` | src/backend.c:1028-1175 | in every run, whatever the interleaving, a counter is the number of slots held or changing hands less the requests redirected from its server, so they agree exactly when there was none; the counter is within the limit, and the slots exceed it by these requests at most |
| `ServerSlots.ExactUnlessRedirecting` | src/backend.c:1036-1041 | a server's counter is exact in every run if and only if the server redirects no request |
| `ServerSlots.WithinUnlessRedirecting` | src/backend.c:1036-1071 | with more streams than its limit, a server's limit holds in every run if and only if the server redirects no request |
| `ServerSlots.RunMisses` | src/backend.c:1028-1175 | from any sane state, a run makes a counter miss exactly the redirected requests more |
| `ServerSlots.StepMisses` | src/backend.c:1028-1175 | so does each atomic step of any thread, which also keeps the state sane and the counter within its limit |
| `ServerSlots.RedirectionAdmitsTwo` | src/backend.c:1036-1097 | a run in which a redirected request ends and a server limited to one stream is then given two |
| `ServerSlots.TwoSlotsAtMost` | src/backend.c:1099-1175 | in every run a stream has at most two slots, and two only while it changes servers or after it was dequeued while it took a ready server |
| `ServerSlots.RaceLoserReturnsSlot` | src/backend.c:1117-1171 | in every run, whatever other threads do meanwhile, the next two things such a stream does are to see that it was dequeued and to return the slot, after which it has only the one it was given, or none until the thread that dequeued it attaches it |
| `AclEval.ExecCond` | src/acl.c:1044-1142 | the nested loops compute the first-doubt evaluation of the condition |
| `AclEval.ExecAcl` | src/acl.c:1083-1120 | one ACL passes if one of its expressions does, over all its values |
| `AclEval.DoubtMatchesKleene` | src/acl.c:1044-1142 | stopping at the first doubt passes exactly when three-valued logic does, and fails only when it does |
| `AclEval.AnswerMeaning` | src/acl.c:1044-1142 | the same of the returned codes; with final data none is undecided |
| `AclEval.FinalIsDecided` | src/acl.c:1088-1119 | with final data the answer is the one of the plain logic |
| `AclEval.DefiniteAnswerStands` | src/acl.c:1044-1142 | a definite answer survives every later resolution of what was missing |
| `AclEval.Encoded` | src/acl.c:1095-1135 | the bit operations on result codes are the connectives |
| `AclGraph.Configuration.ParseAcl` | src/acl.c:655-734 | over every sequence of calls no ACL ever leads to itself; the expression joins the first ACL of that name or makes a new one; a loop is reported only if there would be one |
| `AclGraph.Configuration.ParseExpr` | src/acl.c:1347-1390 | the names given to acl() are resolved, predefined ACLs being added on use, or the missing one is named |
| `AclGraph.Configuration.FindByName` | src/acl.c:68-76 | the first ACL of that name, if any |
| `AclGraph.WalkKeepsAcyclic` | src/acl.c:620-643 | an expression whose walk ends with some budget left closes no loop |
| `AclGraph.WalkReportsCycle` | src/acl.c:620-643 | one whose walk reports a loop would close one |
| `AclGraph.WalkExcludes` | src/acl.c:620-643 | nothing that a finished walk went through leads to the target |
| `AclGraph.WalkFinds` | src/acl.c:620-643 | a walk that reports a loop went along a path to the target |
| `AclGraph.NewAclKeepsAcyclic` | src/acl.c:687-725 | a new ACL that refers to known ones closes no loop |
| `AclGraph.NestingBounded` | src/acl.c:1334-1345 | evaluation never nests deeper than the number of ACLs |
| `ArgList.ArgsRoundTrip` | src/arg.c:111-395 | quoted strings joined by commas in parentheses are read back, up to just after the closing parenthesis |
| `ArgList.ReadArgList` | src/arg.c:111-395 | the loop over arguments computes the specified result, errors included |
| `ArgList.ReadArg` | src/arg.c:160-221 | the loop over characters handles quotes and escapes as specified |
| `CfgCond.ExprRoundTrip` | src/cfgcond.c:84-522 | parsing a printed condition gives it back and consumes all the text if and only if its nesting is within the depth |
| `CfgCond.ExprBack` | src/cfgcond.c:462-522 | the same of an expression followed by something else |
| `CfgCond.ConjBack` | src/cfgcond.c:389-455 | the same of a conjunction |
| `CfgCond.TermBack` | src/cfgcond.c:84-181 | the same of a term with its negations, parentheses and arguments |
| `CfgCond.ExprTooDeep` | src/cfgcond.c:462-522 | too deep a condition is refused |
| `CfgCond.RunExpr` | src/cfgcond.c:546-554 | the loop evaluates from left to right, stopping at the first true operand or error |
| `CfgCond.RunConj` | src/cfgcond.c:529-539 | the loop stops at the first false operand or error |
| `CfgCond.RunTerm` | src/cfgcond.c:215-348 | a term is negated unless it is an error |
| `CfgCond.ExprSound` | src/cfgcond.c:529-554 | without errors the value is that of the logical formula, "and" binding tighter than "or" |
| `CfgCond.PrintedConditionEvaluates` | src/cfgcond.c:561-599 | evaluating the text of a condition evaluates the condition |
| `Acme.FinalizeOnlyWhenProven` | src/acme.c:2702-3243 | in every run, when the order is about to be finalized every authorization was reported with a status that the client takes for "valid" |
| `Acme.FinalizesOnlyValidExactly` | src/acme.c:2076-2088 | every authorization is then really valid (sections 7.1.6 and 7.4 of RFC 8555) if and only if the server uses no status that is "valid" cut short or followed by a zero byte |
| `Acme.TakenForValidFinalizes` | src/acme.c:2076-2088 | for each status that the client takes for "valid", a run that finalizes on it |
| `Acme.TakenForValid` | src/acme.c:2076-2088 | these statuses are "valid" in any case, cut short or not, alone or followed by a zero byte |
| `Acme.MistakenStatuses` | src/acme.c:2076-2088 | a server that uses the empty status, or "valid" followed by a zero byte and an x, gets orders finalized whose authorizations are not all valid |
| `Acme.RunKeepsInv` | src/acme.c:2702-3243 | the invariant behind it holds all along every run, across retries, skips and waits |
| `Acme.ProcessProgress` | src/acme.c:2702-3243 | handling an answer ends the run, advances, or spends a retry; retries come back only with an advance |
| `Acme.AfterPotential` | src/acme.c:2702-3243 | in every run the exchanges made and those still possible never exceed those possible at first |
| `Acme.ExchangesBounded` | src/acme.c:2702-3243 | every run handles a bounded number of answers, despite the DNS retry cycle |
| `AcmeTask.Task.Live` | src/acme.c:2702-3243 | over any events, the task in place follows the state machine; when it is about to finalize every authorization was reported with a status it takes for "valid", and it handled a bounded number of answers |
| `AcmeTask.Task.Pass` | src/acme.c:2702-3243 | one pass through the switch, in place, is one step of the state machine |
| `AcmeTask.Task.AddAuths` | src/acme.c:2412-2443 | authorizations are put in front of the list, at most a thousand of them |
| `AcmeTask.Task.PassOrder` | src/acme.c:2772-2784 | the answer to a new order, with an empty list being an error |
| `AcmeTask.Task.PassInitialDns` | src/acme.c:2807-2883 | the first DNS check may replace all the other conditions |
| `AcmeTask.Task.PassDelay` | src/acme.c:2885-2979 | waits for the operator and the delays |
| `AcmeTask.Task.PassResolution` | src/acme.c:2980-3057 | DNS checks, until every authorization is ready |
| `AcmeTask.Task.Collect` | src/acme.c:3013-3046 | the loop marks exactly the authorizations found in the DNS and tells if all were |
| `AcmeTask.Task.Common` | src/acme.c:2887-2894 | the intersection tells which conditions every authorization meets |
| `Base64.RoundTrip` | src/base64.c:36-260 | in both variants decoding gives the encoded bytes back if the buffer has room for them, and finds it too short otherwise |
| `Base64.Encode` | src/base64.c:36-114 | the encoded text and a zero byte are written, or nothing when the buffer is too short |
| `Base64.EncodedLength` | src/base64.c:36-114 | the announced number of characters |
| `Base64.Decode` | src/base64.c:122-189 | the loop over characters computes the specified outcome, for any text |
| `Base64.UrlDecode` | src/base64.c:194-260 | so does the one of the URL variant |
| `Base64.EncodedWants` | src/base64.c:122-214 | a decoder asks for room for exactly the bytes that were encoded |
| `Base64.SymbolBack` | src/base64.c:26-29 | the reverse tables invert the alphabets |
| `ShortNumber.RoundTrip` | src/base64.c:269-306 | reading five characters gives back the low 30 bits |
| `ShortNumber.S30ToB64` | src/base64.c:269-278 | the loop writes six bits at a time, from the top |
| `ShortNumber.B64ToS30` | src/base64.c:285-306 | the loop reads them, refusing padding and anything else |
| `Decimal.Print` | src/calltrace.c:99-157 | the buffer holds the decimal text and a zero byte; no 64-bit operation overflows and no table index reaches 100 |
| `Decimal.PairExact` | src/calltrace.c:118-141 | despite the rounded constant each pair of digits is exact |
| `Decimal.PrintedMeaning` | src/calltrace.c:91-98 | the text reads back as the number, has the asked width up to ten digits, and no other leading zero |
| `Decimal.WidthReached` | src/calltrace.c:95-97 | the asked width is reached for all numbers if and only if it is at most five pairs |

## Left out

- RingBuffer.Buffer.Move: requires that the loop stays in the area, outside of which nothing is modelled; `RingMove.Outcome` says when it does.
- RingBuffer.Buffer.ReplaceBlock: returns the change of length unbounded, without the truncation to int.
- RingBuffer.Buffer.PeekVarint: sums without 64-bit wrap-around, which only texts that no encoder makes can reach.
- RingBuffer.Buffer.RealignAt: allows the offset to be the size itself, as the code does, and then says that the ring is no longer valid.
- CacheLru.Cache.MakeRoom: the size of the hints that an entry would keep is given; extracting them from Link headers is not modelled.
- CacheLru.Cache.Strip: counts blocks only; the bytes are the matter of `CacheWriter.Row.Strip`.
- CacheLru.Cache.MakeAllRoom: as `CacheLru.Cache.MakeRoom`, the sizes of the hints are given, here chosen anew at each call.
- CacheLru.Cache.Evict: does not model the flags cleared and the list of indexed entries waiting for cleanup.
- CacheIndex.InsertIntoFull: states which entries are kept, not the counters and times written in them.
- CfgCond.RunTerm: the truth of a predicate is given by an oracle.
- CacheIndex.Tree.Insert: takes the counter of the last entry as it finds it; refused insertions and some deletions do not keep it exact. The counter and time given to the new entry are not stated.
- CacheWriter.Store.StorePayload: the message is a sequence of blocks that does not slide away between calls, and reserving room may fail or succeed at any time.
- CacheReader.Serve: the sending of headers before the body is the same code with another mark and is not singled out.
- CacheReader.Reader.DumpMessage: does not say that it stops after a record of the marked type.
- Acme.ExchangesBounded: counts answers that were handled, not the time spent waiting nor requests sent again by a pass woken in flight; nothing is claimed about the wait states ending.
- AcmeTask.Task.Pass: the outcome of each response handler is given by its caller: a handler that reuses a leftover return value is covered by the choice of any outcome; a missing current authorization ends the run.
- Decimal.Print: the table of digits is given by its formula.
- Base64.Decode: which malformed texts are rejected is only what the loop says.
- ArgList.ReadArgList: string arguments of a zero-terminated text only; with an explicit length a backslash at the end is copied, which is not modelled.
- ArgList.ReadArg: reads a zero-terminated text only, for the same reason.
- Buffers: `b_getdelim()`, `b_getline()`, the buffer ring and the slot allocator `bl_get()`.
- Cache: hashing, locks, the list of available blocks, HTX internals, header processing, normalizing encodings.
- ServerSlots.SlotsCounted: leaves out the branch of `assign_server()` that takes a slot back (src/backend.c:865-876), since no caller enters it with a slot; a request may be redirectable or not at any time.
- CacheWriter.OpenReader: opens at the first record stored by the writer; in the code the records of the headers come first.
- Servers: load balancing, sockets, connection retries, the killing of idle connections; limits do not change during a run, and queues of thread groups are one queue.
- ACLs: patterns, samples and the flags telling where an ACL can be used; the results of nested acl() are kept out of the evaluation property.
- Conditions: predicates (environment, features, versions) are answered by an oracle, memory is never short.
- ACME: JSON, cryptography, HTTP, timers and logs; the server, the DNS and the operator do anything at any time.
