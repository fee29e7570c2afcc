# Verified models of the monitoring service's core

This project models, in Dafny 4.11, the parts of the repository that carry its algorithms and protocols, and proves
what they are there for. `dafny verify dfyconfig.toml` checks everything.

| component | files |
|---|---|
| JSON Patch, JSON Merge Patch and tree teardown of the bundled JSON library | `JsonValue`, `JsonPointer`, `JsonPointerLaws`, `JsonPatch`, `JsonPatchRoundTrip`, `JsonPatchLaws`, `JsonDiffLaws`, `JsonMergePatch`, `JsonMergeLaws`, `JsonDestroy`, `JsonDocument` |
| its insertion-ordered map | `OrderedMap` |
| thread pool and message bus | `ThreadPoolSpec`, `ThreadPoolProofs`, `ThreadPoolLaws`, `ThreadPool`, `MessageQueue` |
| Modbus RTU framing and checksum | `Bits`, `ModbusCrc`, `ModbusCrcLaws`, `Modbus` |
| serial poll and reassembly | `TaskSerial`, `ModbusLaws` |
| multipart/form-data of the bundled HTTP library: streaming parser and writer | `Multipart`, `MultipartParser`, `MultipartFind`, `MultipartHeaders`, `MultipartRoundTrip`, `MultipartCuttings`, `MultipartNames`, `MultipartExact`, `MultipartLaws` |
| its other codecs | `HttpText`, `QueryText`, `QueryExact`, `QueryLaws`, `Base64`, `HttpStream`, `Chunked`, `ChunkedLaws`, `PathParams`, `PathParamsLaws`, `PathParamsNul` |
| shared types and facts | `Common` |

Code that works step by step is modelled by methods and classes with the same loops and fields, each proved against a
specification function; the promises are lemmas about those functions. Threads are step systems with one step per
critical section, and the class beside such a system has one method per critical section, whose contract is that step.
The modules whose names end in `Laws` say what a specification function means without naming the functions it is made
of: by looking values up, by a grammar, by the standard's own definition, with the constants written out.

## Main results

- Applying `diff(s, t)` to `s` always succeeds and gives a document equal to `t` (`PatchOfDiff`), which is `t` itself if
  `t` has no numbers (`PatchOfDiffIsTarget`). `diff` is empty exactly for equal documents, and every operation in it names
  a place where the two differ; an array is never replaced by an array, nor an object by an object
  (`DiffNamesDifferences`). `remove` undoes `add` exactly when a new place was made (`RemoveUndoesAdd`). Every operation is
  settled by lookups before and after it (`TestDecides`, `AddDecides`, ...), and pointer texts and token lists correspond
  one to one (`SplitExact`).
- The in-place merge computes the function of RFC 7396 and is idempotent; its result is the only document that agrees with
  target and patch at every depth (`MergeExact`). The teardown pops every node once.
- In every reachable state of the pool there is no lost wakeup, calls start in the order in which they were added, the
  counters are what they count, and a queued call waits for a bounded number of worker steps. What a pass of the manager
  does rests on what it saw first, whatever happens in between (`PassDecides`). Subscribers are served in publish order,
  in the step system and by the bus object.
- The checksum register is the remainder by x^16 + x^15 + x^2 + 1, and nothing else is one (`RegisterIsRemainder`); its
  start inverts the first sixteen bits (`StartInverts`). It separates all bursts of up to sixteen bits and all odd errors,
  over messages of any length.
- Every interleaving of the two serial threads and every fragmentation delivers exactly the answer to the response.
- The multipart parser gives back what the writer wrote, in one call and in chunks, under conditions that are exact for
  all lists of items (`OneCallExact`, `StreamedExact`); bodies are cut exactly in front of their delimiter whatever the
  chunks are.
- Query strings, chunked bodies, Base64 and routes round-trip; routes match exactly the substituted patterns, and the
  reader of chunked bodies accepts exactly a grammar (`AcceptedExact`).
- The ordered map refines a mathematical map and iterates in insertion order after any run.

## Where the code does less than one might expect

Each of these is a lemma.

- `AlwaysAnswerable`, `AnsweredIffRecognised`: the poll loop can end after all steps of the two threads exactly if the
  bytes that come in are an answer together, and after some steps exactly if a prefix of them is one. So a byte too many
  behind a read response may make it wait for ever (`ByteTooMany`), and an exception response to function 0x04 always does
  (`ExceptionNeverAnswered`); `WaitMayEnd` says from which states it does. The checksum of a response is not looked at,
  because that part of the source is commented out.
- `RegrowsUpTo`, `ShrunkenPool`: slots of retired workers are never used again, so a pool can only grow up to its maximum
  less the workers that retired, and a pool for three may end up with one for ever.
- `FirstDelimiterDecides`, `FirstDelimiterWhole`: a first call of the multipart parser that ends inside the first
  delimiter loses it, and some way of going on then loses everything.
- `HeaderLimitDecides`, `OneCallLimitDecides`: a header line of the limit is taken whole and refused when a chunk ends
  behind its CR; items survive all cuttings exactly if every line is below the limit.
- `ReportedNamesPlain`, `FilenamePlain`: names and file names with ';', '=' or a line break cannot be transported at all.
- `EmptyListIsInvalid`: a multipart body without items is never valid.
- `StuckBehindDelimiter`: two bytes behind a delimiter that are neither a line end nor dashes make the multipart parser
  keep everything that follows without ever failing.
- `DeliveredIffKeptOpen`, `EmptyWriteCutsOff`: a provider's call that ends in an empty write ends a chunked body without
  its last chunk, which the reader reports; without such a call the body always arrives.
- `ExactIffComparable`: the comparison of a static fragment of a route stops behind a NUL, so routing is exact just for
  patterns without anything behind one; for any other pattern `Misroute` gives a path with any values.
- `QueryRoundTrip`: repeated entries of a multimap are lost in a query string.

## Assumptions of the models

- JSON: documents have no binary, discarded or NaN values; arrays are shorter than 2^64 - 1; equality is the library's
  comparison across number types, for any conversion from integers to floating point; `JSON_ASSERT(false)` is an error
  result; replace looks up its value before its location, and test, where C++ leaves the order open, the other way
  round.
- Characters stand for bytes in the HTTP codecs. `strtoul` is modelled with the maximum of `unsigned long` as a
  parameter. A stream fails only by ending; reads and writes may be short in any way.
- The Content-Disposition pattern is modelled as a case-insensitive prefix match with the same captures; of several
  entries of a disposition with the same key the first is taken.
- The multipart results assume a boundary without CR and callbacks that accept.
- The pool is modelled for 1 <= min <= max and before shutdown. Its constructor finishes before the manager acts.
- Checksum registers are natural numbers below 2^16 with bitwise xor.

## Model

| member | source | states |
|---|---|---|
| `JsonPatch.ComputeDiff` | src/inc_base/nlohmann/json.hpp:4989-5119 | The recursive compiler with its loops, inserts and appends produces the specification's edit script: nothing for equal documents, a replacement for different types, otherwise the element or member edits at extended paths. |
| `JsonPatch.ComputeArrayDiff` | src/inc_base/nlohmann/json.hpp:5013-5055 | Array branch: edits of the common elements first, then the removals, then the "/-" appends of the target's surplus. |
| `JsonPatch.InsertRemovals` | src/inc_base/nlohmann/json.hpp:5028-5040 | Inserting every removal at one fixed position yields the removals of the surplus indices from the highest down to the first. |
| `JsonPatch.ComputeObjectDiff` | src/inc_base/nlohmann/json.hpp:5057-5097 | Object branch: one pass over the source's keys in map order (recursive edits or removals), then one over the target's keys (additions). |
| `JsonPatchRoundTrip.PatchOfDiff` | src/inc_base/nlohmann/json.hpp:4989-5119 | For all documents, running diff(s, t) on s with the interpreter throws nothing and ends in a document equal to t, for nested paths, shrinking and growing arrays, and any conversion of integers to floating point in the comparison. |
| `JsonPatchLaws.PatchOfDiffIsTarget` | src/inc_base/nlohmann/json.hpp:4989-5119 | The same without the library's equality: for any source and any target without numbers the patched document is the target itself, and nothing is thrown. |
| `JsonPatchLaws.EqIsSame` | src/inc_base/nlohmann/json.hpp:3589-3607 | Against a document without numbers, the library's equality holds of that very document only. |
| `JsonPatchLaws.EqOfOneKind` | src/inc_base/nlohmann/json.hpp:3589-3615 | So it does among documents whose numbers are all integers, all unsigned or all floats. |
| `JsonPatchLaws.EqOfTwoKinds` | src/inc_base/nlohmann/json.hpp:3625-3648 | An unsigned below 2^63 equals an integer if they are the same number, one above if they differ by 2^64; an integer of either kind equals a float if its cast is that float; in either order. |
| `JsonPatchLaws.EqOfContainers` | src/inc_base/nlohmann/json.hpp:3593-3597 | Arrays are equal if they are as long and equal place by place, objects if they have the same keys and are equal key by key. |
| `JsonPatchLaws.EqOfNumber` | src/inc_base/nlohmann/json.hpp:3585-3654 | A number equals numbers only. |
| `JsonPatchRoundTrip.DiffRestores` | src/inc_base/nlohmann/json.hpp:4989-5119 | The same for a sub-document anywhere: only the place the path names changes, and it becomes equal to the target. |
| `JsonPatchRoundTrip.RemovalsTruncate` | src/inc_base/nlohmann/json.hpp:5028-5040 | The removal operations, run in the order in which they stand, cut an array at any place down to its first elements. |
| `JsonPatchRoundTrip.AppendsExtend` | src/inc_base/nlohmann/json.hpp:5042-5052 | The "/-" additions, run in order, append exactly the given values to the array at any place. |
| `JsonPatchRoundTrip.MembersRestore` | src/inc_base/nlohmann/json.hpp:5059-5079 | After the first pass over the handled keys every shared member equals the target's, no handled key the target lacks is left, and all other members are untouched. |
| `JsonPatchRoundTrip.AdditionsComplete` | src/inc_base/nlohmann/json.hpp:5081-5094 | The second pass adds exactly the handled target members that the source lacks and changes no other member. |
| `JsonPatchRoundTrip.DiffEmptyIffEqual` | src/inc_base/nlohmann/json.hpp:4989-5002 | diff gives no operation if and only if the documents are equal. |
| `JsonDiffLaws.DiffNamesDifferences` | src/inc_base/nlohmann/json.hpp:4989-5119 | Every operation of diff names a place where the documents differ: a replacement where both have different values that are not both arrays or both objects, a removal what only the source has, an addition a member that only the target has or an element behind the end of the source's array. |
| `JsonPatchRoundTrip.AtSetAt` | src/inc_base/nlohmann/detail/json_pointer.hpp:422-472 | Reading a location that was just assigned through its reference gives the assigned value. |
| `JsonPatchRoundTrip.ExecuteAdd` | src/inc_base/nlohmann/json.hpp:4745-4810 | An add operation as diff writes it does to the document what operation_add does to the parent value, at that place only. |
| `JsonPatchRoundTrip.ExecuteRemove` | src/inc_base/nlohmann/json.hpp:4813-4839 | The same for a remove operation. |
| `JsonPatchRoundTrip.AddedValueIsThere` | src/inc_base/nlohmann/json.hpp:4745-4810 | After a successful add, at the root or anywhere, the value is found at the very path it was added to if and only if the path does not end in "-" at an array. |
| `JsonPatchRoundTrip.RemoveUndoesAdd` | src/inc_base/nlohmann/json.hpp:4813-4839 | remove after add at the same path restores the document if and only if add inserted into an array at an index or created a member that was not there; at the root it never does. |
| `JsonPatchRoundTrip.MoveDelivers` | src/inc_base/nlohmann/json.hpp:4911-4926 | After a successful move to any path the target location holds what the source location held before, if and only if the path does not end in "-" at an array. |
| `JsonPatchLaws.TestDecides` | src/inc_base/nlohmann/json.hpp:4943-4964 | A patch of one test never changes the document. It throws nothing exactly if the value is at the place, for a value without numbers, and 501 if another value is there or the place is missing. |
| `JsonPatchLaws.TestStops` | src/inc_base/nlohmann/json.hpp:4943-4964 | Operations behind a failing test do not run; behind a successful one they run on the same document. |
| `JsonPatchLaws.AddDecides` | src/inc_base/nlohmann/json.hpp:4745-4810 | One add: what the parent is afterwards, for a member, an index, the end of an array, a null parent and any other, and which exception leaves the document alone. |
| `JsonPatchLaws.RemoveDecides` | src/inc_base/nlohmann/json.hpp:4813-4839 | One remove: what the parent is afterwards, for a member and an index, and which exception leaves the document alone; below a scalar nothing happens. |
| `JsonPatchLaws.RemoveRoot` | src/inc_base/nlohmann/json.hpp:4813-4839 | Removing the root throws 405. |
| `JsonPatchLaws.AddRoot` | src/inc_base/nlohmann/json.hpp:4745-4752 | Adding at the root replaces the document. |
| `JsonPatchLaws.ReplaceDecides` | src/inc_base/nlohmann/json.hpp:4904-4909 | One replace: the value is found at the place, or nothing was there and nothing changes. |
| `JsonPatchLaws.ReplaceIsRemoveAdd` | src/inc_base/nlohmann/json.hpp:4904-4909 | replace of a value below the root is remove followed by add, as in section 4.3 of RFC 6902. |
| `JsonPatchLaws.CopyIsAdd` | src/inc_base/nlohmann/json.hpp:4928-4941 | copy is add of the value at the source, which stays, or the exception of looking it up. |
| `JsonPatchLaws.MoveIsRemoveAdd` | src/inc_base/nlohmann/json.hpp:4911-4926 | move is remove of the source followed by add of the value that was there, or the exception of looking it up. |
| `JsonPatchLaws.Malformed` | src/inc_base/nlohmann/json.hpp:4841-4888 | A patch that is no array and an operation that is no object throw 104; a missing "op" or "path", or one that is no text, throws 105. |
| `JsonPatchLaws.Refused` | src/inc_base/nlohmann/json.hpp:4851-4973 | A path that is no pointer throws its error; an unknown name, a missing value and a missing source throw 105. |
| `JsonPatchLaws.LookedUp` | src/inc_base/nlohmann/detail/json_pointer.hpp:422-472 | One step of a lookup: a member, an element by its decimal index, and the exceptions 401 to 404. |
| `JsonPatchLaws.IndexExact` | src/inc_base/nlohmann/detail/json_pointer.hpp:214-247 | A token is an index if and only if it is the decimal text of a number below 2^64 - 1. |
| `JsonPatchLaws.IndexRefused` | src/inc_base/nlohmann/detail/json_pointer.hpp:214-247 | Which exception a token gets that is no index: 106 for a zero in front, 109 for another character in front, 404 otherwise and beyond size_type, and 410 for its largest value. |
| `JsonDocument.Document.PatchInplace` | src/inc_base/nlohmann/json.hpp:4708-4975 | The in-place loop: the document and the exception, if any, are those of the specification; operations before the failing one stay in effect. |
| `JsonDocument.Document.Patch` | src/inc_base/nlohmann/json.hpp:4979-4984 | The same outcome on a copy; the document itself is not changed. |
| `JsonDocument.Document.MergePatch` | src/inc_base/nlohmann/json.hpp:5131-5155 | The in-place merge leaves the document that the function of RFC 7396 gives. |
| `JsonDocument.Document.Become` | src/inc_base/nlohmann/json.hpp:4979-5119 | Computing a diff and applying it in place makes the document equal to the target; the patch is empty exactly if it was equal before. |
| `JsonMergePatch.MergeInto` | src/inc_base/nlohmann/json.hpp:5131-5155 | The loop that erases or merges member by member computes the function of section 2 of RFC 7396 for every target and patch. |
| `JsonMergePatch.MergeIdempotent` | src/inc_base/nlohmann/json.hpp:5131-5155 | Merging the same patch twice equals merging it once. |
| `JsonMergePatch.MergeFrame` | src/inc_base/nlohmann/json.hpp:5138-5149 | Members the patch does not mention keep their value or absence; mentioned members are there afterwards exactly if the patch's value is not null. |
| `JsonMergePatch.MergeOntoNull` | src/inc_base/nlohmann/json.hpp:5131-5155 | Merging onto null gives the patch itself exactly if no object in it that is reached through objects has a null member. |
| `JsonMergeLaws.MergeKeeps` | src/inc_base/nlohmann/json.hpp:5138-5149 | Along any path on which the patch has objects only, what it does not mention keeps its value or absence, where a target that is no object along the path has nothing. |
| `JsonMergeLaws.MergeSets` | src/inc_base/nlohmann/json.hpp:5138-5154 | At any path where the patch has a value that is neither an object nor null, the result has exactly that value. |
| `JsonMergeLaws.MergeDrops` | src/inc_base/nlohmann/json.hpp:5142-5145 | At any path where the patch has a null member, the result has none. |
| `JsonMergeLaws.MergeExact` | src/inc_base/nlohmann/json.hpp:5131-5155 | The result of a merge is the one document that keeps, sets and drops in this way and has objects where the patch has them, at every depth. |
| `JsonDestroy.Destroy` | src/inc_base/nlohmann/json.hpp:556-662 | The explicit stack pops every proper descendant exactly once, with multiplicity, each is destructed without children, the root is left with nulls only, and the loop ends after as many rounds as there are descendants. |
| `JsonDestroy.MoveChildren` | src/inc_base/nlohmann/json.hpp:588-614 | Moving the children out one by one puts them on the stack in iteration order and leaves nulls behind. |
| `JsonDestroy.PopPush` | src/inc_base/nlohmann/json.hpp:588-614 | One round: popping a node and pushing its children takes exactly that node off the forest the stack stands for. |
| `JsonPointer.ReplaceSubstring` | src/inc_base/nlohmann/detail/string_escape.hpp:31-40 | The in-place find-and-replace loop replaces the non-overlapping occurrences from left to right and does not look into what it inserted. |
| `JsonPointer.UnescapeEscape` | src/inc_base/nlohmann/detail/string_escape.hpp:50-69 | Unescaping an escaped key gives the key back, for every text, with the order of replacements in the code. |
| `JsonPointer.EscapeIsToken` | src/inc_base/nlohmann/detail/string_escape.hpp:50-55 | An escaped key holds no slash and no tilde that is not followed by 0 or 1, so it is one well-formed reference token. |
| `JsonPointer.SplitExtend` | src/inc_base/nlohmann/detail/json_pointer.hpp:666-724 | Appending a slash and a well-formed token to a pointer text appends that decoded token to its token list. |
| `JsonPointerLaws.SplitExact` | src/inc_base/nlohmann/detail/json_pointer.hpp:666-724 | A text is read as a list of tokens if and only if it is the text of the pointer to them: pointer texts and token lists correspond one to one. |
| `JsonPointerLaws.SplitRefuses` | src/inc_base/nlohmann/detail/json_pointer.hpp:676-716 | Error 107 exactly for a text that is not empty and has no slash in front, 108 exactly for a tilde that is not followed by 0 or 1. |
| `JsonPointerLaws.EscapedCharacters` | src/inc_base/nlohmann/detail/string_escape.hpp:50-55 | A tilde becomes "~0", a slash "~1", and no other character changes. |
| `JsonPointerLaws.EscapeUnescape` | src/inc_base/nlohmann/detail/string_escape.hpp:50-69 | Escaping gives back every well-escaped token that was unescaped. |
| `JsonPointer.ArrayIndexDecimal` | src/inc_base/nlohmann/detail/json_pointer.hpp:214-247 | The decimal text of an index is read back as that index, for every index below the limit of size_type. |
| `ThreadPool.Pool.constructor` | src/code/common/ThreadPool.cpp:13-34 | The fields of a new pool with 1 <= min <= max are the initial state of the step system and meet its invariant. |
| `ThreadPool.Pool.AddTask` | src/code/common/ThreadPool.h:26-36 | Add queues the call and wakes all sleepers in one critical section: the step Add. |
| `ThreadPool.Pool.TakeTaskOrWait` | src/code/common/ThreadPool.cpp:76-103 | With the lock held a worker takes the head of the queue and becomes busy, or goes to sleep on an empty queue. |
| `ThreadPool.Pool.WorkerEnters` | src/code/common/ThreadPool.cpp:73-103 | A worker that comes to the lock performs the step Acquire. |
| `ThreadPool.Pool.WorkerWakes` | src/code/common/ThreadPool.cpp:79-103 | A worker that wakes looks at exitNum first, retires only above the minimum, and otherwise takes or sleeps again: the step Reacquire. |
| `ThreadPool.Pool.WorkerWakesUnasked` | src/code/common/ThreadPool.cpp:79 | A return of cond.wait without a notification is the step SpuriousWake. |
| `ThreadPoolLaws.UnaskedWakes` | src/code/common/ThreadPool.cpp:79 | A sleeper that wakes unasked competes for the lock like a notified one, and nothing else changes. |
| `ThreadPoolLaws.WakeDecides` | src/code/common/ThreadPool.cpp:79-103 | A woken worker uses up one request to leave if there is one, leaves exactly if also more are live than must be, and else takes the task that waits longest or sleeps. |
| `ThreadPoolLaws.RequestsUsedUp` | src/code/common/ThreadPool.cpp:79-92 | Over any run between two acts of the manager every wake-up uses up one request, until none is left. |
| `ThreadPoolLaws.FewLeave` | src/code/common/ThreadPool.cpp:79-92 | Over any run between two acts of the manager at most as many workers leave as are asked to. |
| `ThreadPool.Pool.WorkerFinishes` | src/code/common/ThreadPool.cpp:108-112 | Ending a call is the step Finish and keeps the invariant: the balance of every call, the counters and their bounds. |
| `ThreadPool.Pool.ManagerLooks` | src/code/common/ThreadPool.cpp:129-133 | The manager's snapshot of three counters is the step Look and keeps the invariant. |
| `ThreadPool.Pool.ManagerGrows` | src/code/common/ThreadPool.cpp:137-156 | The loop that starts at most two workers in never used slots, on a stale decision, is the step Grow. |
| `ThreadPool.Pool.ManagerShrinks` | src/code/common/ThreadPool.cpp:159-165 | Setting exitNum on a stale decision is the step Shrink and keeps the invariant, whatever the readings were. |
| `ThreadPoolLaws.PassDecides` | src/code/common/ThreadPool.cpp:129-165 | A whole pass, with any steps of clients and workers between the look, the growing and the shrinking: workers are started only if at the look more tasks were queued than workers live and fewer were live than the maximum; exitNum is set to 2 if and only if at the look the live workers not running outnumber the running ones and more than the minimum are live. |
| `ThreadPoolLaws.NotifyWakes` | src/code/common/ThreadPool.cpp:167-168 | The manager wakes all sleepers twice and is done. |
| `ThreadPool.Pool.ManagerNotifies` | src/code/common/ThreadPool.cpp:167-168 | One notification after the lock was released is the step Notify. |
| `ThreadPoolProofs.StepInv` | src/code/common/ThreadPool.cpp:65-171 | Every step of workers, manager and clients keeps the counters, the bounds, the absence of sleepers beside queued tasks and the balance of every task. |
| `ThreadPoolProofs.NoLostWakeup` | src/code/common/ThreadPool.cpp:74-103 | In every reachable state with a queued task no worker sleeps, and some live worker has a step it can take. |
| `ThreadPoolProofs.ConservationAndOrder` | src/code/common/ThreadPool.cpp:100-112 | In every reachable state the tasks added are those started followed by those queued, each task is queued, running or finished as often as it was added, and busyNum counts the running workers. |
| `ThreadPoolProofs.LiveBounds` | src/code/common/ThreadPool.cpp:82-92 | In every reachable state min <= liveNum <= max, liveNum counts the workers that have not returned, and live and retired workers together occupy at most max slots. |
| `ThreadPoolProofs.SlotsNeverFreed` | src/code/common/ThreadPool.cpp:144-154 | Over any run an occupied slot is never free again, so at most max workers are ever created. |
| `ThreadPoolProofs.GrowAmount` | src/code/common/ThreadPool.cpp:141-154 | A growing pass starts exactly the minimum of two, the distance to max and the number of never used slots. |
| `ThreadPoolProofs.NeverRegrows` | src/code/common/ThreadPool.cpp:144-154 | From any reachable state on, no run has more live workers than max less those that retired. |
| `ThreadPoolProofs.RegrowsUpTo` | src/code/common/ThreadPool.cpp:129-165 | From any reachable state some run has n live workers if and only if n is at most max less the retired ones. |
| `ThreadPoolProofs.ShrunkenPool` | src/code/common/ThreadPool.cpp:129-165 | A pool for one to three workers can reach a state from which it has exactly one worker in every run. |
| `ThreadPoolProofs.BoundedWait` | src/code/common/ThreadPool.cpp:65-114 | In any interleaving the head of the queue is started before the workers have taken more than 2 * max steps. |
| `MessageQueue.Queue.SubscribeTo` | src/code/common/MessageQueue.hpp:45-48 | subscribe is the step Subscribe of the bus: the subscriber is promised what is published to its topic from then on, and for every subscriber what was added for it and what is still due stay what it was promised. |
| `MessageQueue.Queue.StartPublishing` | src/code/common/MessageQueue.hpp:50-51 | Once publish holds the mutex, the message is promised to exactly the subscribers of its topic and due to all of them. |
| `MessageQueue.Queue.PublishTo` | src/code/common/MessageQueue.hpp:50-57 | publish with no other thread in between is the run Publish, then one step per subscriber and one that ends the loop; it hands one call per matching subscriber to the pool, in subscription order. |
| `MessageQueue.Queue.HandOn` | src/code/common/MessageQueue.hpp:52-56 | One round of the loop of publish, with the pool's critical section if the topic matches, is the step Advance, whatever the pool did since the last round. |
| `MessageQueue.Queue.PoolActs` | src/code/common/ThreadPool.cpp:65-171 | Any critical section of workers and manager between the rounds of publish keeps what is promised and due. |
| `MessageQueue.Queue.Delivered` | src/code/common/MessageQueue.hpp:45-57 | In every state of the object, between any rounds and steps of the pool, what started for a subscriber is a prefix of what it was promised, in publish order, and all of it once nothing is queued. |
| `MessageQueue.AddAllQueues` | src/code/common/MessageQueue.hpp:52-56 | A publication puts its calls behind what was queued, starts none itself and leaves no worker asleep if there was any call. |
| `MessageQueue.DeliveredInPublishOrder` | src/code/common/MessageQueue.hpp:45-57 | In every run of bus and pool, what has started for a subscriber is a prefix of the messages published to its topic since it subscribed, in publish order, and all of them once nothing is queued. |
| `ModbusCrc.CRC16` | src/code/protocol/Modbus.cpp:129-146 | The two loops compute the CRC that is defined by eight shift steps per byte. |
| `ModbusCrcLaws.RegisterIsRemainder` | src/code/protocol/Modbus.cpp:129-146 | Started from zero, the register over a message is, bit-reversed, the remainder of the message times x^16 by x^16 + x^15 + x^2 + 1, over carry-less multiplication, and no other word is one. |
| `ModbusCrcLaws.StartInverts` | src/code/protocol/Modbus.cpp:132 | The checksum of two bytes or more is that of the message with its first sixteen bits inverted, from zero. |
| `ModbusCrcLaws.CheckValue` | src/code/protocol/Modbus.cpp:129-146 | The checksum of the digits from 1 to 9 is 0x4B37. |
| `ModbusCrc.CrcLinear` | src/code/protocol/Modbus.cpp:134-143 | The register is linear over bitwise xor of start value and message, for any length. |
| `ModbusCrc.SeparatedIffSyndrome` | src/code/protocol/Modbus.cpp:129-146 | Two messages of equal length get different checksums exactly if the register run from zero over their difference is not zero. |
| `ModbusCrc.BurstsSeparated` | src/code/protocol/Modbus.cpp:129-146 | Messages of three bytes or more, of any length, that differ by one burst of up to sixteen bits, at any bit position, get different checksums exactly if the burst is not empty. |
| `ModbusCrc.AdjacentBytesSeparated` | src/code/protocol/Modbus.cpp:129-146 | Messages that differ at most in two adjacent bytes get the same checksum exactly if they are the same. |
| `ModbusCrc.ShortSeparated` | src/code/protocol/Modbus.cpp:129-146 | Messages of up to two bytes get the same checksum exactly if they are the same. |
| `ModbusCrc.OddErrorsSeparated` | src/code/protocol/Modbus.cpp:129-146 | Messages that differ in an odd number of bits get different checksums. |
| `ModbusCrc.ResidueIffChecksum` | src/code/protocol/Modbus.cpp:98-100 | Two bytes behind a message bring the register to zero exactly if they are its checksum, low byte first. |
| `Modbus.RequestResidue` | src/code/protocol/Modbus.cpp:86-109 | Every request frame has eight bytes and the register runs to zero over it. |
| `ModbusLaws.RequestUnderstood` | src/code/protocol/Modbus.cpp:86-109 | A request has the address 1, the point's function, register and quantity with the high byte first, and the checksum of these six bytes with the low byte first. |
| `ModbusLaws.RequestsDiffer` | src/code/protocol/Modbus.cpp:86-109 | Two points have the same request exactly if they ask for the same. |
| `Modbus.Protocol.AssemblePacket` | src/code/protocol/Modbus.cpp:86-109 | Writes the frame of the next point, returns 7 and moves on; behind the last point returns -1, rewinds and leaves the buffer alone. |
| `Modbus.Protocol.ParsePacket` | src/code/protocol/Modbus.cpp:20-54 | Returns the specified verdict on the bytes, and on success has moved exactly the data bytes to the front; otherwise the buffer is unchanged. |
| `Modbus.Protocol.ParseFunc` | src/code/protocol/Modbus.cpp:212-233 | The overlapping copy towards the front leaves the data bytes in front, in order. |
| `Modbus.RecognisedWhenComplete` | src/code/protocol/Modbus.cpp:20-54 | A read response is recognised exactly when it is complete: neither on a proper prefix nor with bytes behind it. |
| `Modbus.AnswerStillPossible` | src/code/protocol/Modbus.cpp:22-50 | Some continuation of the received bytes makes the parser answer exactly under a condition on the first three bytes and the length. |
| `Modbus.ResponseShapes` | src/code/protocol/Modbus.cpp:22-50 | What the parser answers to, and to no proper prefix of it, are exactly the read responses with data and the five-byte exceptions to 0x03 and responses without data. |
| `ModbusLaws.AnsweredWith` | src/code/protocol/Modbus.cpp:20-54 | The answer is these data bytes if and only if the response is some address, 3 or 4, their number, the bytes, and any two bytes. |
| `ModbusLaws.AnsweredWithout` | src/code/protocol/Modbus.cpp:22-45 | The answer is empty if and only if there are five bytes or more, with 0x83, or with 3 or 4 and a count of zero. |
| `TaskSerial.EveryInterleavingReassembles` | src/code/task/TaskSerial.cpp:173-216 | For every fragmentation and interleaving of receiver and parser, no byte is lost, doubled or reordered, every attempt before the last returns -1, the last one the result, and what is delivered is exactly the answer to the whole response. |
| `ModbusLaws.ReadsFollowAttempts` | src/code/task/TaskSerial.cpp:173-216 | In any run the receiver waits for an attempt of the parser between two reads, and holds at most 512 bytes. |
| `ModbusLaws.OneReadAnswers` | src/code/task/TaskSerial.cpp:173-216 | Up to 512 bytes that are an answer together are answered by one read and one attempt. |
| `TaskSerial.AnswerReachable` | src/code/task/TaskSerial.cpp:382-385 | If the bytes that come in are an answer together, it can still be reached whatever the two threads did so far and wherever the receiver stood. |
| `TaskSerial.AlwaysAnswerable` | src/code/task/TaskSerial.cpp:382-385 | After all steps of the two threads the answer can still be reached, if and only if the bytes that come in are an answer together. |
| `TaskSerial.ByteTooMany` | src/code/task/TaskSerial.cpp:382-385 | A read response with a byte too many: some run answers, and some run gets to where no run does. |
| `TaskSerial.NeverAnswered` | src/code/task/TaskSerial.cpp:382-385 | When neither the buffer nor the buffer with the bytes about to be appended is or can become an answer, no steps of the two threads and no further bytes end the wait. |
| `TaskSerial.WaitMayEnd` | src/code/task/TaskSerial.cpp:382-385 | Wherever the receiver stands, the wait can still end, for some bytes to come and some steps, if and only if the buffer is an answer or, with the bytes about to be appended, can become one. |
| `TaskSerial.AnsweredIffRecognised` | src/code/task/TaskSerial.cpp:382-385 | Bytes that come in after a request are answered by some run of the two threads, wherever the receiver stood, if and only if a prefix of them is a response. |
| `TaskSerial.ExceptionNeverAnswered` | src/code/task/TaskSerial.cpp:382-385 | After an exception response to function 0x04 no run of the two threads answers the request. |
| `TaskSerial.Task.ParsePacketProc` | src/code/task/TaskSerial.cpp:400-453 | One attempt is the step Parse: it ends the wait exactly if the parser answers, with the answer and an empty buffer, and otherwise releases the receiver. |
| `TaskSerial.Task.Receive` | src/code/task/TaskSerial.cpp:175-191 | One read of the receiver is the step Read: it takes the first bytes of the wire, or none on failure. |
| `TaskSerial.Task.AppendReceived` | src/code/task/TaskSerial.cpp:193-211 | The byte-wise loop under the mutex is the step Append. |
| `TaskSerial.Task.SignalReceived` | src/code/task/TaskSerial.cpp:213 | Setting the flag outside the mutex is a step of its own. |
| `TaskSerial.Task.AwaitAnswer` | src/code/task/TaskSerial.cpp:382-385 | The sections of both threads, in the order of any schedule, lead to the state that the step system reaches. |
| `TaskSerial.Task.SendPacketProc` | src/code/task/TaskSerial.cpp:363-398 | Sends the frame of the next point and, for any response and any interleaving that answers, returns the record with that point's title and the answer to the response; keeps the two cursors in step. |
| `TaskSerial.Task.SerialTaskRun` | src/code/task/TaskSerial.cpp:331-353 | A pass over a device whose requests are all answered, in any interleaving, sends one frame with residue zero per point and returns one titled record per point, in order, with the cursor back at zero. |
| `TaskSerial.ScheduleExists` | src/code/task/TaskSerial.cpp:331-353 | For any responses there are interleavings in which every request of the pass is answered. |
| `MultipartFind.FindInPrefix` | src/inc_base/httplib/httplib.hpp:4452-4473 | In a prefix of a text the search finds the same first place as in the whole, or nothing while the prefix does not reach behind it. |
| `MultipartParser.MultipartFormDataParser.BufAppend` | src/inc_base/httplib/httplib.hpp:4475-4491 | Shifting the rest to the front, growing and copying appends the new bytes to the bytes held. |
| `MultipartParser.MultipartFormDataParser.BufErase` | src/inc_base/httplib/httplib.hpp:4493 | Drops bytes from the front of the bytes held. |
| `MultipartParser.MultipartFormDataParser.BufFind` | src/inc_base/httplib/httplib.hpp:4452-4473 | The nested search loops find the first place of a text in the bytes held, or their number. |
| `MultipartParser.MultipartFormDataParser.StartWith` | src/inc_base/httplib/httplib.hpp:4433-4440 | The byte-wise comparison decides whether the text stands at a place of the bytes held. |
| `MultipartParser.StartWithCaseIgnore` | src/inc_base/httplib/httplib.hpp:4413-4420 | The loop decides the case-insensitive prefix relation. |
| `MultipartParser.ParseDispositionParams` | src/inc_base/httplib/httplib.hpp:4197-4219 | The entries put into the multimap are the unquoted key-value pairs of the distinct pieces, in order. |
| `MultipartParser.MultipartFormDataParser.ReadHeader` | src/inc_base/httplib/httplib.hpp:4310-4353 | A header line changes the file, and is refused, as the specification of a line says, with the partial update of a refused line. |
| `MultipartParser.MultipartFormDataParser.InitialBoundary` | src/inc_base/httplib/httplib.hpp:4282-4289 | State 0 drops the first delimiter line and everything in front of it, or all bytes while it is not wholly there. |
| `MultipartParser.MultipartFormDataParser.Headers` | src/inc_base/httplib/httplib.hpp:4295-4359 | State 2 reads header lines up to the empty line, waits while the next one is incomplete, and fails on a refused line or one over the limit. |
| `MultipartParser.MultipartFormDataParser.Body` | src/inc_base/httplib/httplib.hpp:4360-4382 | State 3 hands out the content in front of the delimiter, or, while there is none, all bytes but as many as a delimiter has. |
| `MultipartParser.MultipartFormDataParser.Boundary` | src/inc_base/httplib/httplib.hpp:4383-4400 | State 4 goes on with the next item behind CR LF, becomes valid and drops the rest at two dashes, and otherwise waits. |
| `MultipartParser.MultipartFormDataParser.ParseData` | src/inc_base/httplib/httplib.hpp:4275-4404 | A call terminates, and leaves the state, the callbacks and the verdict of the specification on the bytes held followed by the new ones. |
| `MultipartHeaders.SerializeItemBegin` | src/inc_base/httplib/httplib.hpp:4546-4560 | Writes the delimiter line and the header block of an item. |
| `MultipartHeaders.BeganText` | src/inc_base/httplib/httplib.hpp:4546-4560 | The delimiter line, the disposition line with the file name if there is one, the type line if there is a type, and the empty line, written out. |
| `MultipartCuttings.FinishEnds` | src/inc_base/httplib/httplib.hpp:4564-4567 | Behind the content of the last item, what the writer puts at the end makes the parser valid, completes the item with exactly its content, and leaves nothing in the buffer. |
| `MultipartHeaders.SerializeFormData` | src/inc_base/httplib/httplib.hpp:4575-4587 | Writes the items one behind the other, and the closing delimiter exactly if it is to finish the body. |
| `MultipartHeaders.DispositionRead` | src/inc_base/httplib/httplib.hpp:4315-4349 | The disposition line that the writer makes is read back as exactly the name and file name, for all texts without ';', '=' and line breaks. |
| `MultipartHeaders.TypeRead` | src/inc_base/httplib/httplib.hpp:4310-4313 | The type line is read back as exactly the content type. |
| `MultipartLaws.DispositionExact` | src/inc_base/httplib/httplib.hpp:4315-4321 | What a disposition line captures is what stands behind its two words, in any case and with any white space behind each, on one line; any other line captures nothing. |
| `MultipartLaws.AnyDisposition` | src/inc_base/httplib/httplib.hpp:4310-4349 | A disposition line in any such spelling is taken or refused, and changes the file, as its parameters say. |
| `MultipartLaws.LowerTable` | src/inc_base/httplib/httplib.hpp:4413-4420 | Letters without regard to case are those from A to Z. |
| `MultipartLaws.ParamsTaken` | src/inc_base/httplib/httplib.hpp:4324-4348 | Such a line is taken if and only if there is a name and an extended file name has its form; the extended one overrides the plain one, decoded. |
| `MultipartLaws.ExtendedExact` | src/inc_base/httplib/httplib.hpp:4338-4342 | The extended form is "UTF-8''" in any case in front of at least one character on the line. |
| `MultipartLaws.ExtendedRead` | src/inc_base/httplib/httplib.hpp:4335-4347 | A file name of any bytes, percent-encoded in the extended form, is read back. |
| `MultipartLaws.LookupExact` | src/inc_base/httplib/httplib.hpp:4324-4335 | Of several entries with one key the first counts. |
| `MultipartLaws.TypeLine` | src/inc_base/httplib/httplib.hpp:4310-4313 | A type line is taken in any case, without blanks at the ends of its value. |
| `MultipartLaws.OtherLine` | src/inc_base/httplib/httplib.hpp:4349-4352 | On a line of neither kind the parser fails and the file stays as it was. |
| `MultipartRoundTrip.RoundTrip` | src/inc_base/httplib/httplib.hpp:4275-4404 | One call on what the writer wrote for any non-empty list of well-formed items reports exactly the items, in order, and ends valid. |
| `MultipartRoundTrip.StreamedRoundTrip` | src/inc_base/httplib/httplib.hpp:4275-4404 | The same for any cutting into chunks of which the first that is not empty holds the first delimiter, with every header line below the limit. |
| `MultipartRoundTrip.EmptyListIsInvalid` | src/inc_base/httplib/httplib.hpp:4282-4289 | What the writer writes for no items is never valid to the parser. |
| `MultipartRoundTrip.FirstDelimiterWhole` | src/inc_base/httplib/httplib.hpp:4282-4289 | The first call forgets all its bytes and leaves the parser as new exactly if the first delimiter is not wholly among them. |
| `MultipartCuttings.FirstDelimiterDecides` | src/inc_base/httplib/httplib.hpp:4282-4289 | For any fitting items and any c: every cutting whose first call that gets bytes gets c of them brings the items back, if and only if c covers the first delimiter. |
| `MultipartCuttings.HeaderLimitDecides` | src/inc_base/httplib/httplib.hpp:4296-4297 | For any fitting items: every cutting with a whole first delimiter brings them back, if and only if every header line is below the limit; the cutting that fails, from a new parser, ends a chunk behind the CR of the first line that is not. |
| `MultipartCuttings.OneCallLimitDecides` | src/inc_base/httplib/httplib.hpp:4296-4297 | For any fitting items: one call brings them back, if and only if the first header line of each is within the limit. |
| `MultipartCuttings.LongLineFails` | src/inc_base/httplib/httplib.hpp:4296-4297 | A header line of the limit or more fails when a chunk ends behind its CR. |
| `MultipartCuttings.LongLineRead` | src/inc_base/httplib/httplib.hpp:4296-4297 | A header line of exactly the limit is taken when its CR LF is there. |
| `MultipartLaws.LineLimit` | src/inc_base/httplib/httplib.hpp:4296-4297 | A header line of up to 8192 bytes is read, a longer one fails without being looked at. |
| `MultipartLaws.PreambleDropped` | src/inc_base/httplib/httplib.hpp:4282-4289 | Whatever stands in front of the first delimiter line makes no difference. |
| `MultipartLaws.BehindDelimiter` | src/inc_base/httplib/httplib.hpp:4383-4397 | Behind a delimiter a line end begins the next item, and two dashes make the parser valid and drop the rest. |
| `MultipartLaws.StuckBehindDelimiter` | src/inc_base/httplib/httplib.hpp:4383-4396 | With two other bytes behind a delimiter the parser keeps all further bytes for ever, without content and without failure. |
| `MultipartRoundTrip.BodyUpToDelimiter` | src/inc_base/httplib/httplib.hpp:4360-4382 | For any bytes in any chunks, the content handed out before state 3 is left is exactly what stands in front of the first delimiter, and parsing goes on exactly behind it. |
| `MultipartRoundTrip.BodyWithoutDelimiter` | src/inc_base/httplib/httplib.hpp:4371-4381 | While no delimiter has come, what was handed out and what is held back make up the bytes received, and no more than the length of a delimiter is held back. |
| `MultipartExact.OneCallExact` | src/inc_base/httplib/httplib.hpp:4275-4404 | For any non-empty list of items: one call brings back exactly the items and ends valid, if and only if names and file names hold no ';', '=', CR or LF, types no CR LF and no blanks at their ends, contents no delimiter, and every first header line is within the limit. |
| `MultipartExact.StreamedExact` | src/inc_base/httplib/httplib.hpp:4275-4404 | For any non-empty list of items: every cutting with a whole first delimiter brings them back, if and only if they fit in this sense and every header line is below the limit. |
| `MultipartExact.FilenamePlain` | src/inc_base/httplib/httplib.hpp:4333-4347 | A file name that is not plain cannot come back, not even through the extended form or by breaking the header into other lines. |
| `MultipartExact.WriteAndParse` | src/inc_base/httplib/httplib.hpp:4575-4587 | The two programs together, for any list: the items come back exactly under these conditions, and an empty list is never valid. |
| `MultipartNames.ReportedNamesPlain` | src/inc_base/httplib/httplib.hpp:4310-4331 | No input in any chunks makes the parser report a name with ';', '=' or a line break, or a type with CR LF or with blanks at its ends. |
| `HttpText.TrimBounds` | src/inc_base/httplib/httplib.hpp:2443-2452 | The two scans over the whole text find the trimmed range, or bounds that cross exactly if nothing is left. |
| `QueryLaws.TrimExact` | src/inc_base/httplib/httplib.hpp:2441-2457 | A text trims to another if and only if that stands between blanks and tabs and has none at its ends. |
| `QueryLaws.SpaceTable` | src/inc_base/httplib/httplib.hpp:2441 | Blanks are the space and the tab; white space is also line feed, vertical tab, form feed and carriage return. |
| `QueryLaws.UnquotedExact` | src/inc_base/httplib/httplib.hpp:2459-2464 | Double quotes are taken off exactly if there is one at either end. |
| `HttpText.Split` | src/inc_base/httplib/httplib.hpp:2466-2484 | Calls back with the trimmed non-empty pieces between delimiters, in order. |
| `QueryText.EncodeQueryParam` | src/inc_base/httplib/httplib.hpp:2335-2354 | Writes unreserved bytes as they are and every other byte as a percent sign and two upper-case digits. |
| `QueryLaws.EncodedTable` | src/inc_base/httplib/httplib.hpp:2335-2354 | Letters, figures and -_.!~*'() stand for themselves; any other byte is two upper-case digits, the high half first. |
| `QueryText.FromHexToI` | src/inc_base/httplib/httplib.hpp:2195-2210 | Reads a fixed number of hexadecimal digits, and fails at the end of the text or at another character. |
| `QueryText.DecodeUrl` | src/inc_base/httplib/httplib.hpp:2388-2423 | Decodes percent, %u and plus sequences from left to right and copies malformed ones. |
| `QueryLaws.DecodedBy` | src/inc_base/httplib/httplib.hpp:2388-2423 | Each escape on its own: two digits behind a percent sign give that byte, four behind "%u" the UTF-8 form of that code point, a plus a blank where it is asked for, and everything else itself. |
| `QueryLaws.Utf8Exact` | src/inc_base/httplib/httplib.hpp:2222-2252 | A code point becomes its shortest UTF-8 form of section 3 of RFC 3629 and nothing else; a surrogate becomes nothing. |
| `QueryLaws.HexTable` | src/inc_base/httplib/httplib.hpp:2181-2193 | The hexadecimal digits are those of either case. |
| `QueryText.DecodeEncode` | src/inc_base/httplib/httplib.hpp:2388-2423 | Decoding an encoded value gives the value back, for any bytes and either treatment of plus. |
| `QueryText.ParamsToQueryStr` | src/inc_base/httplib/httplib.hpp:4151-4161 | Writes the entries of the multimap in iteration order. |
| `QueryText.ParseQueryText` | src/inc_base/httplib/httplib.hpp:4163-4184 | Adds the decoded entries of the distinct pieces that have a key, in order, to what the multimap held. |
| `QueryLaws.ItemAdds` | src/inc_base/httplib/httplib.hpp:4163-4184 | An item behind a query adds its decoded entry unless it is blank, has no key or is a piece of the query already. |
| `QueryLaws.KeyAndValue` | src/inc_base/httplib/httplib.hpp:4163-4184 | The key stands in front of the first '=', the value behind the last, and what is in between is dropped. |
| `QueryLaws.KeyAlone` | src/inc_base/httplib/httplib.hpp:4163-4184 | A piece without '=', or with nothing in front of it, is a key without a value. |
| `QueryLaws.EmplacedAt` | src/inc_base/httplib/httplib.hpp:359 | An entry goes behind the entries with keys up to its own and in front of the others, and nothing else moves. |
| `QueryLaws.OrderIsLexicographic` | src/inc_base/httplib/httplib.hpp:359 | The order of keys: a proper prefix comes first, and otherwise the first different byte decides. |
| `QueryText.QueryRoundTrip` | src/inc_base/httplib/httplib.hpp:4151-4184 | Parsing the printed form of a multimap with keys that stand for themselves and arbitrary byte values rebuilds it without repeated entries, hence exactly if and only if no entry repeats. |
| `QueryExact.OneEntryExact` | src/inc_base/httplib/httplib.hpp:4151-4184 | A single entry comes back if and only if its key is not empty, has no '&', '=' or blanks at its ends, and stands for itself when decoded. |
| `QueryText.DecodeShort` | src/inc_base/httplib/httplib.hpp:2388-2423 | Decoding never lengthens a text. |
| `Base64.Base64Encode` | src/inc_base/httplib/httplib.hpp:2256-2282 | The shifting accumulator writes the 3-to-4 grouping of section 4 of RFC 4648 for any length, whether every shift keeps all bits or wraps as a signed 32-bit value. |
| `Base64.EncodedLength` | src/inc_base/httplib/httplib.hpp:2275-2279 | The output has four characters for every started group of three bytes. |
| `Base64.DecodeEncoded` | src/inc_base/httplib/httplib.hpp:2256-2282 | The standard's decoder gives back the input. |
| `Base64.SymbolTable` | src/inc_base/httplib/httplib.hpp:2257-2259 | The sixty-four symbols in the order of the standard. |
| `Base64.PaddingTable` | src/inc_base/httplib/httplib.hpp:2275-2279 | One byte left over is followed by two equals signs, two by one, none by none. |
| `HttpStream.Wire.WriteAll` | src/inc_base/httplib/httplib.hpp:3926-3934 | Writes that take only a part are repeated until all bytes are sent, in order. |
| `HttpStream.LineReader.Append` | src/inc_base/httplib/httplib.hpp:2538-2549 | Appends a byte to the line in the fixed buffer, or moves the line to the growing buffer when it is full. |
| `HttpStream.LineReader.GetLine` | src/inc_base/httplib/httplib.hpp:2512-2536 | Reads byte by byte up to and with a line feed, or what is left; false exactly at the end of the stream. |
| `Chunked.FromIToHex` | src/inc_base/httplib/httplib.hpp:2212-2220 | Writes a number in lower-case hexadecimal without leading zeros. |
| `ChunkedLaws.WrittenSize` | src/inc_base/httplib/httplib.hpp:2212-2220 | What is written has the value of the number, lower-case digits only and no zero in front. |
| `ChunkedLaws.WrittenBody` | src/inc_base/httplib/httplib.hpp:4022-4091 | A chunk and an end with one trailer field, byte by byte. |
| `Chunked.StrtoulHex` | src/inc_base/httplib/httplib.hpp:3786-3793 | strtoul reads every size up to its maximum back from what was written, and stops at the line end. |
| `Chunked.DataSink.WriteData` | src/inc_base/httplib/httplib.hpp:4022-4047 | A write sends one chunk, or nothing if it is empty, and says whether more is expected. |
| `Chunked.DataSink.DoneWithTrailer` | src/inc_base/httplib/httplib.hpp:4049-4091 | Ending sends the last chunk, the trailer fields and the empty line. |
| `Chunked.WriteContentChunked` | src/inc_base/httplib/httplib.hpp:4015-4114 | The loop that asks the provider sends what its calls put out until one expects no more. |
| `Chunked.ReadContentWithLength` | src/inc_base/httplib/httplib.hpp:3722-3742 | However short the single reads are, exactly the given number of bytes is delivered, or all that were left and failure. |
| `Chunked.ReadContentChunked` | src/inc_base/httplib/httplib.hpp:3775-3827 | The reading loop delivers the content, trailer lines, verdict and remaining stream of the specification. |
| `ChunkedLaws.AcceptedExact` | src/inc_base/httplib/httplib.hpp:3775-3827 | The reader succeeds with this content, trailer and rest if and only if the stream is chunks with their size lines, a line with size zero, trailer lines of up to 8192 bytes, an empty line and the rest. |
| `ChunkedLaws.FailureKeeps` | src/inc_base/httplib/httplib.hpp:3786-3803 | A chunk that is cut off is delivered as far as it came, one without its line end whole, and one with a bad size not at all. |
| `ChunkedLaws.SizeBehind` | src/inc_base/httplib/httplib.hpp:3788-3791 | A size may stand behind white space and a sign; beyond the maximum it is the maximum, and a minus negates it modulo the number behind the maximum. |
| `ChunkedLaws.DigitsBehind` | src/inc_base/httplib/httplib.hpp:3788 | The digits, with "0x" in front or not, are the number with base 16, and end where they end. |
| `ChunkedLaws.NoSize` | src/inc_base/httplib/httplib.hpp:3790 | Without a digit there is no size. |
| `Chunked.ChunkedRoundTrip` | src/inc_base/httplib/httplib.hpp:3775-3827 | Reading what any writes below the size limit, empty ones included, and any fitting trailer produced succeeds, delivers the writes in order and stops exactly behind the body. |
| `Chunked.UnterminatedFails` | src/inc_base/httplib/httplib.hpp:3775-3827 | Chunks without an end deliver all content but are reported as a failure. |
| `Chunked.ServedAnyhow` | src/inc_base/httplib/httplib.hpp:4099-4110 | However writes and the end are spread over calls of the provider, the whole body is sent if no call ends in an empty write, and otherwise only the chunks of the first writes. |
| `Chunked.DeliveredIffKeptOpen` | src/inc_base/httplib/httplib.hpp:4099-4110 | Writer and reader: the content and the trailer arrive if and only if no call of the provider ends in an empty write; otherwise the reader reports a failure. |
| `Chunked.EmptyWriteCutsOff` | src/inc_base/httplib/httplib.hpp:4022-4024 | Three calls that write "a", nothing, and the end deliver "a" as a failure. |
| `Chunked.SendAndReceive` | src/inc_base/httplib/httplib.hpp:4015-4114 | The two programs together: reading succeeds exactly if no call of the provider ends in an empty write, and then returns the writes and the trailer lines. |
| `PathParams.Compile` | src/inc_base/httplib/httplib.hpp:5402-5445 | The constructor's loop collects the static fragments and parameter names of a pattern, and throws exactly if a name comes twice. |
| `PathParams.Match` | src/inc_base/httplib/httplib.hpp:5447-5488 | The matching loop accepts exactly the paths of the specification and binds each name to its value. |
| `PathParams.MatchExact` | src/inc_base/httplib/httplib.hpp:5447-5488 | For patterns with nothing behind a NUL in a static fragment, a path matches with given values if and only if they have no slash and the path is the pattern with the values put in, up to the slash behind a last parameter. |
| `PathParamsLaws.InnerParameter` | src/inc_base/httplib/httplib.hpp:5414-5440 | A parameter with a slash behind it adds its name in front of the names of the rest of the pattern, and putting a value in gives the text in front of it, the value, a slash and the rest with its values. |
| `PathParamsLaws.LastParameter` | src/inc_base/httplib/httplib.hpp:5414-5440 | A last parameter has its name, and putting a value in gives the text in front of it and the value. |
| `PathParamsLaws.NoParameter` | src/inc_base/httplib/httplib.hpp:5442-5444 | A pattern without a parameter has no names and stands for itself. |
| `PathParamsNul.ExactIffComparable` | src/inc_base/httplib/httplib.hpp:5461-5466 | Every path is routed exactly if and only if no static fragment of the pattern holds anything behind a NUL. |
| `PathParamsNul.Misroute` | src/inc_base/httplib/httplib.hpp:5461-5466 | With something behind a NUL, for any values without a slash there is a path that matches with these values but is not the pattern with the values put in. |
| `PathParams.BoundValues` | src/inc_base/httplib/httplib.hpp:5478-5481 | With distinct names every parameter is bound to its own value. |
| `OrderedMap.OrderedMap.Find` | src/inc_base/nlohmann/ordered_map.hpp:286-296 | Gives the first entry with the key, or the end. |
| `OrderedMap.OrderedMap.Emplace` | src/inc_base/nlohmann/ordered_map.hpp:54-65 | Appends an entry exactly if the key is not there, and gives the key's entry either way. |
| `OrderedMap.OrderedMap.Index` | src/inc_base/nlohmann/ordered_map.hpp:82-85 | Gives the key's entry, made with a default value at the end if it was not there. |
| `OrderedMap.OrderedMap.EraseKey` | src/inc_base/nlohmann/ordered_map.hpp:162-179 | Shifting the entries behind it one to the front takes out just the key's entry. |
| `OrderedMap.OrderedMap.EraseRange` | src/inc_base/nlohmann/ordered_map.hpp:207-258 | Shifting the entries behind the range to the front and cutting the end takes out just the range, and gives the position behind it. |
| `OrderedMap.RunDistinct` | src/inc_base/nlohmann/ordered_map.hpp:54-258 | After any run of operations from an empty container no key stands twice. |
| `OrderedMap.ApplyRefines` | src/inc_base/nlohmann/ordered_map.hpp:54-258 | Every operation does to the entries what it does to the mathematical map they stand for. |
| `OrderedMap.InsertionOrder` | src/inc_base/nlohmann/ordered_map.hpp:54-258 | After any run, iteration follows the order in which the present entries were inserted. |

## Left out

- JsonPatchRoundTrip.PatchOfDiff: documents with an ordered object type are not covered, because their equality depends on member order and a patch appends members.
- JsonPatchRoundTrip.DiffRestores: the value tree has no aliasing or heap layout; a document is a value held by an object.
- JsonDestroy.Destroy: memory, allocators and the reserve calls are not modelled.
- ThreadPool.Pool.ManagerGrows: what happens during and after destruction of the pool is not modelled, because shutdown is written without the lock.
- Modbus.Protocol.AssemblePacket: only the first package of a point is requested, as in the source; writing to the port is not modelled.
- TaskSerial.AnswerReachable: that the threads are scheduled so that the answer is reached is not claimed.
- TaskSerial.Task.SendPacketProc: bytes that are still on the wire when the next request is sent are not modelled.
- TaskSerial.Task.SerialTaskRun: the list of titles is assumed to be at least as long as the protocol's list of points; publishing and decoding of the collected records are not modelled.
- MultipartCuttings.FirstDelimiterDecides: for a first call that is too short some cutting of the rest fails for every list; that every cutting of the rest fails is not claimed.
- QueryText.QueryRoundTrip: that keys must stand for themselves is proved necessary for a single entry only.
- MultipartParser.MultipartFormDataParser.ParseData: callbacks that refuse are not modelled.
- MultipartParser.MultipartFormDataParser.Headers: a header callback that refuses is not modelled.
- MultipartParser.MultipartFormDataParser.Body: a content callback that refuses is not modelled.
- Chunked.ReadContentChunked: trailer lines are delivered as they stand; splitting them into header fields is not modelled.
- Chunked.ReadContentWithLength: receivers and progress callbacks that refuse are not modelled.
- Chunked.DataSink.WriteData: compressors and writes that fail are not modelled.
- Chunked.DataSink.DoneWithTrailer: compressors and writes that fail are not modelled.
- Chunked.WriteContentChunked: compressors, shutdown and unwritable connections are not modelled.
- OrderedMap.OrderedMap.EraseKey: destruction, reconstruction and moved-from entries are not distinguished from assignment.
- PathParams.Match: the parameters collected by a failing match are not specified.
- HttpStream.Wire.Read: errors other than the end of the stream are not modelled.
- HttpStream.Wire.WriteAll: writes that fail are not modelled.
- HttpStream.LineReader.GetLine: errors other than the end of the stream are not modelled.
- JSON text, files, sockets, terminals, TLS, compression, logging and sleeping.
- The regular expression engine and the other request matchers.
- The device lists, the web cache, and the wrappers that start, pause and stop activities.
