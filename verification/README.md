# Verified models of the stateful cores

The repository vendors a part of nginx 1.6.2 beside small programs of its own. This
project models its stateful cores in Dafny and proves what they are for. Code that
updates objects and buffers in place is modelled by classes whose methods have the
loops and branches of the source; each method is tied to relations or functions, about
which the lemmas speak.

| file | models |
|---|---|
| Common.dfy | bytes, optional values and queues of node numbers used by several modules |
| Names.dfy, Locations.dfy | the compiler from a sorted location queue to nested lists and balanced prefix trees, and the search in them |
| PipeHeap.dfy, EventPipe.dfy | the event pipe between an upstream and a client: buffers, shadow links, raw buffers, temporary file |
| CacheTree.dfy, FileCache.dfy | the shared index of the file cache: search tree, LRU queue, reference counts, update claims, expiry |
| CacheRuns.dfy | runs of many requests and deleting processes on that index, interleaved wherever the mutex is taken or dropped |
| CacheAnswers.dfy | what requests are told in those runs: remembered errors, the number of uses, claims and removals |
| SslSend.dfy | the gathering of output in one buffer before SSL_write |
| ParseTime.dfy | the three forms of an HTTP date and Gauss' formula |
| Timers.dfy | event timers with keys that wrap |
| AcceptMutex.dfy | the accept mutex of the worker processes |
| Ocsp.dfy | the resumable parser of an OCSP responder's HTTP response |
| OcspStatus.dfy, OcspHead.dfy | what that parser reads and refuses, as texts: the status line, header lines and the whole head |
| Listening.dfy | the distribution of a port's addresses over listening sockets |
| QuickSort.dfy | quicksort in place with a hole |
| Md5Chain.dfy, FilterWords.dfy, TagStack.dfy | the md5 cipher, the word filter and the completion of unclosed tags in php/util |

Where the code does not do what one would want of it, the model keeps the code and the
exact condition under which it does is proved, with an input that shows it failing:

- The second allocation attempt of a cache lookup does not look the key up again
  (`CacheRuns.RetryUnique`, `CacheRuns.RetryRace`).
- A cache update clears the update flag whoever set it (`CacheRuns.UpdateClaims`,
  `CacheRuns.StolenClaim`).
- The length of a location tree node is one byte: the search is right for every URI
  exactly when no segment is longer than 255 bytes (`Locations.LookupAnswersIff`).
- January and February of the year 0 wrap the year of a date (`ParseTime.GaussExact`,
  `ParseTime.WrappedYear`); a day 0 is accepted and has the time of the last day of the
  month before (`ParseTime.DayZero`, `ParseTime.SameTime`); the second before the epoch,
  written as the last of 1969 or as a day 0 of 1970, has the value of an error, and no
  other accepted date has (`ParseTime.ErrorIff`).
- The absolute value in the lazy re-arming of timers overflows for keys 2^63 apart
  (`Timers.LazyIff`).
- A worker that skips the accept mutex polls its listening sockets beside the owner
  exactly when it enters with the flag of an earlier iteration
  (`AcceptMutex.WaitsWithoutMutex`, `AcceptMutex.OverlapIff`, `AcceptMutex.EntersStale`,
  `AcceptMutex.DisabledOverlap`).
- An opening tag in which the prefix of another void element occurs, say in an attribute,
  pops more than itself and breaks nesting, unless it is itself void and nothing is open
  (`TagStack.NestedIff`, `TagStack.LostTag`).
- A base64 text that contains the key is not restored (`Md5Chain.TextLayer`,
  `Md5Chain.DecryptsText`).

What code outside the vendored sources does is stated where it is used: ngx_filename_cmp
(Names), ngx_queue_* and the sort (queues are sequences), red-black rebalancing (any tree
with the same order from left to right), ngx_shmtx_*, ngx_chain_update_chains, the output
filter, recv_chain, file writes and SSL_write (steps that may do anything their contracts
allow).

## Model

| member | source | states |
|---|---|---|
| EventPipe.Pipe.Run | c/nginx-1.6.2/src/event/ngx_event_pipe.c:22-91 | One call of the pipe, in any interleaving of reads, spooling and writes and whatever the sockets and the output filter do: it ends, keeps the invariant `Inv` (byte order, placement of every raw buffer, busy bound, temporary file), reads exactly what the upstream says in order, sends only a prefix of what was received, and leaves `Finished` when the client side is done. It does not stop early: while the upstream is open it goes on until nothing can be read for now or there is no room, and a call that writes or has received anything leaves nothing that a ready client could still get, unless the busy buffers are full; a call in which the upstream ends finishes, and once it is closed one writing call finishes, unless the client fails. End, error and failed-client flags are set exactly by what recv_chain and the output filter answered, the upstream counts as done only with nothing left of the announced length, and the call gives up exactly when memory or a file write was refused |
| EventPipe.Pipe.Transfer | c/nginx-1.6.2/src/http/ngx_http_upstream.c:2996-3091 | Over any run of events, with the connections ready or not before each: when the upstream is closed and neither side has failed, exactly what the upstream sent, in order, has been sent to the client or is pending in its output filter, and with a cache the file holds the header and all of it; while it is open, after a last event that writes, whatever a ready client could get has been passed on unless the busy buffers are full |
| EventPipe.Pipe.RecvChain | c/nginx-1.6.2/src/event/ngx_event_pipe.c:272-300 | What is assumed of recv_chain: some bytes that fit the chain and are next in line, nothing yet, the end or a break |
| EventPipe.Pipe.constructor | c/nginx-1.6.2/src/http/modules/ngx_http_proxy_module.c:2555-2563 | A new pipe satisfies the invariant when the busy size is at most that of all raw buffers but one, as the configuration check demands |
| EventPipe.Pipe.NeverStarved | c/nginx-1.6.2/src/event/ngx_event_pipe.c:203-231 | When every raw buffer has been allocated and none is free, `in` holds something to spool; it follows from the busy bound |
| EventPipe.Pipe.ReadUpstream | c/nginx-1.6.2/src/event/ngx_event_pipe.c:100-448 | The upstream half keeps the invariant; the work left for it only shrinks, and strictly when it reports that it has read |
| EventPipe.Pipe.TakeChain | c/nginx-1.6.2/src/event/ngx_event_pipe.c:172-260 | Whichever way raw buffers are found (free, new, spooled or by blocking the upstream), the chain to read into is not empty and the books stay balanced; a blocked upstream means a full `in`, no free buffer and a writable client |
| EventPipe.Pipe.Distribute | c/nginx-1.6.2/src/event/ngx_event_pipe.c:304-340 | The bytes read go, in order, from the buffers of the chain through the input filter; what does not fill a buffer stays in the head of the free list and no other free buffer holds data |
| EventPipe.Pipe.CheckLength | c/nginx-1.6.2/src/event/ngx_event_pipe.c:383-420 | Reaching the announced length passes the partly filled head to the input filter, without losing or repeating a byte; the upstream is taken for done only when it has nothing more to say |
| EventPipe.Pipe.FinishRead | c/nginx-1.6.2/src/event/ngx_event_pipe.c:383-448 | At the end of a read the invariant is restored, including the hand-over of the partly filled buffer at end of file and the release of free buffers |
| EventPipe.Pipe.CopyInputFilter | c/nginx-1.6.2/src/event/ngx_event_pipe.c:851-890 | `in` grows by exactly the bytes of the raw buffer, which gets a last-shadow link; `busy` and `out` are untouched |
| EventPipe.Pipe.RemoveShadowLinks | c/nginx-1.6.2/src/event/ngx_event_pipe.c:893-922 | Cutting the shadow links of a raw buffer leaves bytes, chains and other buffers alone |
| EventPipe.Pipe.AddFreeBuf | c/nginx-1.6.2/src/event/ngx_event_pipe.c:925-970 | An emptied raw buffer joins the free list, never in front of a partly filled head, so the bytes waiting in the head survive |
| EventPipe.Pipe.DrainChains | c/nginx-1.6.2/src/event/ngx_event_pipe.c:973-1012 | After a downstream error `in`, `out` and `busy` are empty and every raw buffer they held is in the free list again |
| EventPipe.Pipe.WriteToDownstream | c/nginx-1.6.2/src/event/ngx_event_pipe.c:451-687 | The client half keeps the invariant and sends a prefix of what was received, in order; with an open upstream it returns only when the client is not ready, nothing is left to pass on, or the busy buffers leave no room |
| EventPipe.Pipe.Gather | c/nginx-1.6.2/src/event/ngx_event_pipe.c:574-619 | Buffers are taken from `out` and then `in`, in order, as long as the recycled ones fit the busy size |
| EventPipe.Pipe.PassGathered | c/nginx-1.6.2/src/event/ngx_event_pipe.c:621-674 | Passing the gathered chain to the output filter and releasing what it has sent keeps order and raw buffers |
| EventPipe.Pipe.ReclaimFree | c/nginx-1.6.2/src/event/ngx_event_pipe.c:652-676 | Every freed buffer gives its raw buffer back once, and only once |
| EventPipe.Pipe.UpdateChains | c/nginx-1.6.2/src/event/ngx_event_pipe.c:638-640 | What is assumed of ngx_chain_update_chains: sent buffers move from `busy` to `free`, the rest stays in order |
| EventPipe.Pipe.OutputFilter | c/nginx-1.6.2/src/event/ngx_event_pipe.c:636-648 | What is assumed of the output filter: it sends some prefix of what it was given and keeps the rest in order, or fails |
| EventPipe.Pipe.Flush | c/nginx-1.6.2/src/event/ngx_event_pipe.c:469-538 | When the upstream is closed everything left of `out` and `in` is passed on, and the pipe is finished |
| EventPipe.Pipe.SpoolPrefix | c/nginx-1.6.2/src/event/ngx_event_pipe.c:690-757 | How much of `in` goes to the temporary file: for a pipe without cache as much as the limits allow and no more, in whole raw buffers |
| EventPipe.Pipe.WriteChainToTempFile | c/nginx-1.6.2/src/event/ngx_event_pipe.c:682-848 | The spooled bytes move from `in` to the end of `out` and of the file, their raw buffers to the free list; the file never outgrows its limit without a cache, and with one holds the header and all that was spooled |
| EventPipe.Pipe.AppendToOut | c/nginx-1.6.2/src/event/ngx_event_pipe.c:759-805 | A file buffer is extended or added at the end of `out`, holding just the bytes written |
| PipeHeap.FillRoom | c/nginx-1.6.2/src/event/ngx_event_pipe.c:304-340 | The bytes that fit a chain of raw buffers, filled one after the other, are read back in order |
| PipeHeap.SendSplits | c/nginx-1.6.2/src/event/ngx_event_pipe.c:621-648 | Taking any number of bytes off the front of a chain splits its bytes there, across memory and file buffers |
| PipeHeap.InputStep | c/nginx-1.6.2/src/event/ngx_event_pipe.c:851-890 | The new shadow buffer keeps all chains separate and allocated, and no raw buffer has two owners |
| PipeHeap.SpoolStep | c/nginx-1.6.2/src/event/ngx_event_pipe.c:805-845 | Releasing a spooled buffer keeps the chains sound and gives back its raw buffer |
| PipeHeap.CollectCounts | c/nginx-1.6.2/src/event/ngx_event_pipe.c:543-563 | Moving buffers between chains never changes the number of raw buffers they hold |
| CacheTree.LessOrder | c/nginx-1.6.2/src/http/ngx_http_file_cache.c:820-860 | The order of word and remaining bytes is a strict total order on keys |
| CacheTree.Lookup | c/nginx-1.6.2/src/http/ngx_http_file_cache.c:775-817 | The descent finds an entry with the key if the tree has one, and reports none otherwise |
| CacheTree.InsertValue | c/nginx-1.6.2/src/http/ngx_http_file_cache.c:820-860 | The walk with its saved path hangs the node where the recursive insertion puts it |
| CacheTree.InsertInOrder | c/nginx-1.6.2/src/http/ngx_http_file_cache.c:820-860 | In the order of the tree a new entry stands behind everything not greater and before everything greater, so the tree stays sorted |
| CacheTree.WithoutSorted | c/nginx-1.6.2/src/http/ngx_http_file_cache.c:1161-1165 | Removal keeps the tree sorted |
| FileCache.Index.Exists | c/nginx-1.6.2/src/http/ngx_http_file_cache.c:631-736 | The first section of a lookup is the step `ExistsStep` of the runs below, which say what it answers, and keeps tree and queue over the same nodes |
| FileCache.Index.Refresh | c/nginx-1.6.2/src/http/ngx_http_file_cache.c:644-681 | A node found is counted, given a new time and put at the head of the queue, or renewed when its cached error has expired |
| FileCache.Index.Retry | c/nginx-1.6.2/src/http/ngx_http_file_cache.c:683-734 | The second section allocates again without a second lookup |
| FileCache.Index.Lock | c/nginx-1.6.2/src/http/ngx_http_file_cache.c:379-428 | The claim is taken exactly when nobody has it |
| FileCache.Index.Read | c/nginx-1.6.2/src/http/ngx_http_file_cache.c:515-566 | A stale entry is claimed unless it is being updated; a cold one is marked present |
| FileCache.Index.Update | c/nginx-1.6.2/src/http/ngx_http_file_cache.c:902-971 | The count goes down and the flag is cleared, whoever set it |
| FileCache.Index.Free | c/nginx-1.6.2/src/http/ngx_http_file_cache.c:1139-1183 | The count goes down; an absent file's node that nobody else counts is removed at once |
| FileCache.Index.Add | c/nginx-1.6.2/src/http/ngx_http_file_cache.c:1605-1655 | A file found on disk gets a node or refreshes the one there is |
| FileCache.Index.Delete | c/nginx-1.6.2/src/http/ngx_http_file_cache.c:1375-1407 | Up to the point where the mutex is dropped: the node is counted and marked |
| FileCache.Index.Deleted | c/nginx-1.6.2/src/http/ngx_http_file_cache.c:1409-1422 | After the mutex is taken again the node is removed unless it was taken meanwhile |
| FileCache.Index.ForcedExpire | c/nginx-1.6.2/src/http/ngx_http_file_cache.c:1223-1284 | Without interference, of the last 20 nodes of the queue the one nearest the tail that nobody holds is deleted, and the result tells which case it was |
| FileCache.Index.Expire | c/nginx-1.6.2/src/http/ngx_http_file_cache.c:1286-1372 | Without interference the loop ends; what it took off the tail had expired, went if unheld and is back at the head in the old order if held; the rest is unchanged; nothing expired remains unless it stopped at a node being deleted |
| FileCache.SweptAll | c/nginx-1.6.2/src/http/ngx_http_file_cache.c:1311-1327 | Looking only at the tail is enough: once it has not expired, nothing has |
| FileCache.SweptNewest | c/nginx-1.6.2/src/http/ngx_http_file_cache.c:1349-1359 | The queue stays ordered by time of expiry, newest first |
| FileCache.AddedIndexed | c/nginx-1.6.2/src/http/ngx_http_file_cache.c:705-720 | A new node keeps tree and queue over the same nodes, each once and under its key |
| FileCache.RemovedIndexed | c/nginx-1.6.2/src/http/ngx_http_file_cache.c:1417-1421 | So does removing one |
| CacheRuns.StepSafe | c/nginx-1.6.2/src/http/ngx_http_file_cache.c:631-736 | Every section of every process, interleaved at the mutex, keeps the invariant: index over the same nodes, queue ordered by expiry, and each count equal to the requests holding the node and not yet updated, plus one while it is being deleted |
| CacheRuns.RunSafe | c/nginx-1.6.2/src/http/ngx_http_file_cache.c:1375-1422 | That holds in every state of every run, including the window inside delete |
| CacheRuns.NothingDangles | c/nginx-1.6.2/src/http/ngx_http_file_cache.c:1144-1180 | In every run a request's node is allocated, in tree and queue; a node is removed only when nobody but the request freeing it holds it; a deletion's node is still there when the mutex is taken again; the tail of the queue is the first to expire |
| CacheRuns.RunOwnKeys | c/nginx-1.6.2/src/http/ngx_http_file_cache.c:638-734 | In every run a request that holds a node holds one of its own key |
| CacheRuns.LookupIsMap | c/nginx-1.6.2/src/http/ngx_http_file_cache.c:775-817 | With one node per key, lookup in the tree is lookup in a map from keys to nodes |
| CacheRuns.RetryUnique | c/nginx-1.6.2/src/http/ngx_http_file_cache.c:683-703 | The second allocation attempt keeps one node per key exactly when the slab is still full or the key is still absent |
| CacheRuns.RetryRace | c/nginx-1.6.2/src/http/ngx_http_file_cache.c:683-703 | A run of two requests in which the key is not absent any more, and two nodes for it come to be |
| CacheRuns.StepUnique | c/nginx-1.6.2/src/http/ngx_http_file_cache.c:638-642 | No other step makes a second node for a key |
| CacheRuns.RunUnique | c/nginx-1.6.2/src/http/ngx_http_file_cache.c:631-736 | So in every run whose second attempts meet that condition each key has one node |
| CacheRuns.UpdateClaims | c/nginx-1.6.2/src/http/ngx_http_file_cache.c:956-971 | An update keeps "the flag stands for exactly one request" exactly when the request had the claim or nobody had |
| CacheRuns.StolenClaim | c/nginx-1.6.2/src/http/ngx_http_file_cache.c:956-971 | A run in which an update without the claim clears another's flag, and two requests update one node at a time |
| CacheRuns.StepClaims | c/nginx-1.6.2/src/http/ngx_http_file_cache.c:391-398 | Every other step keeps the claims right |
| CacheRuns.RunClaims | c/nginx-1.6.2/src/http/ngx_http_file_cache.c:379-428 | So in every run whose updates meet that condition |
| CacheRuns.OneUpdater | c/nginx-1.6.2/src/http/ngx_http_file_cache.c:391-398 | With claims right, two requests never update the same node |
| CacheAnswers.CachedError | c/nginx-1.6.2/src/http/ngx_http_file_cache.c:645-662 | In every run an error recorded with a time is told, with an Ok, to every lookup of the node up to that time and to none after it; the first later lookup is declined and leaves neither error nor file nor time |
| CacheAnswers.ErrorStays | c/nginx-1.6.2/src/http/ngx_http_file_cache.c:1155-1168 | Nothing else touches a recorded error: it stays until a lookup after its time or until another one is recorded |
| CacheAnswers.FindsTells | c/nginx-1.6.2/src/http/ngx_http_file_cache.c:645-678 | What one lookup of a found node answers for each state of it, and that only the first of a request counts as a use |
| CacheAnswers.MinUses | c/nginx-1.6.2/src/http/ngx_http_file_cache.c:648-678 | In every run a node without an error is given exactly when its file is there or its making and the requests that looked it up since then reach the uses asked for, counted in ten bits |
| CacheAnswers.LockTells | c/nginx-1.6.2/src/http/ngx_http_file_cache.c:379-428 | While claims are right, a request that wants the lock goes on exactly with the claim, and waits exactly when another request has it |
| CacheAnswers.ReadTells | c/nginx-1.6.2/src/http/ngx_http_file_cache.c:515-566 | While claims are right, the reader of a stale entry becomes the one to update it exactly when nobody is |
| CacheAnswers.UpdateTells | c/nginx-1.6.2/src/http/ngx_http_file_cache.c:956-971 | After an update the claim is gone and the node has a file exactly when it had one or the new one was renamed into place |
| CacheAnswers.FreeTells | c/nginx-1.6.2/src/http/ngx_http_file_cache.c:1144-1175 | Letting go of a node removes it exactly when there is neither error nor file, one use is enough, and nobody else holds it or is deleting it |
| CacheAnswers.DeletedTells | c/nginx-1.6.2/src/http/ngx_http_file_cache.c:1409-1422 | The second half of a delete removes the node exactly when nobody has taken it in the window |
| Locations.AddLocation | c/nginx-1.6.2/src/http/ngx_http.c:844-888 | A static location enters the queue with its configuration under the one kind it asks for |
| Locations.SortedIsTable | c/nginx-1.6.2/src/http/ngx_http.c:891-961 | A queue sorted by the comparison is ordered by name, unnamed kinds aside, exact before inclusive |
| Locations.JoinExactLocations | c/nginx-1.6.2/src/http/ngx_http.c:964-1002 | The loop over the queue computes the joined queue or reports a duplicate |
| Locations.JoinKeepsTable | c/nginx-1.6.2/src/http/ngx_http.c:964-1002 | Joining fails exactly when an exact or inclusive name occurs twice; otherwise names strictly increase and every name has the exact and the inclusive configuration it had |
| Locations.CreateLocationsList | c/nginx-1.6.2/src/http/ngx_http.c:1005-1061 | The splitting of the queue in place computes the nested list |
| Locations.ListKeepsTable | c/nginx-1.6.2/src/http/ngx_http.c:1005-1061 | Flattening the nested list gives the queue back, and each nested list holds exactly the later names that begin with the name of its inclusive owner |
| Locations.CreateLocationsTree | c/nginx-1.6.2/src/http/ngx_http.c:1064-1139 | The splitting at the middle computes the tree |
| Locations.WalkGivesTable | c/nginx-1.6.2/src/http/ngx_http.c:1064-1139 | Walking the tree in order and putting the path before each name gives back the same entries in the same order |
| Locations.LevelsAreBalanced | c/nginx-1.6.2/src/http/ngx_http.c:1108-1131 | A level of n entries has height at most 1 + log2 n |
| Locations.FindStaticLocation | c/nginx-1.6.2/src/http/ngx_http_core_module.c:1620-1696 | The loop of the search computes the recursive descent |
| Locations.LookupAnswersLevel | c/nginx-1.6.2/src/http/ngx_http_core_module.c:1620-1696 | The search of one level with everything nested in it gives what scanning its entries for an exact match and then for the longest inclusive prefix gives, including automatic redirects, as long as the segments fit |
| Locations.InitStaticLocations | c/nginx-1.6.2/src/http/ngx_http.c:798-841 | Compilation fails exactly on a duplicate and otherwise gives the tree of the theorem below |
| Locations.LookupAnswersTable | c/nginx-1.6.2/src/http/ngx_http.c:964-1139 | Searching the compiled tree for any URI answers as scanning the original queue would: exact match first, then the longest inclusive prefix, then the redirect |
| Locations.LookupAnswersIff | c/nginx-1.6.2/src/http/ngx_http.c:1081-1099 | When every location has a configuration of its own, the search is right for every URI exactly when every segment of a name fits the one-byte length of its node |
| Locations.LongWitness | c/nginx-1.6.2/src/http/ngx_http.c:1081-1099 | A segment that is too long, at any depth, yields a URI for which the search passes an exact location by or enters an inclusive one whose name does not start the URI |
| Locations.OneLocationIff | c/nginx-1.6.2/src/http/ngx_http.c:1081-1099 | For a single location that is: exactly when its name has at most 255 bytes |
| SslSend.Connection.SendChain | c/nginx-1.6.2/src/event/ngx_event_openssl.c:1183-1337 | The call fails exactly when there is no memory for the buffer it needs or SSL_write reported an error, never because a write would block. Bytes SSL_write took, the buffer and the chain returned are together always the bytes there were, in order, and a failing write has sent only a prefix of them; with a buffer no more is copied than the limit leaves beside what was buffered, a flush asked for stays recorded until everything before it is sent, and without flush or full buffer nothing is written; unless SSL_write is held up everything up to the limit is copied and no flush is left open; without a buffer the chain returned starts with the bytes to be retried |
| SslSend.Connection.Pump | c/nginx-1.6.2/src/event/ngx_event_openssl.c:1247-1337 | The outer loop ends, fails exactly when SSL_write reported an error, and keeps `Keeps` between the start of the call and its end |
| SslSend.Connection.Gather | c/nginx-1.6.2/src/event/ngx_event_openssl.c:1249-1287 | The copying loop moves bytes from the chain to the buffer in order until buffer or limit is full or the chain is used up, and sees every mark it passes |
| SslSend.Connection.SendPlain | c/nginx-1.6.2/src/event/ngx_event_openssl.c:1191-1218 | Without a buffer the call stops early exactly when SSL_write wants a retry and fails exactly when it reported an error |
| SslSend.Connection.SslWrite | c/nginx-1.6.2/src/event/ngx_event_openssl.c:1340-1372 | What is assumed of SSL_write; a retry must begin with the bytes that were refused |
| SslSend.KeepsGathered | c/nginx-1.6.2/src/event/ngx_event_openssl.c:1249-1287 | A round of the copying loop keeps stream, limit and marks |
| SslSend.KeepsWritten | c/nginx-1.6.2/src/event/ngx_event_openssl.c:1301-1317 | A write, complete or not, keeps them |
| SslSend.MarksDone | c/nginx-1.6.2/src/event/ngx_event_openssl.c:1319-1326 | When the buffer has drained no mark that was passed is still owed |
| ParseTime.Parse | c/nginx-1.6.2/src/http/ngx_http_parse_time.c:14-276 | Every character looked at lies inside the value; a date that is accepted yields its Unix time, anything else the error value |
| ParseTime.ParseFields | c/nginx-1.6.2/src/http/ngx_http_parse_time.c:60-219 | The cursor reads exactly the fields that the three layouts define, at fixed places |
| ParseTime.Evaluate | c/nginx-1.6.2/src/http/ngx_http_parse_time.c:221-276 | Fields out of range are refused and the formula is applied to the rest, on unsigned 64-bit numbers |
| ParseTime.GaussExact | c/nginx-1.6.2/src/http/ngx_http_parse_time.c:244-266 | For all accepted dates the formula equals the days counted year by year and month by month times 86400 plus the time of day, except exactly January and February of the year 0, where the year wraps |
| ParseTime.WrappedYear | c/nginx-1.6.2/src/http/ngx_http_parse_time.c:244-266 | For January and February of the year 0 the result is 10368 more than the time |
| ParseTime.TimeMonotone | c/nginx-1.6.2/src/http/ngx_http_parse_time.c:244-266 | Of two dates with days of at least 1 the later has the greater time |
| ParseTime.TimeInjective | c/nginx-1.6.2/src/http/ngx_http_parse_time.c:244-266 | Dates with days of at least 1 and the same time are the same |
| ParseTime.ReadsForms | c/nginx-1.6.2/src/http/ngx_http_parse_time.c:28-33 | Each of the three forms of section 7.1.1.1 of RFC 7231, after any name of a day and before any tail, is read as the date it was written for |
| ParseTime.FormsAgree | c/nginx-1.6.2/src/http/ngx_http_parse_time.c:28-33 | The three forms of one instant from 1970 to 2069 give the same Unix time |
| ParseTime.DayZero | c/nginx-1.6.2/src/http/ngx_http_parse_time.c:225-233 | Every accepted day 0, but those before the year 0, has the time of the last day of the month before, which is an accepted date of its own |
| ParseTime.SameTime | c/nginx-1.6.2/src/http/ngx_http_parse_time.c:225-266 | Two accepted dates have the same time exactly when they are the same once a day 0 is read as the last day of the month before |
| ParseTime.ErrorIff | c/nginx-1.6.2/src/http/ngx_http_parse_time.c:258-276 | An accepted date has the value of an error exactly when it is the second before the epoch, as the last day of 1969 or as a day 0 of January 1970 |
| ParseTime.ErrorMeans | c/nginx-1.6.2/src/http/ngx_http_parse_time.c:14-276 | The parser returns the error value for exactly the values it cannot read, the dates out of range and those two |
| Timers.DiffExact | c/nginx-1.6.2/src/event/ngx_event_timer.c:69-71 | A wrapped difference of keys is the true difference of times exactly when that fits 64 signed bits |
| Timers.LazyIff | c/nginx-1.6.2/src/event/ngx_event_timer.h:66-85 | The lazy test means "less than 300 ms apart" for all keys except those exactly 2^63 apart |
| Timers.Wheel.Add | c/nginx-1.6.2/src/event/ngx_event_timer.h:58-99 | After any sequence of calls an armed timer is less than 300 ms from the deadline last asked for, and the tree is ordered by time across wrap-around |
| Timers.Wheel.Del | c/nginx-1.6.2/src/event/ngx_event_timer.h:32-55 | A disarmed timer is gone and no other is touched |
| Timers.Wheel.FindTimer | c/nginx-1.6.2/src/event/ngx_event_timer.c:51-73 | The result is the time to the first deadline, 0 if one has passed, infinite if there is none |
| Timers.Wheel.ExpireTimers | c/nginx-1.6.2/src/event/ngx_event_timer.c:76-155 | When handlers arm only their own timer and not for the present, every due timer fires exactly once, in key order, and none is due at the end |
| Timers.PlaceInOrder | c/nginx-1.6.2/src/event/ngx_event_timer.h:92-94 | A key goes behind all not later and before all later ones although keys wrap |
| Timers.FiringEnd | c/nginx-1.6.2/src/event/ngx_event_timer.c:84-151 | When the first timer left is not due, exactly the due ones have fired and the rest is as it was |
| AcceptMutex.Worker.TryLockAcceptMutex | c/nginx-1.6.2/src/event/ngx_event_accept.c:369-407 | The mutex is taken with all listening sockets active, or not and all of them inactive; the call fails exactly when an event could not be added or deleted, and then gives the mutex back |
| AcceptMutex.Worker.EnableAcceptEvents | c/nginx-1.6.2/src/event/ngx_event_accept.c:410-440 | On success every listening socket is active; it fails exactly when an event is refused, at the socket where the activation then stops |
| AcceptMutex.Worker.DisableAcceptEvents | c/nginx-1.6.2/src/event/ngx_event_accept.c:443-474 | On success none is; it fails exactly when an event is refused, at the socket where the deactivation then stops |
| AcceptMutex.Worker.Enter | c/nginx-1.6.2/src/event/ngx_event.c:224-245 | The start of an iteration is a step of the protocol unless an event cannot be added or deleted; then, and only then, it fails, mutex, flag and counter are as before, and exactly the sockets before the refused one are as was tried |
| AcceptMutex.Worker.Exhausted | c/nginx-1.6.2/src/event/ngx_event_accept.c:114-132 | So is running out of file descriptors, which fails in the same way and under the same condition |
| AcceptMutex.Worker.Leave | c/nginx-1.6.2/src/event/ngx_event.c:259-261 | So is the release after the posted accept events |
| AcceptMutex.Worker.constructor | c/nginx-1.6.2/src/event/ngx_event.c:838-844 | A worker starts with no active listening socket and without the flag |
| AcceptMutex.StepAgrees | c/nginx-1.6.2/src/event/ngx_event.c:224-261 | Every step of any worker keeps: flag set and all sockets active, or flag clear and none; the mutex is owned exactly by the worker that got it in its current iteration |
| AcceptMutex.RunAgrees | c/nginx-1.6.2/src/event/ngx_event.c:224-261 | That holds in every state of every run |
| AcceptMutex.OneListener | c/nginx-1.6.2/src/event/ngx_event.c:224-261 | The mutex is free between the iterations of its owner, and of the workers whose iteration went for it at most one waits for connections |
| AcceptMutex.Takes | c/nginx-1.6.2/src/event/ngx_event.c:224-245 | In every run a worker that goes for the mutex gets it exactly when it is free, and then waits for connections on all its sockets, otherwise on none |
| AcceptMutex.Skips | c/nginx-1.6.2/src/event/ngx_event.c:224-227 | In every run a worker whose counter is d keeps away from the mutex for exactly its next d iterations, unless it accepts or runs out of descriptors in between |
| AcceptMutex.WaitsWithoutMutex | c/nginx-1.6.2/src/event/ngx_event.c:224-227 | In every state of every run a polling worker waits for connections without the mutex exactly when it has not gone for it in this iteration, still has the flag, and has any socket |
| AcceptMutex.OverlapIff | c/nginx-1.6.2/src/event/ngx_event.c:224-261 | So two workers wait at once exactly when one is in that state and the other is too or owns the mutex |
| AcceptMutex.EntersStale | c/nginx-1.6.2/src/event/ngx_event.c:224-227 | A step leads into that state exactly when it enters the branch for a positive counter with the flag set |
| AcceptMutex.DisabledOverlap | c/nginx-1.6.2/src/event/ngx_event.c:224-227 | A run in which that happens: a worker that skips the mutex waits for connections beside its owner |
| Ocsp.Responder.Receive | c/nginx-1.6.2/src/event/ngx_event_openssl_stapling.c:1033-1049 | However the bytes have come in, the context is the one that reading all of them at once leaves, and the response is refused exactly when reading it at once refuses it |
| Ocsp.Responder.Close | c/nginx-1.6.2/src/event/ngx_event_openssl_stapling.c:1061-1075 | The response is complete exactly when its body was reached |
| Ocsp.Responder.ParseStatusLine | c/nginx-1.6.2/src/event/ngx_event_openssl_stapling.c:1240-1438 | The byte loop computes the automaton of the status line from the saved state; what that reads is stated below |
| Ocsp.Responder.ParseHeaderLine | c/nginx-1.6.2/src/event/ngx_event_openssl_stapling.c:1514-1698 | The byte loop computes the automaton of the headers up to the end of a line |
| Ocsp.Responder.ProcessHeaders | c/nginx-1.6.2/src/event/ngx_event_openssl_stapling.c:1441-1512 | Header lines are read until the empty one; a content type other than that of an OCSP response is refused |
| Ocsp.FeedAny | c/nginx-1.6.2/src/event/ngx_event_openssl_stapling.c:1240-1438 | Feeding a response in any split into reads gives the outcome of feeding it at once |
| Ocsp.RunSplit | c/nginx-1.6.2/src/event/ngx_event_openssl_stapling.c:1514-1698 | Stopping after any number of bytes and going on later is the same as not stopping |
| Ocsp.HeaderSound | c/nginx-1.6.2/src/event/ngx_event_openssl_stapling.c:1514-1698 | The saved pointers are always in order, and a completed line has a name of letters, digits and dashes and a value with no space at either end |
| Ocsp.ReadsLine | c/nginx-1.6.2/src/event/ngx_event_openssl_stapling.c:1514-1698 | A line made of a name, a colon, spaces, a value that may have spaces inside, more spaces and a line break is read as exactly that name and value |
| OcspStatus.ReadsStatusLine | c/nginx-1.6.2/src/event/ngx_event_openssl_stapling.c:1240-1438 | "HTTP/", a major number that does not begin with 0, ".", a minor number, spaces, three digits a b c, an optional text and a line break lead to the headers with the code 100a + 10b + c and the position behind the line break |
| OcspStatus.StatusRefusedIff | c/nginx-1.6.2/src/event/ngx_event_openssl_stapling.c:1240-1438 | A response is refused in its status line exactly when neither it nor a continuation of it begins with such a line |
| OcspHead.HeaderRead | c/nginx-1.6.2/src/event/ngx_event_openssl_stapling.c:1441-1698 | A header line in any of its forms is passed over, and refused exactly when it is a content type other than that of an OCSP response |
| OcspHead.LineRefusedIff | c/nginx-1.6.2/src/event/ngx_event_openssl_stapling.c:1514-1698 | A header line is malformed exactly when no continuation of it is a header line or the empty one |
| OcspHead.BlankRead | c/nginx-1.6.2/src/event/ngx_event_openssl_stapling.c:1493-1511 | The empty line leads to the body, right behind it |
| OcspHead.BodyIff | c/nginx-1.6.2/src/event/ngx_event_openssl_stapling.c:1240-1511 | The body of a response is reached exactly when it begins with a status line, header lines none of which has another content type, and an empty line; it begins right behind that line, with the code of the status line |
| QuickSort.Sort | c/basic_sort/quick_sort.c:3-49 | The segment is sorted and a permutation of what it was, and nothing outside it has changed |
| QuickSort.Partition | c/basic_sort/quick_sort.c:13-38 | The loop ends even on runs of duplicates; the pivot is in its place, smaller elements before it and the others behind, all a permutation |
| QuickSort.MoveHole | c/basic_sort/quick_sort.c:25-29 | Copying an element into the hole keeps the array, with the pivot in the hole, a permutation |
| QuickSort.RearrangedSegment | c/basic_sort/quick_sort.c:42-48 | A permutation that moves nothing outside a segment permutes the segment |
| QuickSort.SortedParts | c/basic_sort/quick_sort.c:42-48 | Sorting both sides of a partition sorts the whole |
| Listening.InitListening | c/nginx-1.6.2/src/http/ngx_http.c:1671-1747 | Every address of the port is in exactly one socket's list, in order; explicit addresses, and without a wildcard all, have a socket of their own, the others are left to the wildcard's |
| Listening.SortedIsRanked | c/nginx-1.6.2/src/http/ngx_http.c:1625-1656 | Neighbours in order under the comparison mean: explicit addresses first, then implicit ones, then at most one wildcard |
| Md5Chain.Encrypt | php/util/GlobalFunc.php:167-178 | The loop computes the chain over the padded text |
| Md5Chain.Decrypt | php/util/GlobalFunc.php:191-205 | The loop computes the inverse chain and strips the padding |
| Md5Chain.UnchainChain | php/util/GlobalFunc.php:172-203 | The inverse chain undoes the chain for every initial vector and password |
| Md5Chain.DecryptsEncrypted | php/util/GlobalFunc.php:167-205 | Decryption gives back every text, including those that end in the mark or in zero bytes |
| Md5Chain.CipherBlock | php/util/GlobalFunc.php:172-178 | Block j of the cipher is block j of the text under the md5 of the vector that the cipher blocks before it leave |
| Md5Chain.NextIvBytes | php/util/GlobalFunc.php:176 | Each new vector is the last cipher block in front of the old vector, cut to 512 bytes and to the password, under the password |
| Md5Chain.IvReaches | php/util/GlobalFunc.php:172-178 | So the vector holds the earlier cipher blocks, newest first, the block q + 1 blocks back in group q under q + 1 stretches of the password |
| Md5Chain.UnpadZeros | php/util/GlobalFunc.php:168-170 | The mark and the zeros behind it are the only bytes stripped |
| Md5Chain.TextLayer | php/util/GlobalFunc.php:180-192 | Replacing slashes by the key and back gives the text exactly when it did not contain the key, in any case |
| Md5Chain.DecryptsText | php/util/GlobalFunc.php:165-205 | Both layers together, with any text form that can be read back, restore every text whose encoded cipher does not contain the key |
| FilterWords.Filter.constructor | php/util/FilterWords.php:9-30 | Every listed word is once in the class of its first character, and nothing else is in any class |
| FilterWords.Filter.Replace | php/util/FilterWords.php:68-96 | A character is masked exactly when an occurrence of a listed word in the original text covers it; all others and the length stay |
| FilterWords.Filter.ClassIsEnough | php/util/FilterWords.php:79-90 | Looking only at the words of the class of a character misses no occurrence that begins there |
| TagStack.AutoComplete | php/util/StrFilter.php:89-190 | The result, cut or not, is well nested exactly when every opening tag that was read is fair: no prefix of a void element but its own occurs in it, or it is void itself and nothing is open below it |
| TagStack.FoldBalanced | php/util/StrFilter.php:89-178 | While the tags are fair the stack is what the result so far leaves open |
| TagStack.NestedIff | php/util/StrFilter.php:131-139 | What an unfair tag pops is never found again, so the completed text is nested exactly when all tags were fair |
| TagStack.LostTag | php/util/StrFilter.php:131-139 | Inside an open div a tag with one foreign prefix loses nesting, unless it is void and the div has just been closed as one that does not nest |
| TagStack.TextKept | php/util/StrFilter.php:168-182 | Up to the token that goes over the limit all text, comments and self-closing tags come through unchanged and in order, and that token is cut so that the text has one character more than the limit, if it has that many |
| TagStack.CloseAllPlains | php/util/StrFilter.php:186-189 | Closing what is left open adds no text |
| TagStack.NestedUnchanged | php/util/StrFilter.php:89-178 | Nested fair tags in the wanted case come out as they went in when nothing is kept from nesting and there is no limit |
| TagStack.Idempotent | php/util/StrFilter.php:89-190 | Completing a completed text again changes nothing, nested or not |

## Left out

- Locations.LookupAnswersTable: asks that every segment of a name fit the one-byte length of its tree node, which `Locations.LookupAnswersIff` shows to be necessary. It also asks that automatic redirects stand only on names that end in a slash, as ngx_http_proxy_module.c:3150-3152 and its siblings set them.
- Locations: regular expression, named and nameless locations, and the merging of configurations; locations are values in a sequence, so the relinking of queue nodes in place is not captured.
- EventPipe.Pipe.constructor: asks that the upstream send no more than the announced length.
- EventPipe: cyclic temporary files, preread buffers, the kqueue branch, the thread flag, limit rates, timers and timeouts, slices of one raw buffer in several shadows, failure to allocate a chain link, AIO.
- EventPipe.Pipe.OutputFilter: buffers are numbers into a heap of values, so pointer aliasing appears as equality of numbers.
- CacheRuns.StepSafe: a request arrives only while there are fewer than 2^20 - 2, the width of the count field; beyond that the count wraps and says nothing.
- CacheRuns: a request that has let go of its node does not open again, as ngx_http_upstream.c:431 makes a new one; the sizes of entries (a node taken in the window of a delete, or renewed after a cached error, breaks their sum), the cache loader's pacing, file names, unlinking and renaming are steps that may fail or are absent.
- FileCache: what a lookup copies out of the node to open the file (presence, unique number, offset of the body), and the opening itself, ngx_http_file_cache.c:231-376.
- FileCache.Index.AddNode: where the slab finds memory and how the tree rebalances is left open.
- FileCache.Index.ForcedExpire: stated without interference; CacheRuns lets any process delete any uncounted node, which covers what the loop picks under interference.
- FileCache.Index.Expire: stated without interference, with an inactive time of at least one second.
- SslSend.Connection.SslWrite: handlers, renegotiation and error reporting of OpenSSL are not modelled; reading and shutdown are left out.
- SslSend: buffers held in files, which this function never gets, and ngx_ssl_free_buffer.
- ParseTime: characters stand for bytes; the 32-bit time_t branch is left out.
- Timers.Wheel.Add: the deadline asked for and those of all timers must lie within 2^63 ms of each other and of the present.
- Timers.Wheel.ExpireTimers: handlers that touch other timers are left out, as are threads.
- AcceptMutex.Worker.Enter: the protocol's runs are those without a failure to add or delete an event; what such a failure leaves behind is stated, but no run goes on from there.
- AcceptMutex: signal-driven and completion-port events, and workers without an accept mutex.
- Ocsp: sending the request, resolving, timeouts, and the certificate checks on the body.
- Listening: the copying of server names and options into a socket's list; the sort itself is taken to leave no neighbours out of order.
- QuickSort: the trace output of each call.
- Md5Chain: base64 and the source of random bytes; `md5e` calls it under a name that the class does not have, so the initial vector is an argument.
- FilterWords: the cache, the database, the remote matching service and `replace_new`; comparison of numeric words.
- TagStack: the regular expressions that split and classify the text (a token comes with its name, with whether that is a void element, and with the number of other prefixes in it), the CLOSE mode, and a closing tag named 0 on an empty stack.
- ngx_event_busy_lock.c, ngx_event_mutex.c, ngx_http_postpone_filter_module.c, other sorts and algorithms, scrapers and wrappers: plumbing, broken or easy.
