# Proofs about the Subversion client, its SSL pump and the certificate authority it carries

This project models the parts of the repository that hold most of its state, and proves what they
promise. Each module follows one component:

- **Iterable**, **CallbackData**, **Rendezvous**: a worker thread hands values from libsvn callbacks,
  through the event loop and a one-slot iterator, to a JavaScript consumer, and blocks until each value
  is consumed. `Iterable.Iterator` is the object with its fields; `Rendezvous` is the transition system
  of worker, loop, consumer, garbage collector and completion, with `next` (and a collection) possible
  while `resolve` runs the microtasks.
- **AsyncCall**: any number of threads calling into the loop through one libuv handle.
- **OnceInit**: the once-initialiser of the SSL library, for any number of threads.
- **SslPump**: serf's SSL context, its two bio functions, the handshake, `ssl_encrypt` and
  `ssl_decrypt`, around an SSL engine that may do anything. The engine reads and writes only through
  the bio functions, and its write takes all of a buffer or nothing. Ghost fields hold the history of
  the plaintext and of both ciphertext flows.
- **Alpn**: the two encoders of a protocol list, one with a moving pointer, one patching length bytes in
  afterwards. Both are proved equal to one function, whose results decode to the items.
- **SubjectGrammar**, **SubjectName**: the distinguished-name parser, over arrays, against a grammar and
  a printer.
- **Policy**, **Extensions**: the policy loop with its nested searches, and the extension merge.
- **RevocationInfo**, **Serials**, **Expiry**, **CaTable**, **CaRuns**, **CaNames**: the revocation field, the
  serial column and its comparison, the comparison of dates, the table with its two indexes under issuing,
  revoking, expiring and reloading, whole runs of these, and which names they take for taken.
- **Rotation**, **Commit**: renaming staged files over live ones with rollback, and the whole run of the
  `ca` command that issues a batch.

Algorithms that work on arrays or on fields are methods, each equated with a function or given its whole
new state; the properties are lemmas about those functions. Concurrent parts are transition systems: a
run is any sequence of moves, a disabled move changes nothing, and a theorem about `Run` holds of every
interleaving. Whatever the environment decides (the SSL engine, a rename being denied, whether a send
works) is a nondeterministic choice.

Where the code differs from what its documentation or the standard it follows says, the model does what
the code does, the exact condition for agreement is proved, and a witness shows it failing:

- an element joined with `+` to one that was skipped lands in an earlier relative name
  (`GroupingExactlyWhen`, `SkippedHeadRegroups`);
- copy-all mode loses repeated extensions of a type (`CopyAllKeepsAllExactlyWhen`, `RepeatedTypeLosesOne`);
- dates are compared with a two-digit pivot also where one of them is a GeneralizedTime: with the clock
  between 2021 and 2049 those of 2050 to 2099 are taken for expired, with any clock from 2000 to 2049 the
  one that stands for no expiration is, and with a clock from 2050 on dates before 2050 may be missed
  (`MarkedCorrectlyExactlyWhen`, `LateTimesAreMarked`, `NeverExpiringIsMarked`, `MarkedTooEarly`, `MarkedTooLate`);
- empty protocol names are let through, which section 3.1 of RFC 7301 forbids (`ConformsExactlyWhen`,
  `EmptyNameIsLetThrough`);
- a serial row in lower case, or negative with a superfluous zero byte, passes the load-time check and is not found
  by its number (`FoundExactlyWhen`, `LowerCaseIsNotFound`, `PaddedNegativeIsNotFound`);
- a table that revoking has left may not load again, if the certificate's date is not well formed or the clock
  prints GeneralizedTime (`RevokeLoads`, `CaRuns.RunLoadsExactlyWhen`, `MalformedDateIsAdded`, `LateClockIsRecorded`);
- revoking a certificate from elsewhere may add a row at or above the serial counter, which then gets stuck there
  (`CaRuns.RunStaysBelowExactlyWhen`, `ForeignSerialBlocksCounter`);
- a rotation that fails while a live file is missing brings back an old backup, if there is one
  (`Rotation.Disk.RotateSerial`, `Rotation.IndexRotated`, `StaleSerialComesBack`, `StaleIndexComesBack`,
  `StaleAttributesComeBack`);
- when the iterator is released before the completion runs, an exception escapes from the completion
  (`EscapesExactlyWhen`, `AnEscape`);
- a second `next` before the first is answered leaves the first promise open for ever
  (`ForgetsExactlyWhen`, `SecondNextForgetsFirst`).

## Model

| member | source | states |
|---|---|---|
| `Iterable.Iterator.Destructor` | src/node/iterable.hpp:92-98 | a collected iterator breaks the promise of a value nobody asked for, and only that one; the promise is still unset then |
| `Iterable.Iterator.Next` | src/node/iterable.hpp:156-174 | hands out the promise already settled and releases the worker, or stores a new one; the worker's promise is never set a second time |
| `Iterable.Iterator.RunMicrotasks` | src/node/iterable.hpp:141 | whatever JavaScript does re-entrantly, calls of `next` or a collection, keeps the slot consistent |
| `Iterable.Iterator.Resolve` | src/node/iterable.hpp:100-144 | throws exactly for a waiting value or a released iterator, in that order and changing nothing; otherwise settles the waiting promise or a new one, and returns the future after the microtasks |
| `Iterable.FutureSays` | src/node/iterable.hpp:100-144 | the worker's future is kept exactly when somebody was waiting or asked in the microtasks, broken exactly when the iterator was collected first, open otherwise |
| `Iterable.ConsumeStays` | src/node/iterable.hpp:156-174 | once consumed, a value's promise is touched by no later `next` or collection |
| `Iterable.ForgetsExactlyWhen` | src/node/iterable.hpp:100-174 | over any run of hand-overs, calls of `next` and a collection, a promise that nothing will settle is left exactly when some `next` was called while an earlier one was unanswered |
| `Iterable.ForgottenStaysOpen` | src/node/iterable.hpp:156-174 | a promise the slot no longer knows is never settled |
| `Iterable.SecondNextForgetsFirst` | src/node/iterable.hpp:167-171 | after two calls of `next` in a row the first promise is never settled, whatever follows |
| `CallbackData.Data.Invoke` | src/cpp/client.cpp:52-61 | an exception is recorded and turned into a cancellation; a callback that returns leaves the record alone |
| `CallbackData.Data.CheckResult` | src/cpp/client.cpp:63-70 | a recorded exception wins over the library's status; otherwise the very error the library returned is thrown |
| `CallbackData.Data.Call` | src/cpp/client.cpp:46-75 | after any sequence of callbacks and any status, the exception of the last callback that threw is rethrown; if none threw, the library's error is thrown, and without one the call returns |
| `CallbackData.LastExceptionStays` | src/cpp/client.cpp:52-61 | what is on record is the exception of the last callback that threw |
| `CallbackData.NothingNewRecorded` | src/cpp/client.cpp:52-61 | callbacks that return leave the record as it was |
| `CallbackData.ReturnsExactlyWhen` | src/cpp/client.cpp:52-70 | a call returns normally exactly when no callback threw and the library reported no error |
| `Rendezvous.StepKeepsInvariant` | src/node/iterable.hpp:92-174 | every move of worker, loop, consumer, collector and completion keeps slot, consumer and worker in step |
| `Rendezvous.ObservedIsFaithful` | src/node/iterable.hpp:100-174 | in every interleaving the consumer observes the values in order, none lost or repeated, then at most one end, after all of them, or one library error, after every value sent before it |
| `Rendezvous.ConsumedOnce` | src/node/iterable.hpp:92-98 | in no run is a consume promise set twice |
| `Rendezvous.ThrowsOnlyReleased` | src/node/iterable.hpp:103-111 | whenever `resolve` is about to be called it throws exactly when the iterator was released; the guard for a waiting value never fires before |
| `Rendezvous.MovesRunOut` | src/uv/async.hpp:19-37 | every move made uses up a measure over values left, hand-over phase and promises to come |
| `Rendezvous.RunsAreShort` | src/uv/async.hpp:19-37 | for n values no run makes more than 6 n + 6 moves |
| `Rendezvous.WorkGoesOn` | src/uv/async.hpp:19-37 | worker and loop can go on by themselves, or are done, or a value is waiting to be asked for |
| `Rendezvous.NoDeadlock` | src/uv/async.hpp:19-37 | short of the last answer observed, some move other than a release is possible |
| `Rendezvous.StoppedMeansAllObserved` | src/node/node_client.cpp:784-798 | a run that has stopped without a release has delivered all values and the end, or exactly the values sent and then the library's error |
| `Rendezvous.ReleasedWorkEnds` | src/node/iterable.hpp:92-111 | after a release the worker is never left blocked: without the consumer it runs to its end and the completion with it |
| `Rendezvous.ReleaseBreaksOff` | src/node/iterable.hpp:92-98 | a release while a value is open, the worker waiting for it or the microtasks still running, makes the hand-over raise in the worker's callback |
| `Rendezvous.SendAfterRelease` | src/node/iterable.hpp:108-111 | so does every value sent after a release |
| `Rendezvous.DoomedWorkThrows` | src/cpp/client.cpp:52-70 | from either of these on, in every run, the work can only end by throwing that exception |
| `Rendezvous.ReleasedDeliversNothing` | src/node/iterable.hpp:108-111 | after a release every value sent raises in the worker, and no promise is settled |
| `Rendezvous.ExceptionComesOut` | src/cpp/client.cpp:52-70 | after a callback threw, whatever the library calls or returns, the work ends by throwing |
| `Rendezvous.EscapesExactlyWhen` | src/node/node_client.cpp:788-798 | an exception escapes from the completion exactly when the iterator was released before it |
| `Rendezvous.AnEscape` | src/node/node_client.cpp:788-798 | a run from the start in which one does |
| `Rendezvous.CompletesOnce` | src/uv/work.hpp:20-41 | the work's outcome is set once, the completion runs once and only after it, and neither changes later |
| `Rendezvous.FinishCarriesStatus` | src/cpp/client.cpp:63-70 | short of an exception the work ends with exactly the status the library returned |
| `Rendezvous.OutcomeIsTheLibrarys` | src/uv/work.hpp:20-33 | in every run the outcome, if it is no exception, is one the library returned in that run |
| `AsyncCall.StepKeepsInvariant` | src/uv/async.hpp:18-37 | every step of every caller and of the loop keeps flag, handle, promises and log in step |
| `AsyncCall.RunningMeansOneScope` | src/uv/async.hpp:80-95 | in every run `running` is true exactly when a scope is alive, and at most one is; a caller that loses does not clear it |
| `AsyncCall.EachCallRunsOnce` | src/uv/async.hpp:113-127 | each caller with a result had exactly one callback run, with its own argument and its own result; one turned away had none; the loop never uses data that is gone or fills a promise twice |
| `AsyncCall.RefusedMeansSomebodyWon` | src/uv/async.hpp:80-95 | in every run, if a caller was turned away then another one got in |
| `AsyncCall.StepsRunOut` | src/uv/async.hpp:18-37 | every enabled step uses up a measure, so no run goes on for ever |
| `AsyncCall.SomeStepIsEnabled` | src/uv/async.hpp:18-37 | while a caller has not come back some step is enabled |
| `AsyncCall.DisabledStepIsIdle` | src/uv/async.hpp:32-36 | a caller that waits, and a loop with nothing to do, change nothing |
| `OnceInit.StepKeepsInvariant` | deps/serf/src/ssl_buckets.c:1397-1469 | every compare-and-swap step of any thread keeps mark and threads in step |
| `OnceInit.BodyRunsOnce` | deps/serf/src/ssl_buckets.c:1397-1469 | in every interleaving the body begins at most once, and once any thread is back it has begun and ended exactly once |
| `OnceInit.BodyIsExclusive` | deps/serf/src/ssl_buckets.c:1401-1403 | no two threads are in the body together |
| `OnceInit.MarkMovesForward` | deps/serf/src/ssl_buckets.c:1388-1395 | the mark only moves from uninitialised to busy to done, and to done only behind the body |
| `OnceInit.EveryThreadReturns` | deps/serf/src/ssl_buckets.c:1456-1469 | from any point of any run, four rounds in which every thread has a turn bring every thread back |
| `SslPump.SslContext.BioBucketRead` | deps/serf/src/ssl_buckets.c:343-384 | takes a prefix of what has arrived, loses nothing, reports -1 exactly for no data, records the bucket's status, and refuses while renegotiating |
| `SslPump.SslContext.BioBucketWrite` | deps/serf/src/ssl_buckets.c:387-412 | appends all of the data to the pending ciphertext, or nothing while renegotiating |
| `SslPump.SslContext.SessionAfterRenegotiation` | deps/serf/src/ssl_buckets.c:290-315 | once the server has asked to renegotiate, in whatever call, no later call accepts, encrypts, reads or hands out a byte, and the fatal error stays |
| `SslPump.SslContext.RunEngine` | deps/serf/src/ssl_buckets.c:343-412 | however the engine calls the bio functions, ciphertext is only moved, none of it while renegotiating, and a fatal error stays |
| `SslPump.SslContext.StatusFromSslError` | deps/serf/src/ssl_buckets.c:937-996 | the status for each SSL error, which of them are fatal, and when a read is wanted |
| `SslPump.SslContext.SslHandshake` | deps/serf/src/ssl_buckets.c:1000-1030 | a handshake moves no plaintext and loses no ciphertext; when it fails, a read error and what a certificate callback found are reported as they are, and waiting is no error |
| `SslPump.SslContext.FirstHandshake` | deps/serf/src/ssl_buckets.c:1037-1048 | the explicit handshake is started once, and its error is the caller's |
| `SslPump.SslContext.PumpOnce` | deps/serf/src/ssl_buckets.c:1201-1289 | unless a read is wanted, a round reads the stream and writes what that brings, what was put back in any case; it keeps accepted plaintext followed by the stream as it was, repeats a refused write, and ends with the stream's status if the write was taken; while a read is wanted it touches nothing |
| `SslPump.SslContext.Offer` | deps/serf/src/ssl_buckets.c:1238-1272 | data goes to SSL_write once, and refused data is what the next write begins with if there is room for all of it, and as much of it as there is room for otherwise |
| `SslPump.SslContext.PumpLoop` | deps/serf/src/ssl_buckets.c:1198-1291 | the loop makes at least one round, goes on until a round does not succeed or the room is used up, and so ends; it accepts at most as much as there is room |
| `SslPump.SslContext.TakePending` | deps/serf/src/ssl_buckets.c:1178-1195 | pending ciphertext is handed out from the front, at most as much as asked for, and the end means that none is left |
| `SslPump.SslContext.Encrypt` | deps/serf/src/ssl_buckets.c:1152-1317 | conserves plaintext and ciphertext, returns at most the buffer's size, brings no data with an error, leaves no ciphertext behind a status that is not a success, returns leftovers first; with none and no read wanted it reads the stream and writes, what was put back in any case; after a fatal error it changes nothing |
| `SslPump.SslContext.Decrypt` | deps/serf/src/ssl_buckets.c:1034-1148 | calls SSL_read, after which no read is wanted, and returns exactly what the engine decrypted, even with an error; accepts and hands out nothing of the other direction, conserves the inbound ciphertext, and after a fatal error changes nothing |
| `SslPump.SslContext.Session` | deps/serf/src/ssl_buckets.c:1152-1317 | over any run of calls and engine behaviour: accepted followed by left over is what was queued, returned followed by pending is what was produced, the plaintext returned is what was decrypted, refused writes are repeated, and after a fatal error nothing moves |
| `Alpn.EncodeAdvancing` | deps/serf/src/ssl_buckets.c:1819-1882 | the encoder with the moving pointer stays within its buffer and computes the common encoding |
| `Alpn.EncodeBackpatching` | deps/openssl/openssl/apps/apps.c:2775-2803 | the encoder that fills in length bytes afterwards stays within its buffer and computes the same encoding |
| `Alpn.WireFramesItems` | deps/serf/src/ssl_buckets.c:1837-1866 | what is accepted, and the bytes, are those of framing the items between the commas |
| `Alpn.WireRoundTrip` | deps/serf/src/ssl_buckets.c:1824-1866 | the result is one byte longer than the string, and decoding it gives back the items and so the string |
| `Alpn.RefusedExactlyWhen` | deps/openssl/openssl/apps/apps.c:2781-2794 | a string is refused exactly when it is too long or one of its items is |
| `Alpn.EveryListIsEncoded` | deps/openssl/openssl/apps/apps.c:2775-2803 | every list of comma-free names that fits is sent by writing it with commas |
| `Alpn.SplitUndoesJoin` | deps/serf/src/ssl_buckets.c:1837-1866 | splitting at the commas undoes joining with commas |
| `Alpn.UnframeUndoesFrame` | deps/serf/src/ssl_buckets.c:1856-1864 | decoding length prefixes undoes framing |
| `Alpn.ConformsExactlyWhen` | deps/openssl/openssl/apps/apps.c:2787-2796 | the result conforms to section 3.1 of RFC 7301 exactly when no name is empty |
| `Alpn.EmptyNameIsLetThrough` | deps/openssl/openssl/apps/apps.c:2787-2796 | two commas in a row are encoded as an empty name |
| `SubjectGrammar.TypeRoundTrip` | deps/openssl/openssl/apps/apps.c:2178-2202 | a printed type is read back with its escapes undone |
| `SubjectGrammar.ValueRoundTrip` | deps/openssl/openssl/apps/apps.c:2203-2228 | a printed value is read back with its escapes undone, `+` being ordinary unless multi-valued names are on |
| `SubjectGrammar.ElementRoundTrip` | deps/openssl/openssl/apps/apps.c:2177-2230 | a printed element is read back with the separator that follows it |
| `SubjectGrammar.ParseUndoesPrint` | deps/openssl/openssl/apps/apps.c:2177-2230 | parsing a printed list gives back all types, values and joining flags exactly when its last value is not empty |
| `SubjectGrammar.PlusExample` | deps/openssl/openssl/doc/apps/ca.pod:247-256 | one subject with a plus sign, read with multi-valued names off and on |
| `SubjectGrammar.RefusedSubjects` | deps/openssl/openssl/apps/apps.c:2168-2209 | subjects without a slash, an equals sign or a value at the end, or with half an escape, and how each is refused |
| `SubjectName.CollectType` | deps/openssl/openssl/apps/apps.c:2178-2202 | the type loop writes at most one character for each it reads and collects what the grammar says |
| `SubjectName.CollectValue` | deps/openssl/openssl/apps/apps.c:2203-2228 | the value loop does the same, and terminates the value |
| `SubjectName.CollectElement` | deps/openssl/openssl/apps/apps.c:2178-2228 | a turn records where its type and its value begin before it reads them, and collects what the grammar says |
| `SubjectName.CollectAll` | deps/openssl/openssl/apps/apps.c:2148-2230 | for every subject, well-formed or not, the collecting loop stays within the copy buffer and the three arrays, also in a turn that fails, and stores the types, values and flags of the grammar |
| `SubjectName.RecordFlag` | deps/openssl/openssl/apps/apps.c:2214-2225 | a turn records the next element's flag, one place ahead, without touching earlier ones |
| `SubjectName.AssembleName` | deps/openssl/openssl/apps/apps.c:2232-2253 | the second loop skips unknown types and empty values and fails at a value the library refuses |
| `SubjectName.ParseName` | deps/openssl/openssl/apps/apps.c:2142-2264 | the whole function: no name for a malformed subject, otherwise the name its elements make |
| `SubjectName.GroupingExactlyWhen` | deps/openssl/openssl/doc/apps/ca.pod:247-256 | entries are grouped into relative names as the subject says exactly when, for every kept and joined element with a kept one before it, all elements in between are joined too |
| `SubjectName.SkippedHeadRegroups` | deps/openssl/openssl/apps/apps.c:2235-2253 | a subject, as parsed, whose chain loses its head: the name built and the name asked for |
| `SubjectName.NameHoldsKeptElements` | deps/openssl/openssl/apps/apps.c:2232-2253 | there is no name exactly when some kept value is refused; otherwise its entries are the kept elements in order |
| `SubjectName.NoEmptyValues` | deps/openssl/openssl/apps/apps.c:2243-2248 | no entry of a name has an empty value |
| `SubjectName.EmptyValueIsSkipped` | deps/openssl/openssl/apps/apps.c:2235-2253 | a subject with an empty value, and the name without it |
| `Policy.FindInCa` | deps/openssl/openssl/apps/ca.c:1785-1811 | the search for a matching entry of the CA finds one exactly when there is one |
| `Policy.Choose` | deps/openssl/openssl/apps/ca.c:1763-1816 | when one entry, or none, satisfies a line of the policy |
| `Policy.ApplyRule` | deps/openssl/openssl/apps/ca.c:1742-1829 | a line accepts exactly when a supplied field occurs, a matched field occurs with every occurrence equal to an entry of the CA, and its kind is known; it then adds the request's entries of that type in order |
| `Policy.ApplyPolicy` | deps/openssl/openssl/apps/ca.c:1739-1829 | the loop succeeds exactly when every line accepts; each entry of the subject then comes from a line and a position of the request, these go down the policy and within a line through the request, and every match of a line and an entry is among them |
| `Policy.KindsOfLines` | deps/openssl/openssl/apps/ca.c:1763-1816 | what each kind of line accepts and refuses, on requests with one and two entries of a type |
| `Policy.SubjectInPolicyOrder` | deps/openssl/openssl/apps/ca.c:1739-1829 | the law of positions for the subject of any policy and request |
| `Policy.ProjectCounts` | deps/openssl/openssl/apps/ca.c:1739-1829 | an entry is in the subject once for each line naming its type, times its copies in the request |
| `Policy.SelfSignedMatchesItself` | deps/openssl/openssl/apps/ca.c:1775-1811 | against itself only missing fields and unknown kinds refuse a request |
| `Extensions.Certificate.DeleteType` | deps/openssl/openssl/apps/apps.c:1399-1405 | the inner loop ends and removes exactly the extensions of one type |
| `Extensions.Certificate.CopyOne` | deps/openssl/openssl/apps/apps.c:1391-1409 | what one requested extension changes in each mode |
| `Extensions.Certificate.CopyExtensions` | deps/openssl/openssl/apps/apps.c:1380-1418 | by default nothing is copied; copy mode appends the first request of each new type; copy-all mode leaves the types nobody asked for and appends the last request of each |
| `Extensions.MergedTypes` | deps/openssl/openssl/doc/apps/ca.pod:482-491 | either mode leaves exactly the types the certificate had or was asked for |
| `Extensions.FirstOfNewInOrder` | deps/openssl/openssl/apps/apps.c:1390-1408 | what copy mode appends is, in the request's order, exactly the first of each type the certificate does not have |
| `Extensions.LastOfEachInOrder` | deps/openssl/openssl/apps/apps.c:1390-1408 | what copy-all mode appends is, in the request's order, exactly the last of each type |
| `Extensions.UnaskedInOrder` | deps/openssl/openssl/apps/apps.c:1399-1405 | what copy-all mode keeps is, in its order, exactly what the certificate had of types nobody asked for |
| `Extensions.CopyAddTwice` | deps/openssl/openssl/apps/apps.c:1391-1398 | in copy mode, copying a request again changes nothing |
| `Extensions.CopyAllKeepsAllExactlyWhen` | deps/openssl/openssl/doc/apps/ca.pod:482-491 | copy-all mode copies all extensions of the request exactly when their types are distinct |
| `Extensions.RepeatedTypeLosesOne` | deps/openssl/openssl/apps/apps.c:1397-1408 | of two requested extensions of one type, copy-all mode drops the first and copy mode the second |
| `RevocationInfo.MakeRevocationStr` | deps/openssl/openssl/apps/ca.c:2620-2707 | refuses exactly the unusable arguments; otherwise the allocated array is exactly the printed string and its terminator |
| `RevocationInfo.AcceptedExactlyWhen` | deps/openssl/openssl/apps/ca.c:2620-2675 | refused are reasons not in the table, unknown object identifiers and malformed times, and nothing else |
| `RevocationInfo.Concatenate` | deps/openssl/openssl/apps/ca.c:2684-2706 | the computed size is exactly that of time, reason, argument, commas and terminator |
| `RevocationInfo.CutCopy` | deps/openssl/openssl/apps/ca.c:2828-2841 | writing terminators over two commas cuts the copy into the pieces of the string |
| `RevocationInfo.LookUpReason` | deps/openssl/openssl/apps/ca.c:2855-2865 | the first reason equal but for case, or none |
| `RevocationInfo.UnpackRevInfo` | deps/openssl/openssl/apps/ca.c:2811-2923 | accepts exactly the strings whose pieces have a meaning, and returns it |
| `RevocationInfo.FieldsComeBack` | deps/openssl/openssl/apps/ca.c:2828-2841 | printed fields come back as they were |
| `RevocationInfo.UnpackUndoesMake` | deps/openssl/openssl/apps/ca.c:2620-2923 | every accepted revocation is read back with its reason code, hold instruction or compromise time, exactly when the clock printed a UTCTime |
| `RevocationInfo.ReasonCodes` | deps/openssl/openssl/apps/ca.c:2595-2618 | the named reasons and their codes, by section 5.3.1 of RFC 5280 |
| `RevocationInfo.OtherCodes` | deps/openssl/openssl/apps/ca.c:2866-2900 | the codes of hold instructions and compromise times, which are those of the named reasons |
| `RevocationInfo.CaseDoesNotMatter` | deps/openssl/openssl/apps/ca.c:2631-2642 | a reason is found whatever the case of its letters, and printed as in the table |
| `RevocationInfo.PrintedHold` | deps/openssl/openssl/apps/ca.c:2644-2657 | what is printed without a reason and for a hold instruction |
| `RevocationInfo.PrintedKeyTime` | deps/openssl/openssl/apps/ca.c:2659-2675 | what is printed for a key compromise time |
| `RevocationInfo.PrintedCaKeyTime` | deps/openssl/openssl/apps/ca.c:2659-2675 | what is printed for a CA compromise time |
| `Serials.HexIsInjective` | deps/openssl/openssl/apps/apps.c:1637-1645 | two printed serials are the same to the index exactly when the numbers are |
| `Serials.HexValue` | deps/openssl/openssl/crypto/bn/bn_print.c:69-99 | a printed serial reads back as its number |
| `Serials.PrintedSerials` | deps/openssl/openssl/crypto/bn/bn_print.c:69-99 | how some numbers are printed, zero and a negative one among them |
| `Serials.PrintedTwoBytes` | deps/openssl/openssl/crypto/bn/bn_print.c:69-99 | a zero digit fills up the first byte |
| `Serials.FoundExactlyWhen` | deps/openssl/openssl/apps/apps.c:1627-1645 | a row that passes the load-time check is found by a number exactly when it has that value, is in capitals and, if negative, has no superfluous zero byte |
| `Serials.MinimalDigitsAreBytes` | deps/openssl/openssl/crypto/bn/bn_print.c:69-99 | printing the value of capital digits whose first byte is not zero gives them back |
| `Serials.LowerCaseIsNotFound` | deps/openssl/openssl/apps/ca.c:863-882 | a row in lower case that passes and is not found |
| `Serials.PaddedNegativeIsNotFound` | deps/openssl/openssl/apps/ca.c:863-882 | a negative row with superfluous zeros that passes and is not found |
| `Serials.SameSerialSameValue` | deps/openssl/openssl/apps/apps.c:1637-1645 | serials the index takes for the same have the same value |
| `Expiry.UtcTimesAreCompared` | deps/openssl/openssl/apps/ca.c:2552-2585 | on UTCTime values the comparison with a pivot at 49 orders the full dates of section 4.1.2.5.1 of RFC 5280 |
| `Expiry.MarkedExactlyWhen` | deps/openssl/openssl/apps/ca.c:2552-2585 | for dates in either form of section 4.1.2.5 of RFC 5280, on both sides, marking comes down to the first digits and to the numbers the common digits form |
| `Expiry.LateTimesAreMarked` | deps/openssl/openssl/apps/ca.c:2552-2585 | an expiry date from 2050 to 2099 is marked by a UTCTime clock exactly when that shows 2021 to 2049 |
| `Expiry.MarkedCorrectlyExactlyWhen` | deps/openssl/openssl/apps/ca.c:2552-2585 | for any two dates of section 4.1.2.5 of RFC 5280, the exact condition on their digits under which the mark agrees with the full dates |
| `Expiry.NeverExpiringIsMarked` | deps/openssl/openssl/apps/ca.c:2552-2585 | the date that stands for no expiration is marked expired by every clock from 2000 to 2049 |
| `Expiry.MarkedTooLate` | deps/openssl/openssl/apps/ca.c:2552-2585 | a certificate that ran until 2049 is not marked in June 2050 |
| `Expiry.MarkedTooEarly` | deps/openssl/openssl/apps/ca.c:2552-2585 | a certificate that runs until 2050 is marked expired in June 2025 |
| `CaTable.CaDatabase.TxtDbInsert` | deps/openssl/openssl/crypto/txt_db/txt_db.c:312-355 | refuses a clash in either index changing nothing, otherwise appends the row and indexes it |
| `CaTable.CaDatabase.LoadTimeCheck` | deps/openssl/openssl/apps/ca.c:843-883 | accepts exactly the tables whose every row passes |
| `CaTable.RowsThatPass` | deps/openssl/openssl/apps/ca.c:843-883 | a valid row passes with either form of time |
| `CaTable.RowsThatFail` | deps/openssl/openssl/apps/ca.c:843-883 | rows that do not pass, each for one reason |
| `CaTable.CaDatabase.Issue` | deps/openssl/openssl/apps/ca.c:1870-1935 | the issuing function on the table in place |
| `CaTable.CaDatabase.Revoke` | deps/openssl/openssl/apps/ca.c:2341-2456 | the revoking function on the table in place; it calls itself at most once |
| `CaTable.CaDatabase.UpdateDb` | deps/openssl/openssl/apps/ca.c:2530-2593 | marks expired rows in place and returns how many rows changed |
| `CaTable.IssueRecords` | deps/openssl/openssl/apps/ca.c:2107-2144 | a certificate is issued exactly when its serial, and where subjects are unique its name, is new to the two indexes; its serial then leads to a valid row with its name and date |
| `CaNames.RenewalExactlyWhen` | deps/openssl/openssl/apps/apps.c:1647-1650 | where subjects are unique, on a table just loaded a certificate is refused exactly if a row has its serial or a valid row has its name |
| `CaNames.SharedNamesExactlyWhen` | deps/openssl/openssl/apps/apps.c:1931-1951 | where they are not, exactly if a row has its serial |
| `CaNames.RevokedNameIsFree` | deps/openssl/openssl/apps/apps.c:1647-1650 | a revoked row does not stand in the way of a renewal, the same row still valid does |
| `CaNames.TakenSinceLoad` | deps/openssl/openssl/crypto/txt_db/txt_db.c:312-355 | after any operations since the table was loaded a name is taken exactly by rows valid then and rows added since |
| `CaTable.InsertLoads` | deps/openssl/openssl/crypto/txt_db/txt_db.c:312-355 | after an insert the table loads exactly when the new row passes |
| `CaTable.IssueLoads` | deps/openssl/openssl/apps/ca.c:843-883 | after issuing the table loads again exactly when a certificate that can be added has a well-formed date |
| `CaTable.RevokeLoads` | deps/openssl/openssl/apps/ca.c:2341-2456 | after revoking the table loads again exactly when a certificate that can be added has a well-formed date and, if the argument is usable and the certificate can be added or revoked, the clock prints a UTCTime |
| `CaTable.MalformedDateIsAdded` | deps/openssl/openssl/apps/ca.c:2366-2412 | revoking adds a row with a malformed date, and the table no longer loads |
| `CaTable.LateClockIsRecorded` | deps/openssl/openssl/apps/ca.c:2620-2707 | a clock that prints GeneralizedTime is recorded, and the table no longer loads |
| `CaTable.UpdateLoads` | deps/openssl/openssl/apps/ca.c:2530-2593 | after expiring rows the table loads again |
| `CaTable.ReloadLoads` | deps/openssl/openssl/apps/apps.c:1931-1951 | a table written out and read back builds both indexes without a clash |
| `CaRuns.ApplyLoadsExactlyWhen` | deps/openssl/openssl/apps/ca.c:843-883 | the condition for each operation, on the table it finds |
| `CaRuns.RunLoadsExactlyWhen` | deps/openssl/openssl/apps/ca.c:843-883 | from a table that loads, a run of issuing, revoking, expiring and reloading leaves one that loads exactly when every operation met its condition; a table that has failed the check never passes it again |
| `CaRuns.RunLoads` | deps/openssl/openssl/apps/ca.c:843-883 | so with certificates and a clock in order every table reached passes the check |
| `CaRuns.RunKeepsShape` | deps/openssl/openssl/apps/apps.c:1931-1951 | whatever the certificates and the clock, every table reached has distinct serials, where asked for unique valid subjects, and no revocation date on a row that is not revoked |
| `CaRuns.RevokeStaysBelow` | deps/openssl/openssl/apps/ca.c:2341-2456 | revoking keeps every row below the counter exactly when it adds none at or above it |
| `CaRuns.AheadForEver` | deps/openssl/openssl/apps/ca.c:1870-1935 | the counter never passes a row at or above it, since issuing is refused there |
| `CaRuns.RunStaysBelowExactlyWhen` | deps/openssl/openssl/apps/ca.c:1104-1183 | over any run with the counter, it is above every row at the end exactly when no revocation added a certificate at or above the counter of its time |
| `CaRuns.ForeignSerialBlocksCounter` | deps/openssl/openssl/apps/ca.c:2366-2412 | a certificate from elsewhere with the next number, after which nothing can be issued |
| `CaTable.RunEvolves` | deps/openssl/openssl/apps/ca.c:2341-2593 | over any run no row is lost or renamed, kinds only move forward, and a revoked row keeps its revocation |
| `CaTable.UpdateMarksExactly` | deps/openssl/openssl/apps/ca.c:2552-2585 | on UTCTime values an update marks exactly the valid rows whose full date is not after now, and changes nothing else |
| `CaTable.RevokeRecords` | deps/openssl/openssl/apps/ca.c:2341-2456 | after a successful revocation the certificate's serial leads to a revoked row that means what was asked for |
| `CaTable.RevokeSucceedsExactlyWhen` | deps/openssl/openssl/apps/ca.c:2381-2448 | revoking succeeds exactly on a certificate that can be added or, with an argument, one known under its name and not yet revoked, and with a usable argument |
| `CaTable.RevokeAdds` | deps/openssl/openssl/apps/ca.c:2366-2412 | a certificate that revoking adds has its own row, behind all older ones |
| `CaTable.RevokeTouchesOne` | deps/openssl/openssl/apps/ca.c:2341-2456 | revoking adds at most one row, changes no row of another serial, and no row at all when it fails |
| `CaTable.RevokedOnce` | deps/openssl/openssl/apps/ca.c:2427-2438 | what is on record cannot be revoked again |
| `CaTable.CounterStaysAbove` | deps/openssl/openssl/apps/ca.c:1870-1935 | with the counter above every row issuing is never refused for its serial, and the next counter is above every row again |
| `Rotation.Disk.Swap` | deps/openssl/openssl/apps/apps.c:1805-1825 | live becomes staged and backup becomes live, or after one denied rename all but the backup is as before; no content is lost even if the rollback fails |
| `Rotation.Disk.Undo` | deps/openssl/openssl/apps/apps.c:2086-2087 | the compensating renames take a rotation back |
| `Rotation.Disk.RotateSerial` | deps/openssl/openssl/apps/apps.c:1778-1829 | all or nothing, and the exact case in which an old backup comes back; no name overflows its buffer |
| `Rotation.Disk.RotateIndex` | deps/openssl/openssl/apps/apps.c:2016-2104 | all or nothing for the index and its attributes together, and for either live file the exact case in which an old backup comes back; at every point the live index is the old or the new one |
| `Rotation.TakenBackAfterRotation` | deps/openssl/openssl/apps/apps.c:2079-2099 | a rotation taken back restores the live file exactly when no old backup was taken for it |
| `Rotation.StaleSerialComesBack` | deps/openssl/openssl/apps/apps.c:1805-1825 | with the live file missing a rotation that fails makes an old backup live |
| `Rotation.StaleIndexComesBack` | deps/openssl/openssl/apps/apps.c:2058-2099 | the same for the index when its attributes were not staged |
| `Rotation.StaleAttributesComeBack` | deps/openssl/openssl/apps/apps.c:2079-2099 | and for the attributes with the live index in place |
| `Rotation.SecondAfterFailure` | deps/openssl/openssl/apps/apps.c:2079-2099 | what a failing second rotation leaves at its live name |
| `Rotation.SuffixesKeepApart` | deps/openssl/openssl/apps/apps.c:2030-2054 | the six names of an index rotation never meet |
| `Commit.BatchIsHeld` | deps/openssl/openssl/apps/ca.c:1104-1183 | a batch that goes through adds, in order, one valid row for each signed request, with its name and date and the next numbers, and moves the number on by as many |
| `Commit.BatchFailsExactlyWhen` | deps/openssl/openssl/apps/ca.c:1104-1183 | the command gives up exactly at a request that fails or, where subjects are unique, whose name is taken or was asked for before |
| `Commit.BatchStaysBelow` | deps/openssl/openssl/apps/ca.c:1104-1183 | after a batch the counter is above every row, old and new, and has moved on by the number of rows added |
| `Commit.IssueBatch` | deps/openssl/openssl/apps/ca.c:1104-1183 | the loop over the requests, which passes over those turned away and gives up at one that fails or that the table refuses |
| `Commit.SaveSerial` | deps/openssl/openssl/apps/apps.c:1719-1776 | writes the staged serial file and nothing else, and only if its name fits |
| `Commit.SaveIndex` | deps/openssl/openssl/apps/apps.c:1953-2014 | writes the two staged index files and nothing else, and only if their names fit |
| `Commit.Install` | deps/openssl/openssl/apps/ca.c:1215-1283 | at every point between writes and renames the stored number, where there is one, is above every live row; on success the live files are the new ones and the former live ones the backups; it succeeds if nothing fails |
| `Commit.IssueAndCommit` | deps/openssl/openssl/apps/ca.c:1104-1283 | the same for a whole run of the command; the index then holds one more row for each signed request, with its name, date and number; nothing changes when a request fails or the table refuses one, and without such a failure it succeeds |
| `Commit.NextIsFresh` | deps/openssl/openssl/apps/ca.c:1870-1935 | from any such point the next number is one no row has, and issuing can only be refused for the name |

## Left out

- V8, libuv, libsvn, APR, serf's other files and the rest of OpenSSL: only what the code above relies on is
  modelled (settling a promise, sending, renaming, reading a bucket, SSL calls, looking up and inserting a row).
- serf's buckets: a success brings at least one byte, an error none, no buffer of an iovec is empty, and data that was
  put back is in memory and read first; pending ciphertext is in memory, so it is read with a success or an end only.
  The bucket code is not part of this model.
- Handing the encrypt stream on to the next request, after which the pending bucket may be NULL: one stream is
  modelled, to which the application appends.
- Any other consumer in the transition system: it has the shape of a for-await loop, with one `next` outstanding and
  none after the end; what other calls of `next` do is `Iterable.ForgetsExactlyWhen`.
- Several callers in the rendezvous: its worker's calls reach the loop one at a time; that a call delivers its own
  argument and result, whoever contends, is proved in `AsyncCall`.
- The inside of uv_async_send: a send that fails leaves nothing pending, and the loop runs a callback only after a send.
- The cached SSL session, and the protocol callback of the decrypting side beyond its status.
- SslPump.SslContext.Encrypt: an end of the inbound stream may be returned as its status; it is not claimed that
  this means drained.
- The narrowed length result of the back-patching encoder, and running out of memory anywhere.
- Which attribute types are known and which values they take, character sets, and the search for the CA's own files.
- The subject's `-preserveDN` and e-mail handling behind the policy loop, and the checks of dates and keys before signing.
- The file column of a table row, the text format of the table file, and the check of a subject before the insert: it
  looks up a name that is not filled in yet and finds nothing, so the insert is what refuses.
- Commit.SaveSerial: a write that fails after the file was opened is not noticed by the code, and not modelled.
- Commit.IssueAndCommit: the certificate files written between saving and rotating are left out; a denied rename
  and a file that cannot be opened are the failures.
- Certificate revocation lists, certificate validation, OCSP, logging, option parsing and the other commands.
- Argument conversion, object builders, the commit and update notifications and the password prompt of the client.
