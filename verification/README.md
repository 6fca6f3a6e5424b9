# Verified model of the Aether engine's protocols and formats

Aether runs a guest Android application inside a host's processes. Most of it is
plumbing around the Android framework; inside that plumbing are a few protocols,
file formats and searches that can be stated on their own. This project models
them in Dafny and proves what they promise, over all inputs and all runs.

- **Guest slots** (`GuestSlots`, `GuestLaunch`, `GuestOrchestrator`, `GuestHolder`).
  The host's table of processes :p0 to :p3 and the child's side of the handshake.
  `GuestProcessTable` is the table as the source keeps it; `GuestLaunch` runs launches
  and deaths as a state machine. Safety holds whatever deaths are delivered and
  however linking ends; exact release holds when linking succeeds and an unlinked
  recipient is not delivered.
- **Message hold** (`MessageHold`). Transactions that arrive during a bind are held
  and pushed back at the front when it ends. A run interleaves posts, from any
  thread, with dispatch, arm, and the single pushes of a finishing bind.
- **package.conf** (`ParcelFormat`, `ParcelRoundTrip`, `ParcelSkip`, `ParcelWalk`,
  `ParcelDecode`, `PythonReader`, `PackageConf`, `ConfContents`).
  String records in two encodings that nothing tells apart; the writer, the engine's
  reader, the offline reader it was ported from, and the freshness test built on them.
- **Pattern scanner** (`PatternScan`, `ScanSearch`, `ScanCache`). Windowed search with
  a cache of 30 seconds: what it finds, what it misses, and why the cache is invisible.
- **Guest session** (`GuestSession`, `GuestRuns`). Binding guests into the activity
  thread and giving the host back, over every run of sandboxed loads and closes.
- **Smaller algorithms**: include closure, JNI descriptors, path redirection, the
  launch-result text, bracket matching, gap clustering, and cyclic XOR keys.

Where a property fails for some inputs the project states exactly for which:
`RoundTripIff`, `AlwaysExactIff`, `RunKeepsTotalOrderIff`, `AlwaysRestoresIff`,
`LongestPrefixIff`, `ResultRoundTripIff`, `ConfiguredInjectiveIff`, `ReleasedOwnRecipientsIff`,
`PinnedNextIff`, `MethodRoundTripIff`, `PartsRejoinIff`; and `FreshAfterWriteIff` does so for
every manifest in which no string holds a NUL or ends in U+0001 to U+0003.

Two places where the code differs from its own comments, and the model follows the
code. `GuestRuntime.bindToActivityThread` says it degrades gracefully when reflection
fails, but its last diagnostic read is unguarded; `LoadThrowsIff` says when a load ends
in an exception because of it, `ThrownLoadLeaves` what is left. `GuestRuntimeBridge.loadDual`
is described as running both loaders in parallel, but is the fallback of AUTO (`DualIsAuto`).

Strings are sequences of Unicode scalar values; bytes are integers below 256. The
JVM's 32-bit arithmetic cannot overflow where the model uses integers, since a length
is compared with 4000 before anything is computed from it; the sign of a length word
is modelled. The writer is modelled for strings whose record size fits 32 bits.

## Model

| member | source | states |
|---|---|---|
| `GuestSlots.FirstFree` | aether-android/aether-app/src/main/kotlin/com/aether/engine/proxy/GuestProcessRegistry.kt:97-101 | the result is free (owned by no other guest, process name not running), every lower slot is not; -1 only when no slot in 0..3 is free |
| `GuestSlots.GuestProcessTable.constructor` | aether-android/aether-app/src/main/kotlin/com/aether/engine/proxy/GuestProcessRegistry.kt:67-69 | a new table has no slots, clients or recipients |
| `GuestSlots.GuestProcessTable.IsSlotAlive` | aether-android/aether-app/src/main/kotlin/com/aether/engine/proxy/GuestProcessRegistry.kt:81-82 | a slot is alive exactly when it has a client that answers a ping |
| `GuestSlots.GuestProcessTable.Allocate` | aether-android/aether-app/src/main/kotlin/com/aether/engine/proxy/GuestProcessRegistry.kt:90-102 | a guest with a slot whose client answers gets that slot, even when a lower one is free; any other gets the least slot of 0..3 whose process name is not running and to which no other guest is mapped, and -1 exactly when there is none; the table is not changed, so nothing is reserved |
| `GuestSlots.GuestProcessTable.SpawnAndConfig` | aether-android/aether-app/src/main/kotlin/com/aether/engine/proxy/GuestProcessRegistry.kt:113-150 | without a binder in the reply nothing is recorded; with one the guest is mapped, also when linking throws, but client and recipient are recorded together or not at all |
| `GuestSlots.GuestProcessTable.BinderDied` | aether-android/aether-app/src/main/kotlin/com/aether/engine/proxy/GuestProcessRegistry.kt:132-139 | a death removes the slot's client and recipient, and unmaps the captured guest only if it still sits in the captured slot |
| `GuestSlots.AllocatedIsUnowned` | aether-android/aether-app/src/main/kotlin/com/aether/engine/proxy/GuestProcessRegistry.kt:90-102 | in an injective table an allocated slot is in 0..3 and no other guest owns it, also on the path that returns the guest's own slot |
| `GuestSlots.ConfiguredInjectiveIff` | aether-android/aether-app/src/main/kotlin/com/aether/engine/proxy/GuestProcessRegistry.kt:129-147 | recording a guest keeps the map injective if and only if no other guest owns the slot at that moment |
| `GuestSlots.OverlappingLaunchesCollide` | aether-android/aether-app/src/main/kotlin/com/aether/engine/proxy/GuestProcessRegistry.kt:90-147 | a concrete pair of overlapping launches ends with two guests in slot 0, because allocate reserves nothing |
| `GuestSlots.ReleasedOwnRecipientsIff` | aether-android/aether-app/src/main/kotlin/com/aether/engine/proxy/GuestProcessRegistry.kt:132-139 | delivering a recipient keeps every mapped guest's own recipient in place if and only if no other guest owns its slot |
| `GuestSlots.AtMostFourGuests` | aether-android/aether-app/src/main/kotlin/com/aether/engine/proxy/GuestProcessRegistry.kt:46 | an injective table with slots in range maps at most four guests |
| `GuestSlots.RefusedIff` | aether-android/aether-app/src/main/kotlin/com/aether/engine/proxy/GuestProcessRegistry.kt:90-102 | a launch is refused if and only if the guest has no slot that answers and every slot is owned by another guest or listed as running |
| `GuestSlots.RefusedIffFull` | aether-android/aether-app/src/main/kotlin/com/aether/engine/proxy/GuestProcessRegistry.kt:90-102 | in particular, with no process name running, if and only if four other guests hold the four slots |
| `GuestLaunch.SafeNext` | aether-android/aether-app/src/main/kotlin/com/aether/engine/proxy/GuestProcessRegistry.kt:90-147 | every step of a launch and every death, linked or not, keeps: slots in range and distinct, client and recipient key sets equal, the reserved slot unowned by others, every stub started on a slot no other guest owned |
| `GuestLaunch.RunIsSafe` | aether-android/aether-app/src/main/kotlin/com/aether/engine/proxy/AetherOrchestrator.kt:525-564 | those properties hold over every run of non-overlapping launches with deaths anywhere |
| `GuestLaunch.ExactHandshake` | aether-android/aether-app/src/main/kotlin/com/aether/engine/proxy/GuestProcessRegistry.kt:129-147 | a handshake whose link succeeds leaves exactly the links that the table records, one fresh recipient per slot, and every mapped guest with its own |
| `GuestLaunch.ExactDeath` | aether-android/aether-app/src/main/kotlin/com/aether/engine/proxy/GuestProcessRegistry.kt:132-139 | so does the delivery of a linked recipient |
| `GuestLaunch.RunIsExact` | aether-android/aether-app/src/main/kotlin/com/aether/engine/proxy/GuestProcessRegistry.kt:113-150 | and so does every run in which linking succeeds and only linked recipients are delivered |
| `GuestLaunch.DeathFreesOwnSlotOnly` | aether-android/aether-app/src/main/kotlin/com/aether/engine/proxy/GuestProcessRegistry.kt:132-139 | a death unmaps its own guest or, when that guest has moved or gone, nobody; afterwards the slot is free for any guest and other slots are as before |
| `GuestLaunch.MappedGuestHasOneLink` | aether-android/aether-app/src/main/kotlin/com/aether/engine/proxy/GuestProcessRegistry.kt:129-147 | each mapped guest has exactly one link: its own recipient on its own slot's binder |
| `GuestLaunch.RunsFromStart` | aether-android/aether-app/src/main/kotlin/com/aether/engine/proxy/AetherOrchestrator.kt:525-564 | both whole-run results from the empty table |
| `GuestOrchestrator.AetherOrchestrator.constructor` | aether-android/aether-app/src/main/kotlin/com/aether/engine/proxy/AetherOrchestrator.kt:480-484 | an orchestrator starts with nothing dispatched on the table it is given |
| `GuestOrchestrator.AetherOrchestrator.LaunchInSandbox` | aether-android/aether-app/src/main/kotlin/com/aether/engine/proxy/AetherOrchestrator.kt:480-570 | one launch is the protocol run allocate, handshake, start: true exactly when a stub was started, on the allocated slot and for this guest, with or without a handshake; refused without a slot; a safe state stays safe |
| `GuestOrchestrator.AetherOrchestrator.DeliverDeath` | aether-android/aether-app/src/main/kotlin/com/aether/engine/proxy/GuestProcessRegistry.kt:132-139 | a linked death between launches keeps the exact-release invariant of the shared table |
| `GuestHolder.GuestProcessHolder.constructor` | aether-android/aether-app/src/main/kotlin/com/aether/engine/proxy/GuestProcessRegistry.kt:161-163 | a new process has no identity |
| `GuestHolder.GuestProcessHolder.Seed` | aether-android/aether-app/src/main/kotlin/com/aether/engine/proxy/GuestProcessRegistry.kt:171-176 | seeding sets an identity only when there is none and the guest and slot are valid |
| `GuestHolder.GuestProcessHolder.Reset` | aether-android/aether-app/src/main/kotlin/com/aether/engine/proxy/GuestProcessRegistry.kt:183-187 | reset clears the identity |
| `GuestHolder.GuestProcessHolder.HandleInit` | aether-android/aether-app/src/main/kotlin/com/aether/engine/proxy/GuestProcessRegistry.kt:190-219 | the reply and the identity afterwards for missing keys, a different real guest, the diagnostic identity and an acceptable request |
| `GuestHolder.BoundAcceptsOnlyItsGuest` | aether-android/aether-app/src/main/kotlin/com/aether/engine/proxy/GuestProcessRegistry.kt:190-219 | a process bound to a real guest accepts no other guest before its next reset, in every run of inits and seeds |
| `GuestHolder.OneRealGuestBetweenResets` | aether-android/aether-app/src/main/kotlin/com/aether/engine/proxy/GuestProcessRegistry.kt:190-219 | between resets, after the first real guest accepted every accepted handshake names that guest; only the diagnostic identity is ever replaced |
| `GuestHolder.BundleRoundTrip` | aether-android/aether-app/src/main/kotlin/com/aether/engine/proxy/GuestProcessRegistry.kt:60-64 | the child ends with exactly the configuration that was sent if and only if it had it already or the request is valid and the process is free, diagnostic or bound to that guest |
| `GuestHolder.PinnedChildKeepsInjective` | aether-android/aether-app/src/main/kotlin/com/aether/engine/proxy/GuestProcessRegistry.kt:190-219 | one handshake: a child that holds its owner's identity keeps the server's map injective even against an overlapping launch |
| `GuestHolder.PinnedNextIff` | aether-android/aether-app/src/main/kotlin/com/aether/engine/proxy/GuestProcessRegistry.kt:171-219 | a handshake, seed, reset or death keeps every mapped guest's identity in the process of its slot if and only if it does not record the diagnostic identity, reset an owned slot's process, or deliver the death of another than the slot's owner |
| `GuestHolder.OverlappingRunsStayInjective` | aether-android/aether-app/src/main/kotlin/com/aether/engine/proxy/GuestProcessRegistry.kt:113-219 | in every run of such steps, launches overlapping at will, no two guests are mapped to one slot |
| `MessageHold.Handler.SendMessage` | aether-android/aether-app/src/main/kotlin/com/aether/engine/proxy/HCallbackProxy.kt:118-122 | ordinary posts go to the tail of the queue |
| `MessageHold.Handler.SendMessageAtFrontOfQueue` | aether-android/aether-app/src/main/kotlin/com/aether/engine/proxy/HCallbackProxy.kt:118-122 | a re-posted message goes to the head of the queue |
| `MessageHold.HCallbackProxy.constructor` | aether-android/aether-app/src/main/kotlin/com/aether/engine/proxy/HCallbackProxy.kt:37-45 | initially not armed, not bound, nothing held, with the callback installed before, if any |
| `MessageHold.HCallbackProxy.HandleMessage` | aether-android/aether-app/src/main/kotlin/com/aether/engine/proxy/HCallbackProxy.kt:50-60 | armed and unbound, a message with the execute code and one with the launch code are each consumed and appended to the held ones; any other message, or any other moment, changes nothing and is answered by the callback installed before, or not consumed when there is none |
| `MessageHold.HCallbackProxy.Arm` | aether-android/aether-app/src/main/kotlin/com/aether/engine/proxy/HCallbackProxy.kt:101 | armed and not bound |
| `MessageHold.HCallbackProxy.FinishBind` | aether-android/aether-app/src/main/kotlin/com/aether/engine/proxy/HCallbackProxy.kt:107-124 | nothing stays held, and the queue is the held messages in their old order followed by what was queued |
| `MessageHold.PushFrontReverses` | aether-android/aether-app/src/main/kotlin/com/aether/engine/proxy/HCallbackProxy.kt:119-122 | pushing one by one to the front reverses, so pushing the reversed list prepends it in order |
| `MessageHold.ReverseReverse` | aether-android/aether-app/src/main/kotlin/com/aether/engine/proxy/HCallbackProxy.kt:119 | reversing twice gives the list back |
| `MessageHold.InvNext` | aether-android/aether-app/src/main/kotlin/com/aether/engine/proxy/HCallbackProxy.kt:50-124 | every step (post, dispatch, arm, drain, one push) keeps both message orders equal to the posted ones and holds only transactions, only during a bind |
| `MessageHold.RunDeliversInOrder` | aether-android/aether-app/src/main/kotlin/com/aether/engine/proxy/HCallbackProxy.kt:50-124 | in every run delivered, held, releasing and queued transactions together are those posted, in posting order; the other messages too; no transaction is delivered while armed and unbound |
| `MessageHold.RunHoldsBothCodes` | aether-android/aether-app/src/main/kotlin/com/aether/engine/proxy/HCallbackProxy.kt:50-60 | in every run neither a message with the execute code nor one with the launch code is delivered while armed and unbound, and nothing else is held |
| `MessageHold.DispatchIs` | aether-android/aether-app/src/main/kotlin/com/aether/engine/proxy/HCallbackProxy.kt:52-59 | one dispatch holds the head of the queue if a bind is in progress and its code is one of the two, and otherwise delivers it with the flags of that moment |
| `MessageHold.OtherSteps` | aether-android/aether-app/src/main/kotlin/com/aether/engine/proxy/HCallbackProxy.kt:101-121 | what a post, arm, the drain and one push each do to every part of the state |
| `MessageHold.DispatchesDeliverAll` | aether-android/aether-app/src/main/kotlin/com/aether/engine/proxy/HCallbackProxy.kt:57-59 | outside a bind as many dispatches as there are queued messages deliver them all, in order |
| `MessageHold.RunLosesNothing` | aether-android/aether-app/src/main/kotlin/com/aether/engine/proxy/HCallbackProxy.kt:50-124 | in every run each message is delivered, held, being released or queued exactly as often as it was posted |
| `MessageHold.QuiescentRunDeliveredAll` | aether-android/aether-app/src/main/kotlin/com/aether/engine/proxy/HCallbackProxy.kt:107-124 | when the queue is empty and no bind is in progress, everything posted was delivered, transactions and others each in order |
| `MessageHold.TotalOrderKeptIff` | aether-android/aether-app/src/main/kotlin/com/aether/engine/proxy/HCallbackProxy.kt:50-60 | one step keeps the order of all messages together if and only if it does not dispatch an ordinary message past held transactions |
| `MessageHold.RunKeepsTotalOrderIff` | aether-android/aether-app/src/main/kotlin/com/aether/engine/proxy/HCallbackProxy.kt:50-124 | a whole run keeps the order of all messages together if and only if none of its steps does that; an overtaking is never made up for |
| `MessageHold.PushesComplete` | aether-android/aether-app/src/main/kotlin/com/aether/engine/proxy/HCallbackProxy.kt:120-122 | the pushes, one step each, end with the pushed messages at the front and nothing left to release |
| `MessageHold.FinishBindAsSteps` | aether-android/aether-app/src/main/kotlin/com/aether/engine/proxy/HCallbackProxy.kt:107-124 | draining and pushing as single steps, uninterrupted, has the effect that the method FinishBind is proved to have |
| `ParcelFormat.ParcelWriter.constructor` | aether-core/src/main/kotlin/com/aether/SandboxManager.kt:269 | the output starts empty |
| `ParcelFormat.ParcelWriter.Utf8` | aether-core/src/main/kotlin/com/aether/SandboxManager.kt:293-301 | appends length, UTF-8 bytes, one NUL and zeros up to a multiple of four |
| `ParcelFormat.ParcelWriter.Utf16` | aether-core/src/main/kotlin/com/aether/SandboxManager.kt:304-312 | appends the code-unit count, UTF-16LE bytes, two NULs and zeros up to a multiple of four |
| `ParcelFormat.AdvanceAt` | aether-core/src/main/kotlin/com/aether/PackageConfParser.kt:81-90 | every round advances, so the walk terminates on every byte array |
| `ParcelFormat.ReadRound` | aether-core/src/main/kotlin/com/aether/PackageConfParser.kt:82-89 | one round of the walk: null marker, UTF-8, UTF-16, or one byte skipped; empty strings are consumed and dropped |
| `ParcelFormat.ReadStrings` | aether-core/src/main/kotlin/com/aether/PackageConfParser.kt:77-92 | the loop collects what the recursive walk from position 0 collects, on every byte array |
| `ParcelDecode.LengthBytesValue` | aether-core/src/main/kotlin/com/aether/SandboxManager.kt:296-297 | the four bytes of a length are its value modulo 2 to the 32, lowest byte first |
| `ParcelDecode.Utf8CharValue` | aether-core/src/main/kotlin/com/aether/SandboxManager.kt:294 | every character is written in the shortest form of UTF-8 and can be read off its bytes |
| `ParcelDecode.Utf16RoundTrip` | aether-core/src/main/kotlin/com/aether/PackageConfParser.kt:71 | decoding gives back every text encoded in UTF-16, surrogate pairs included |
| `ParcelDecode.TryUtf8Iff` | aether-core/src/main/kotlin/com/aether/PackageConfParser.kt:54-63 | the UTF-8 attempt gives a text and a size if and only if the record of that text, non-empty, printable ASCII and shorter than 4000, lies there, padding aside, and the size is its aligned length |
| `ParcelDecode.TryUtf16Iff` | aether-core/src/main/kotlin/com/aether/PackageConfParser.kt:66-74 | the UTF-16 attempt likewise, for UTF-16 records, the empty text included |
| `ParcelDecode.AdvanceIs` | aether-core/src/main/kotlin/com/aether/PackageConfParser.kt:82-89 | four bytes 0xFF are passed over; otherwise UTF-8 comes before UTF-16, an empty text is not collected, and where neither decodes one byte is passed over |
| `ParcelRoundTrip.Utf8RecordDecodes` | aether-core/src/main/kotlin/com/aether/PackageConfParser.kt:54-63 | a non-empty readable UTF-8 record, wherever it lies, decodes in the UTF-8 branch to its text and its own size |
| `ParcelRoundTrip.OneCharacterDecodes` | aether-core/src/main/kotlin/com/aether/PackageConfParser.kt:54-63 | a one-character UTF-16 record decodes through the UTF-8 branch with the same text and the same size |
| `ParcelRoundTrip.LongerIsNotUtf8` | aether-core/src/main/kotlin/com/aether/PackageConfParser.kt:54-63 | a longer UTF-16 record is refused by the UTF-8 branch |
| `ParcelRoundTrip.LongerDecodes` | aether-core/src/main/kotlin/com/aether/PackageConfParser.kt:66-74 | and decodes in the UTF-16 branch to its text and its own size |
| `ParcelRoundTrip.Utf16RecordDecodes` | aether-core/src/main/kotlin/com/aether/PackageConfParser.kt:54-74 | every readable UTF-16 record decodes to its text and size; the UTF-8 branch takes it if and only if it has one character |
| `ParcelRoundTrip.EmptyRecordsCoincide` | aether-core/src/main/kotlin/com/aether/SandboxManager.kt:293-312 | an empty record is the same bytes in both encodings |
| `ParcelRoundTrip.RecordDecodes` | aether-core/src/main/kotlin/com/aether/PackageConfParser.kt:82-89 | one round at any readable record collects its non-empty text and advances by exactly the record's size |
| `ParcelRoundTrip.StringsAreReadable` | aether-core/src/main/kotlin/com/aether/PackageConfParser.kt:77-92 | whatever the bytes, every string collected is non-empty, printable ASCII and shorter than 4000 |
| `ParcelRoundTrip.ReadableIs` | aether-core/src/main/kotlin/com/aether/PackageConfParser.kt:50-57 | readable means fewer than 4000 characters, each from space to tilde |
| `ParcelSkip.PrintableUnits` | aether-core/src/main/kotlin/com/aether/PackageConfParser.kt:71-72 | UTF-16 text that decodes to printable ASCII is printable unit by unit, surrogates included |
| `ParcelSkip.Blocked` | aether-core/src/main/kotlin/com/aether/PackageConfParser.kt:54-74 | at the end of a text, where its last bytes and the zeros after them make a length of four or more, neither attempt decodes, whatever record follows |
| `ParcelSkip.TextByte` | aether-core/src/main/kotlin/com/aether/PackageConfParser.kt:81-90 | no byte of a NUL-free text begins a record for the reader, save perhaps a last byte below four, and it advances by one |
| `ParcelSkip.UnreadablePassed` | aether-core/src/main/kotlin/com/aether/PackageConfParser.kt:81-90 | from anywhere in a record of NUL-free text that it cannot decode, of any length, the reader arrives at the zeros that end it and collects nothing |
| `ParcelWalk.Walked` | aether-core/src/main/kotlin/com/aether/PackageConfParser.kt:77-92 | from record to record, empty, readable or not, the reader collects exactly the readable texts and is back in step at the next record |
| `ParcelWalk.RecordsReadBack` | aether-core/src/main/kotlin/com/aether/PackageConfParser.kt:77-92 | any file of UTF-8 records and readable UTF-16 records reads back as its readable non-empty strings in order, when no string holds a NUL or ends in U+0001 to U+0003; unreadable ones may be non-ASCII, hold other control characters and be of any length |
| `ParcelWalk.RoundTripIff` | aether-core/src/main/kotlin/com/aether/PackageConfParser.kt:77-92 | a file of any records in any mixture of the two encodings reads back as all its non-empty strings if and only if every string is printable ASCII and shorter than 4000 |
| `ParcelWalk.LastTextMisread` | aether-core/src/main/kotlin/com/aether/PackageConfParser.kt:53-92 | a text that ends in U+0001 with three zeros after it, before a last readable text of 32 to 126 characters: the reader finds a one-character string, the code of that text's length, instead of the text |
| `PythonReader.PyReadRound` | tools/parse_packageconf.py:61-67 | one round of the offline walk, with offsets, nulls and empty strings kept |
| `PythonReader.PyReadStrings` | tools/parse_packageconf.py:52-68 | the loop lists what the recursive offline walk lists |
| `PythonReader.PyAdvanceIs` | tools/parse_packageconf.py:61-67 | one round, case by case, with nulls and empty texts listed |
| `PythonReader.DecodersAgree` | tools/parse_packageconf.py:28-33 | strict and replacing UTF-16 decoding agree on whether the text is printable ASCII and, if so, on the text |
| `PythonReader.AttemptsAgree` | tools/parse_packageconf.py:21-50 | both decoding attempts give the same answer and size in the two readers at every position of every byte array |
| `PythonReader.ReadersAgree` | aether-core/src/main/kotlin/com/aether/PackageConfParser.kt:77-92 | on every byte array the engine's reader collects the offline reader's strings with nulls and empty strings dropped |
| `PythonReader.OffsetsIncrease` | tools/parse_packageconf.py:52-68 | listed offsets increase strictly and each length word lies inside the data |
| `PackageConf.Write` | aether-core/src/main/kotlin/com/aether/SandboxManager.kt:269-283 | the records appended, in order: header, application, factory, launcher, the four component lists, metadata pairs, version, path, absent ones left out |
| `PackageConf.GeneratePackageConf` | aether-core/src/main/kotlin/com/aether/SandboxManager.kt:211-288 | those bytes, or none when the target cannot be looked up |
| `ConfContents.GeneratedBytes` | aether-core/src/main/kotlin/com/aether/SandboxManager.kt:269-283 | the bytes are the UTF-16 header and then, in UTF-8, class name, factory, launcher, activities, services, providers, receivers, metadata pairs, version and path, for any manifest |
| `ConfContents.Utf8FileIs` | aether-core/src/main/kotlin/com/aether/SandboxManager.kt:293-301 | a list of strings is written as their records one after the other |
| `ConfContents.FlattenedIs` | aether-core/src/main/kotlin/com/aether/SandboxManager.kt:280 | the metadata are written as key, value, key, value, in order |
| `ConfContents.ConfHolds` | aether-core/src/main/kotlin/com/aether/SandboxManager.kt:269-283 | reading the bytes of an in-step manifest gives the header and then those lists, in that order, each in its own order, without the strings that cannot be carried, and nothing else |
| `ConfContents.FoundIff` | aether-core/src/main/kotlin/com/aether/SandboxManager.kt:273-282 | a string is found in the bytes if and only if it is the header, or is readable and non-empty and the factory or one of the manifest's own strings |
| `PackageConf.Parse` | aether-core/src/main/kotlin/com/aether/PackageConfParser.kt:139-156 | the loop finds the first dotted number just before a string ending in base.apk, else the first dotted number; the path is the first string ending in base.apk |
| `ConfContents.FirstApkIs` | aether-core/src/main/kotlin/com/aether/PackageConfParser.kt:156 | the apk path is the first string that ends in base.apk, none exactly when there is none |
| `ConfContents.SemverIff` | aether-core/src/main/kotlin/com/aether/PackageConfParser.kt:139 | a version is two or more groups of digits with dots between |
| `ConfContents.VersionIs` | aether-core/src/main/kotlin/com/aether/PackageConfParser.kt:141-146 | the version is the first one that stands right before a string ending in base.apk, or else the first one |
| `ConfContents.FirstSemverIs` | aether-core/src/main/kotlin/com/aether/PackageConfParser.kt:146 | the first version is the first string that is one, none exactly when there is none |
| `PackageConf.ConfFile.Bootstrap` | aether-core/src/main/kotlin/com/aether/SandboxManager.kt:468-493 | the file is replaced exactly when it is missing, under 32 bytes, unresolvable or names another path, and something was generated |
| `PackageConf.SourceNamesCarried` | aether-core/src/main/kotlin/com/aether/SandboxManager.kt:269-274 | the two fixed strings of the file survive the reader and the header is not taken for an apk path |
| `PackageConf.ConfReadsBack` | aether-core/src/main/kotlin/com/aether/SandboxManager.kt:269-283 | a generated file reads back as its header and those strings of its body that are non-empty, printable ASCII and shorter than 4000, when no string holds a NUL or ends in U+0001 to U+0003 |
| `PackageConf.ApkPathOfConf` | aether-core/src/main/kotlin/com/aether/PackageConfParser.kt:156 | parsing such a file gives the first readable string of the body that ends in base.apk |
| `PackageConf.FreshAfterWriteIff` | aether-core/src/main/kotlin/com/aether/SandboxManager.kt:474-490 | for every manifest in which no string holds a NUL or ends in U+0001 to U+0003, writing settles the freshness test if and only if the live path ends in base.apk and is readable and no different readable string written before it ends so (without a path: no readable string does) |
| `PackageConf.UnreadablePathStaysStale` | aether-core/src/main/kotlin/com/aether/SandboxManager.kt:474-482 | a path that does not end in base.apk, or that the reader cannot carry, is found stale whatever the file holds |
| `PackageConf.SecondBootstrap` | aether-core/src/main/kotlin/com/aether/SandboxManager.kt:468-493 | a second bootstrap never changes the file, for any manifest; for manifests as in `FreshAfterWriteIff` it finds it stale if and only if the first did and the path is not the first readable string that ends in base.apk |
| `PackageConf.ControlCharacterHidesPath` | aether-core/src/main/kotlin/com/aether/SandboxManager.kt:280-282 | when the string before the path ends in U+0001 with three zeros after it, a path of 32 to 126 characters is not found although it is the first string that ends in base.apk, and the file just written is stale |
| `PackageConf.MetadataValueHidesPath` | aether-core/src/main/kotlin/com/aether/SandboxManager.kt:280 | so a last metadata value of the one character U+0001, in a manifest without a version, leaves the file just written stale |
| `PackageConf.VersionReadsBack` | aether-core/src/main/kotlin/com/aether/PackageConfParser.kt:139-146 | a dotted-number version shorter than 4000 and written just before the path is the version parsed, whatever other dotted numbers the file holds, when the path is the only readable string that ends in base.apk |
| `PatternScan.FirstHit` | aether-native/src/main/cpp/core/aob_scanner.cpp:59-72 | the least index at which the masked pattern matches inside the buffer, none only if there is no match |
| `PatternScan.AobScanner.constructor` | aether-native/src/main/cpp/core/aob_scanner.cpp:26-27 | the cache starts empty |
| `PatternScan.AobScanner.FindInWindow` | aether-native/src/main/cpp/core/aob_scanner.cpp:59-72 | the two nested loops find the first hit |
| `PatternScan.AobScanner.Scan` | aether-native/src/main/cpp/core/aob_scanner.cpp:34-76 | answer and cache after the window loop are those of the recursive cached scan: live positive entries answer, live negative ones skip, others are read and stored |
| `ScanSearch.MatchInWindow` | aether-native/src/main/cpp/core/aob_scanner.cpp:55-65 | a match in the buffer of a window is a match in memory at that offset of the region |
| `ScanSearch.WindowFindsLowest` | aether-native/src/main/cpp/core/aob_scanner.cpp:55-73 | one window answers with the lowest match inside it, 0 if there is none |
| `ScanSearch.ScanFindsLowest` | aether-native/src/main/cpp/core/aob_scanner.cpp:34-76 | with full reads the scan reports the lowest address where the pattern lies wholly inside one window, and 0 if and only if there is none |
| `ScanSearch.ScanIsNaiveIff` | aether-native/src/main/cpp/core/aob_scanner.cpp:42-74 | the scan equals a plain search of the region if and only if the lowest match, when there is one, lies inside one window |
| `ScanSearch.AlwaysExactIff` | aether-native/src/main/cpp/core/aob_scanner.cpp:34-76 | a request is answered as by a plain search, whatever the memory holds, if and only if the region is at most 4 MB or smaller than the pattern, or the pattern is one byte, or all wildcards and at most 4 MB long |
| `ScanSearch.SmallRegionExact` | aether-native/src/main/cpp/core/aob_scanner.hpp:17 | a region of at most 4 MB is searched exactly |
| `ScanSearch.StraddlingMatchIsMissed` | aether-native/src/main/cpp/core/aob_scanner.cpp:42-74 | a concrete memory whose only match crosses the first window boundary is reported as 0 |
| `ScanCache.KeyTextInjective` | aether-native/src/main/cpp/core/aob_scanner.cpp:10-19 | the key text determines the pattern and the mask |
| `ScanCache.CachedIsUncached` | aether-native/src/main/cpp/core/aob_scanner.cpp:46-73 | from a sound cache a scan answers as without one and leaves the cache sound |
| `ScanCache.CacheIsTransparent` | aether-native/src/main/cpp/core/aob_scanner.cpp:34-76 | on unchanging memory any sequence of scans at any times answers as without a cache |
| `ScanCache.ScanExplained` | aether-native/src/main/cpp/core/aob_scanner.cpp:42-74 | window by window, every answer and every skipped window is explained by a read made less than 30 seconds earlier |
| `ScanCache.AnswersAreRecent` | aether-native/src/main/cpp/core/aob_scanner.cpp:46-73 | this holds over every run on changing memory |
| `ScanCache.ReportedMatchIsRecent` | aether-native/src/main/cpp/core/aob_scanner.hpp:18 | every non-zero answer was a true match in memory less than 30 seconds earlier |
| `ScanCache.WindowIsRemembered` | aether-native/src/main/cpp/core/aob_scanner.cpp:46-51 | less than 30000 ms after a window's answer was read it is given again, positive or negative, without reading; from 30000 ms on the window is read again |
| `ScanCache.SecondScan` | aether-native/src/main/cpp/core/aob_scanner.cpp:42-74 | two scans for one query, the first with an empty cache: less than 30000 ms apart they answer the same and the second changes and reads nothing, on any memory; from 30000 ms on the second answers as a fresh read |
| `ScanCache.RepeatedScan` | aether-native/src/main/cpp/core/aob_scanner.cpp:42-74 | with any cache, a scan is repeated word for word while no entry that served it has expired |
| `GuestSession.GuestRuntime.constructor` | aether-core/src/main/kotlin/com/aether/GuestRuntime.kt:532-539 | a built runtime is initializing and has a base context |
| `GuestSession.GuestRuntime.BindToActivityThread` | aether-core/src/main/kotlin/com/aether/GuestRuntime.kt:80-111 | both fields, the state and the outcome of a bind for present, missing and throwing fields, written out; the state becomes ACTIVE when one pass succeeds, and a throwing initial field leaves by exception after the passes |
| `GuestSession.GuestRuntime.Suspend` | aether-core/src/main/kotlin/com/aether/GuestRuntime.kt:179-182 | only an active runtime is suspended |
| `GuestSession.GuestRuntime.Resume` | aether-core/src/main/kotlin/com/aether/GuestRuntime.kt:185-188 | only a suspended runtime is resumed |
| `GuestSession.GuestRuntime.Close` | aether-core/src/main/kotlin/com/aether/GuestRuntime.kt:194-217 | the host replaces the guest as initial application only if the guest is there and the host known, the guest leaves the list, a throw at the first field skips both; closing twice is closing once |
| `GuestSession.GuestRuntimeBridge.constructor` | aether-android/aether-app/src/main/kotlin/com/aether/engine/proxy/GuestRuntimeBridge.kt:127-129 | a bridge starts in AUTO without a runtime |
| `GuestSession.GuestRuntimeBridge.LoadV2` | aether-android/aether-app/src/main/kotlin/com/aether/engine/proxy/GuestRuntimeBridge.kt:247-326 | session, result and events of a load through the new runtime, including the builder's own bind, the close of the previous runtime and both failures |
| `GuestSession.GuestRuntimeBridge.LoadV1` | aether-android/aether-app/src/main/kotlin/com/aether/engine/proxy/GuestRuntimeBridge.kt:332-372 | a sandboxed load is refused before the old loader is reached |
| `GuestSession.GuestRuntimeBridge.LoadWithFallback` | aether-android/aether-app/src/main/kotlin/com/aether/engine/proxy/GuestRuntimeBridge.kt:225-241 | the new runtime, then the old loader with a fallback event between; DUAL (378-392) runs the same code |
| `GuestSession.GuestRuntimeBridge.Load` | aether-android/aether-app/src/main/kotlin/com/aether/engine/proxy/GuestRuntimeBridge.kt:160-201 | each mode takes its path; the result with its metrics becomes the last result, which a load that ends in an exception leaves as it was |
| `GuestSession.GuestRuntimeBridge.Close` | aether-android/aether-app/src/main/kotlin/com/aether/engine/proxy/GuestRuntimeBridge.kt:211-219 | the active runtime is closed and forgotten, and so is the last result |
| `GuestRuns.RemovedOnly` | aether-core/src/main/kotlin/com/aether/GuestRuntime.kt:209-210 | taking a guest that occurs once out of the list leaves the rest in order |
| `GuestRuns.LoadKeepsClean` | aether-android/aether-app/src/main/kotlin/com/aether/engine/proxy/GuestRuntimeBridge.kt:247-326 | any load by the new runtime of a new guest leaves the thread with the host's applications and the live runtime's guest, nothing else, in both bind orders |
| `GuestRuns.RemovedIs` | aether-core/src/main/kotlin/com/aether/GuestRuntime.kt:210 | the first occurrence is taken out of the list, and nothing when there is none |
| `GuestRuns.NewLoadSucceedsIff` | aether-android/aether-app/src/main/kotlin/com/aether/engine/proxy/GuestRuntimeBridge.kt:247-326 | a load by the new runtime succeeds if and only if the build succeeded, the process is attached, the initial field does not throw, and it is present or the list does not throw or the resources can be touched; then the built application, with base context and ACTIVE, is the active runtime and in the usable fields, with the number of providers given; after a refused bind the previous runtime is closed, after a failed build nothing has changed |
| `GuestRuns.LoadByMode` | aether-android/aether-app/src/main/kotlin/com/aether/engine/proxy/GuestRuntimeBridge.kt:160-241 | the events, the success, the source's provider count and thread of a load in each mode |
| `GuestRuns.SandboxedLoad` | aether-android/aether-app/src/main/kotlin/com/aether/engine/proxy/GuestRuntimeBridge.kt:332-351 | no mode of a sandboxed load reaches the old loader; session, success and source are the new runtime's |
| `GuestRuns.V1ReachedIff` | aether-android/aether-app/src/main/kotlin/com/aether/engine/proxy/GuestRuntimeBridge.kt:225-241 | the old loader is reached if and only if the load is not sandboxed and the mode names it or falls back to it |
| `GuestRuns.InvNext` | aether-android/aether-app/src/main/kotlin/com/aether/engine/proxy/GuestRuntimeBridge.kt:160-219 | mode changes, sandboxed loads, suspend, resume and close each keep the thread clean |
| `GuestRuns.RunFromHost` | aether-android/aether-app/src/main/kotlin/com/aether/engine/proxy/GuestRuntimeBridge.kt:160-219 | in every run of sandboxed loads and closes the list is the host's plus the live guest, the initial application is the host or that guest, and closing the bridge gives the host's state back |
| `GuestRuns.LoadThrowsIff` | aether-core/src/main/kotlin/com/aether/GuestRuntime.kt:80-111 | a load ends in an exception if and only if its mode tries the new runtime, the runtime is built, the process has an activity thread, and accessing the initial application throws |
| `GuestRuns.ThrownLoadLeaves` | aether-android/aether-app/src/main/kotlin/com/aether/engine/proxy/GuestRuntimeBridge.kt:259-285 | such a load leaves the new guest in a usable list, the initial application as it was, and the previous runtime active, or closed when the builder did not bind; closing the bridge then removes nothing |
| `GuestRuns.DualIsAuto` | aether-android/aether-app/src/main/kotlin/com/aether/engine/proxy/GuestRuntimeBridge.kt:378-392 | DUAL gives the outcome of AUTO on every input |
| `GuestRuns.MetricsTellTheLoad` | aether-android/aether-app/src/main/kotlin/com/aether/engine/proxy/GuestRuntimeBridge.kt:185-196 | the metrics, computed from the events, say which loaders were tried, which one succeeded and whether the fallback happened |
| `GuestRuns.LeftBehind` | aether-core/src/main/kotlin/com/aether/GuestRuntime.kt:194-214 | when restoring is impossible a single load and close leaves the guest in the thread |
| `GuestRuns.AlwaysRestoresIff` | aether-core/src/main/kotlin/com/aether/GuestRuntime.kt:194-217 | the host's state comes back after every run if and only if a throwing initial field comes without a usable list, and a usable initial field with a known host |
| `IncludeClosure.FirstExisting` | scripts/structural_gates.py:22-26 | the first candidate that exists is taken, none exactly when none exists |
| `IncludeClosure.Walk.Visit` | scripts/structural_gates.py:15-27 | the recursive walk over the shared set adds only reachable files, each with all files it includes, and terminates on cycles |
| `IncludeClosure.Closure` | scripts/structural_gates.py:15-28 | the closure is exactly the set of existing files reachable from the entry |
| `IncludeClosure.ExploredContainsChain` | scripts/structural_gates.py:20-26 | a set that holds what its members include holds the end of every include chain that starts in it |
| `JniDescriptor.Slashed` | aether-android/aether-app/src/main/kotlin/com/aether/engine/proxy/MethodUtils.kt:31 | every dot of a class name becomes a slash and every other character stays |
| `JniDescriptor.PrimitiveDescriptors` | aether-android/aether-app/src/main/kotlin/com/aether/engine/proxy/MethodUtils.kt:52-63 | the letter of each primitive type |
| `JniDescriptor.DescriptorShapes` | aether-android/aether-app/src/main/kotlin/com/aether/engine/proxy/MethodUtils.kt:28-46 | the brackets, letters and order of the parts of type, method and constructor descriptors |
| `JniDescriptor.NoDots` | aether-android/aether-app/src/main/kotlin/com/aether/engine/proxy/MethodUtils.kt:31 | no type descriptor holds a dot |
| `JniDescriptor.TypeRoundTripIff` | aether-android/aether-app/src/main/kotlin/com/aether/engine/proxy/MethodUtils.kt:28-32 | a type's descriptor reads back, whatever follows it, if and only if no class name in it has a semicolon or a slash |
| `JniDescriptor.DescriptorsArePrefixFree` | aether-android/aether-app/src/main/kotlin/com/aether/engine/proxy/MethodUtils.kt:28-32 | two texts that begin with descriptors and are equal have the same type there and the same rest |
| `JniDescriptor.MethodRoundTripIff` | aether-android/aether-app/src/main/kotlin/com/aether/engine/proxy/MethodUtils.kt:35-39 | a method's descriptor gives back the exact parameters and return type if and only if no class name in it has a semicolon or a slash |
| `JniDescriptor.ConstructorReadsBack` | aether-android/aether-app/src/main/kotlin/com/aether/engine/proxy/MethodUtils.kt:42-46 | a constructor's descriptor reads back as its parameters and void |
| `JniDescriptor.MethodDescInjective` | aether-android/aether-app/src/main/kotlin/com/aether/engine/proxy/MethodUtils.kt:35-39 | equal descriptors come from equal signatures |
| `VirtualPaths.VirtualFS.AddRedirect` | aether-native/src/main/cpp/layer/bindmount/virtual_fs.cpp:36-38 | adds or replaces one rule |
| `VirtualPaths.VirtualFS.RemoveRedirect` | aether-native/src/main/cpp/layer/bindmount/virtual_fs.cpp:40-42 | removes one rule |
| `VirtualPaths.VirtualFS.Resolve` | aether-native/src/main/cpp/layer/bindmount/virtual_fs.cpp:52-78 | in any walk order the longest non-empty matching key is replaced; without one the path is looked up exactly, or left alone |
| `VirtualPaths.VirtualFS.HasRedirect` | aether-native/src/main/cpp/layer/bindmount/virtual_fs.cpp:80-87 | true if and only if some key, the empty one included, is a prefix of the path |
| `VirtualPaths.ResolutionIsUnique` | aether-native/src/main/cpp/layer/bindmount/virtual_fs.cpp:59-69 | two walks of the map in different orders resolve to the same text |
| `VirtualPaths.UnredirectedIsIdentity` | aether-native/src/main/cpp/layer/bindmount/virtual_fs.cpp:52-87 | a path without a redirect resolves to itself |
| `VirtualPaths.LongestPrefixIff` | aether-native/src/main/cpp/layer/bindmount/virtual_fs.cpp:60-77 | resolution replaces the longest matching key if and only if it is not the case that only an empty key with a non-empty replacement applies to a non-empty path |
| `VirtualPaths.BuiltRulesResolveByLongestPrefix` | aether-native/src/main/cpp/layer/bindmount/virtual_fs.cpp:36-78 | every rule set built by adding non-empty keys and removing any resolves by the longest prefix |
| `LaunchResult.DiagLog.WriteResult` | aether-android/aether-app/src/main/kotlin/com/aether/engine/proxy/DiagLog.kt:61-73 | the text is the printed entries between braces with time stamp and process id, and it reads back as the entries with double quotes turned to single ones, time stamp and process id, if and only if every key is non-empty and made of letters and underscores |
| `LaunchResult.DiagLog.Read` | aether-android/aether-app/src/main/kotlin/com/aether/engine/proxy/DiagLog.kt:76-86 | nothing without a file; every key read is non-empty and made of letters and underscores; after a write with such keys exactly the entries written, sanitized, with time stamp and process id |
| `LaunchResult.Sanitized` | aether-android/aether-app/src/main/kotlin/com/aether/engine/proxy/DiagLog.kt:65 | double quotes become single quotes and every other character stays |
| `LaunchResult.BodyShape` | aether-android/aether-app/src/main/kotlin/com/aether/engine/proxy/DiagLog.kt:64-66 | an entry is printed as quoted key, colon, quoted value, and entries are separated by single commas |
| `LaunchResult.DecimalValue` | aether-android/aether-app/src/main/kotlin/com/aether/engine/proxy/DiagLog.kt:69 | numbers are printed in decimal, without leading zeros |
| `LaunchResult.MatchHereIff` | aether-android/aether-app/src/main/kotlin/com/aether/engine/proxy/DiagLog.kt:81 | the expression matches at a position if and only if a quoted key of letters and underscores, a colon, and a quoted text without quotes or a maximal run of digits stand there; this gives key, group and rest |
| `LaunchResult.AssociatedIs` | aether-android/aether-app/src/main/kotlin/com/aether/engine/proxy/DiagLog.kt:82-84 | a key's value is that of its last match |
| `LaunchResult.EntryFound` | aether-android/aether-app/src/main/kotlin/com/aether/engine/proxy/DiagLog.kt:64-66 | a printed entry with a key of letters and underscores is found first, with its double quotes turned to single ones, and the search goes on after it |
| `LaunchResult.TextFound` | aether-android/aether-app/src/main/kotlin/com/aether/engine/proxy/DiagLog.kt:81-84 | the expression finds exactly the entries, the time stamp and the process id, in order |
| `LaunchResult.FoundKeysAreKeyLike` | aether-android/aether-app/src/main/kotlin/com/aether/engine/proxy/DiagLog.kt:81 | whatever the text, a found key is non-empty and made of letters and underscores |
| `LaunchResult.ResultRoundTripIff` | aether-android/aether-app/src/main/kotlin/com/aether/engine/proxy/DiagLog.kt:61-86 | the written text reads back as the sanitized map with time stamp and process id if and only if every key is non-empty and made of letters and underscores |
| `BracketText.Body` | scripts/dart_static_check.py:82-94 | the depth-counting loop returns the text before the first return to depth zero |
| `BracketText.BodyEndsIff` | scripts/dart_static_check.py:86-93 | a position closes the opener if and only if it holds the closer and the text between is well nested |
| `BracketText.DepthCounts` | scripts/dart_static_check.py:86-91 | the depth is the number of openers less that of closers |
| `BracketText.ClosedBody` | scripts/dart_static_check.py:82-93 | with a closing position the body is exactly the text between the first opener and it |
| `BracketText.UnclosedBody` | scripts/dart_static_check.py:94 | the body runs to the end of the text if and only if no position closes the opener |
| `BracketText.SplitTop` | scripts/dart_static_check.py:97-112 | the loop returns the pieces, a blank last one dropped |
| `BracketText.SplitIff` | scripts/dart_static_check.py:97-109 | the pieces are the only splitting into parts without a depth-0 comma, all but the last balanced, that joins back to the text |
| `BracketText.PiecesAreCut` | scripts/dart_static_check.py:97-109 | the same by counting the six brackets: the text is cut exactly at the commas with as many opening as closing brackets before them in their piece |
| `BracketText.AsciiSpaces` | scripts/dart_static_check.py:110 | the ASCII characters that count as blank |
| `BracketText.PartsRejoinIff` | scripts/dart_static_check.py:110-111 | what is returned joins back to the text if and only if the last piece is not blank or the text is empty |
| `GapClusters.FamSlots` | scripts/build_boot_linkage.py:352-359 | the slots that mention the class, each as often as in the pool, in address order, those at one address in pool order |
| `GapClusters.MentioningIs` | scripts/build_boot_linkage.py:355-357 | the slots that mention the class are picked one by one in pool order |
| `GapClusters.Clusters` | scripts/build_boot_linkage.py:364-370 | clusters concatenate to the slots, neighbours inside one are at most the gap apart, consecutive ones further |
| `GapClusters.FamClusters` | scripts/build_boot_linkage.py:361-370 | the clusters hold exactly the class's slots in address order, and slots of any two different clusters are more than the gap apart |
| `GapClusters.ClusteringIsUnique` | scripts/build_boot_linkage.py:361-370 | there is only one such division: the runs are maximal |
| `GapClusters.ClustersFarApart` | scripts/build_boot_linkage.py:361-370 | in address order any slots of different clusters, not just neighbouring ones, are more than the gap apart |
| `XorKeys.DeriveKey` | aether-native/src/main/cpp/core/key_store.cpp:32-37 | byte j of the derived key is byte j of the master key XORed with every name byte at an index congruent to j |
| `XorKeys.FoldedFromFront` | aether-native/src/main/cpp/core/key_store.cpp:35 | the name bytes that fall on byte j are the one at j of the first key length and those of the rest |
| `XorKeys.XorCrypt` | aether-native/src/main/cpp/core/crypto.cpp:36-44 | output byte i is input byte i XORed with the key byte at i modulo the key's length; an empty key copies |
| `XorKeys.PayloadStore.Put` | aether-native/src/main/cpp/core/payload_store.cpp:14-17 | stores under the name, replacing |
| `XorKeys.PayloadStore.Get` | aether-native/src/main/cpp/core/payload_store.cpp:22-26 | the stored bytes, or none |
| `XorKeys.PayloadStore.Decrypt` | aether-native/src/main/cpp/core/payload_store.cpp:53-67 | each stored byte XORed with the byte of the key derived for the name at its index modulo 30; nothing for a key that is not 30 bytes beginning with 1, or an unknown name |
| `XorKeys.XorStreamTwice` | aether-native/src/main/cpp/core/crypto.cpp:36-44 | encrypting twice with one key gives the data back |
| `XorKeys.DerivedTwice` | aether-native/src/main/cpp/core/key_store.cpp:32-37 | deriving twice with one name gives the master key back |
| `XorKeys.DecryptedBack` | aether-native/src/main/cpp/core/payload_store.cpp:53-67 | under a valid key the stream cipher with the derived key turns the decrypted payload back into the stored one |

## Left out

- GuestLaunch.RunIsSafe: launches do not overlap one another; what overlapping launches can do is `OverlappingLaunchesCollide`, and what protects against it is `OverlappingRunsStayInjective`.
- GuestOrchestrator.AetherOrchestrator.LaunchInSandbox: no death is delivered inside a launch here; the runs of `GuestLaunch` deliver them between any two steps. Container set-up, bootstrap, mounting and engine start before the allocation are one flag, `prepared`.
- GuestLaunch.RunIsExact: assumes that linkToDeath succeeds and that an unlinked recipient is not delivered.
- GuestHolder.GuestProcessHolder.HandleInit: the fields of the reply bundle are one of three values; the error text is its reason.
- MessageHold.RunDeliversInOrder: `reset` discards held messages and is not a step; delayed messages and front posts by others are not modelled; a delivery hands the message on, to the callback installed before or to the handler.
- ParcelWalk.RoundTripIff: strings of unpaired surrogates cannot be written, since a string is a sequence of scalar values; the reader decodes them.
- ParcelWalk.RecordsReadBack: one direction; what happens to a string that holds a NUL or ends in U+0001 to U+0003 depends on the lengths of its neighbours, and `LastTextMisread` is the case that loses the path.
- PackageConf.FreshAfterWriteIff: the same strings are excluded, for the same reason; `ControlCharacterHidesPath` shows that they cannot be admitted. ConfReadsBack, ApkPathOfConf, SecondBootstrap and VersionReadsBack share the condition.
- PackageConf.Parse: only the apk path and the version; classification of components, metadata and package name is left out, as it feeds nothing modelled here.
- PackageConf.SecondBootstrap: both bootstraps see the same manifest; the version fetched from the network is part of it.
- PatternScan.AobScanner.Scan: the clock and memory reads are parameters, with one memory for each scan; a mask shorter than the pattern, a base of 0 and addresses that wrap around are excluded, the first being undefined in C++ and 0 meaning "none".
- GuestRuns.RunFromHost: availability of the activity thread and its two fields is fixed for a run; an unsandboxed load hands the thread to the old loader, VirtualAppLoader, which is not part of this model.
- GuestSession.GuestRuntimeBridge.Load: elapsed times, log text, provider installation and the effects of the guest's onCreate are left out; the number of installed providers is an input.
- GuestSession.GuestRuntime.BindToActivityThread: process-name spoofing, the native seed and resources are one flag, `resourcesOk`.
- IncludeClosure.Closure: the include pattern and path joining are the abstract `candidates`; names are canonical, so the walk cannot meet one file under two names.
- LaunchResult.DiagLog.WriteResult: a missing directory and failing file operations, which both sides swallow, are left out; the clock is not negative.
- GapClusters.FamSlots: the pattern that tells whether a body mentions a class is a parameter, and addresses are numbers, not hexadecimal text.
- XorKeys.DeriveKey: an empty master key, for which the source divides by zero, is excluded; decryption never passes one.
- Threads and locks: each locked section is one step.
- Reflection into the Android framework, JNI hooks, module resolution, root-bypass set-up, mounts and shell calls.
- LZ4 compression: a foreign library.
- Remote configuration, the Flutter bridge, the daemon and its services, activities and WebView.
- The trace and log files of the diagnostics, the register tracker and the reports of the build scripts.
