# Jerboa: verified core

A Dafny model of the parts of Jerboa whose correctness is hard to see from the code, with
proofs that hold for every input, every run or every reachable state. One module stands for
one component:

| module | component |
|---|---|
| `Links`, `Snapshot`, `Paths` | the snapshot extractor of the reproducible macOS build: symlink resolution, validation, the write loop |
| `Packaging` | the worklist that closes over the libraries of the packaged executable |
| `Handshake` | the mutual challenge handshake between client and daemon |
| `Framing`, `Attach` | length-prefixed frames, and the console session that is carried in them |
| `Sse` | the server-sent events writer against the parser of the WHATWG HTML standard |
| `TermSafe`, `Utf8` | the terminal sanitizer over UTF-8 (RFC 3629) and ECMA-48 escape sequences |
| `Diff`, `Poller` | the VM differ and the event poller as a concurrent state machine |
| `Saga`, `Scope` | `compose up` and `compose down` as a journaled saga; scoping of resource names |
| `Restore` | the network checks of an in-place snapshot restore |
| `Stats`, `PackageIndex` | benchmark percentiles and bootstrap; the immutable package index |
| `Text` | splitting, joining and a writer that may run out of room |

Code that changes things step by step is modelled by methods and classes; each is proved
against a specification function or predicate, and the theorems are stated about those.
`dafny verify dfyconfig.toml` checks everything.

## Main results

- **Symlinks.** The reference is pathname resolution as in section 4.13 of POSIX.1-2017, written
  as a small-step walk with a stack of frames. The recursive resolver terminates on every link graph
  and agrees with the walk: it succeeds exactly when the walk ends inside the root with at most 40
  links open, and below that bound it reports a cycle exactly when the walk has no finite run and an
  escape exactly when the walk leaves the root. Every accepted archive, in every order of its
  members, is written without meeting an existing path or passing through a link, and gives exactly
  the members and their parent directories.
- **Handshake.** Over all interleavings of clients, token-holding daemons and a network that drops,
  replays, reorders and makes up messages, a client that accepts was answered, after it drew its
  nonce, by a daemon session that issued the very challenge it saw if and only if that challenge is
  32 bytes long. The client itself demands only 16 (`internal/api/client.go:89`), and nothing in the
  MAC input marks where the challenge ends; a run in which a client accepts a longer one is given.
- **Byte streams.** Any split into writes, any read sizes below 2^32 and any short reads give the
  original bytes, then end-of-file right behind the terminator; a stream cut earlier is always
  noticed. Attach succeeds exactly on a whole session with a good terminal status and has then
  written exactly the console bytes. The event stream parses back to exactly the events written,
  and an event survives exactly when it can be written on the lines the format has.
- **Sanitizer.** However the output is split, what reaches the terminal is a fixpoint of the
  sanitizer: valid UTF-8 without control characters but tab and newline. The cut after a piece is
  harmless for every continuation exactly when it lies between two items.
- **Poller.** Through every run, a subscriber that lost no event can rebuild the current VM states from
  those at its subscription. One that started the loop can do so from its events alone if and only if
  they speak of every VM in the list that the last poll to end while nobody was subscribed has left
  behind; a run in which it cannot is given.
- **Compose.** However `up` ends, the state file names all it created but for at most the newest;
  `down` keeps naming what still exists until it removes the file; if no call goes wrong, and every VM
  stops within 25 attempts, both succeed.
- **Restore.** As long as no address is released and no network removed from outside, and of a VM and
  its replacement one is always gone, restores interleaved with `VM.Run`, `VM.Start` and everything else keep the live
  VMs of every network apart if and only if no VM is brought to life whose aliases clash: addresses and
  names the calls see to themselves. Each of the three exceptions, and the aliases, has a run in which two
  live VMs clash.

## Where code and text differ

The code is what is modelled.

- The comment on the sanitizer speaks of invalid bytes; the code also drops a genuine U+FFFD
  (`cmd/jerboa/termsafe.go:33-38`), as `ReplacementCharacterVanishes` says; `TextIsFixpoint` therefore
  excludes that code point.
- The same comment says escape sequences are dropped whole; `ESC ( B` leaves its `B`
  (`cmd/jerboa/termsafe.go:81-82`). `VanishesIffNoIntermediate` says exactly which do.
- The comment on the poller says a cancelled loop can neither clobber nor emit
  (`internal/agent/events.go:150-152`). That holds once a replacement has started
  (`OlderPollIsInert`); before that the cancelled poll still carries the current generation
  (`LeftBehind`).
- `down` without `--volumes` removes the state file although volumes it names remain
  (`cmd/jerboa/compose.go:285-311`); `Down` states this exactly.
- The frame writer puts no bound on a write although the reader refuses more than 64 MiB
  (`FrameReadsIffItFits`), and the reader compares buffer lengths on 32 bits (`ToReadStaysInside`).
- Two libraries with one file name share one copy in the package
  (`scripts/build-macos-reproducible.py:508-512`); `PackageIsClosure` gives the exact condition,
  `FlatLayoutIsClosed` that the native build's own layout meets it and `TwinsShareOneCopy` a build that
  does not.
- Published packages are called immutable (`docs/package-recipes.md:126`), but different keys can have
  one archive name, and archives are copied before conflicts are looked at
  (`scripts/package-index.py:72-80`). For a destination directory that holds the published archives
  `ArchivesKeptIffCoherent` gives the exact condition. The release workflow starts from a directory without
  them and uploads without replacing anything (`.github/workflows/packages.yml:135-151`), so there a shared
  name stops the upload instead; `UploadableIffDistinct` says exactly when it does not.
- The comment on restore says nothing can interleave with its checks
  (`internal/apiserver/snapshot.go:65-67`); the network calls take no lock, and `RestoredAddress`
  states what they can do to the address, `ReleasedDuringRestore` that they can.
- `VM.Start` is said to prevent duplicate replacements that share an address
  (`internal/apiserver/server.go:902-905`). When the removal of the predecessor fails it is only logged
  (`internal/apiserver/server.go:944-946`), and the predecessor can be started again (`StartedTwice`).
- Removal is serialised so that a released address cannot be reused while its VM is registered
  (`internal/apiserver/server.go:815-817`), but `Network.ReleaseIP` releases any address, and `VM.Start` does
  not look at addresses (`ReleasedAddressIsShared`); nor does it after its network was removed and created
  again (`RecreatedNetworkIsShared`).

## Model

| member | source | states |
|---|---|---|
| `Links.ResolveLink` | scripts/build-macos-reproducible.py:204-219 | The resolver terminates on every link graph, and its verdict is true of the component-by-component walk: a resolved path is where the walk ends, with no prefix that is a link; an escape, a cycle and excessive depth are real |
| `Links.SoundDecides` | scripts/build-macos-reproducible.py:204-219 | The resolver succeeds exactly when the walk ends inside the root within the depth bound, and then at that unique place; below the bound it reports a cycle exactly when the walk never ends and an escape exactly when it escapes |
| `Links.MeetingItselfDiverges` | scripts/build-macos-reproducible.py:216-217 | A link that is met again while it is being followed has no finite walk, so the cycle test rejects nothing that resolves |
| `Links.CleanResolvesToItself` | scripts/build-macos-reproducible.py:204-219 | Resolving a resolved path changes nothing |
| `Links.VerdictsExclude` | scripts/build-macos-reproducible.py:204-219 | A walk that ends within a depth neither escapes, diverges nor goes deeper, and ends in one place only |
| `Links.FollowLink` | scripts/build-macos-reproducible.py:213-218 | The verdict on a link's target, resolved with the link on the stack, is the verdict on the path that contains the link |
| `Links.RunFrame` | scripts/build-macos-reproducible.py:218 | What happens inside a link does not depend on what follows it, which is why the resolver may recurse |
| `Paths.PartsOfJoin` | scripts/build-macos-reproducible.py:187-196 | The text of a path determines its components, so keying entries by text and by components is the same |
| `Paths.FileNameAfterSlash` | scripts/build-macos-reproducible.py:507-508 | The file name of a path is what follows its last slash |
| `Snapshot.LexicalCheckIsExact` | scripts/build-macos-reproducible.py:199-201 | The lexical check finds exactly the targets some beginning of which has more ".." than names |
| `Snapshot.MemberOkExactly` | scripts/build-macos-reproducible.py:188-201 | A member is acceptable on its own if and only if it is a file, directory or link with a relative name without ".." under one of the two roots, and a link's target is relative and nowhere goes above the root |
| `Snapshot.CollectEntries` | scripts/build-macos-reproducible.py:186-201 | The first pass accepts exactly the archives whose members are each acceptable and pairwise distinct, and gives a true reason otherwise |
| `Snapshot.Validate` | scripts/build-macos-reproducible.py:186-228 | An archive is accepted if and only if all members are acceptable and distinct, everything above a member is a directory, and every link resolves inside the root; every rejection has a reason that holds |
| `Snapshot.SafeExtract` | scripts/build-macos-reproducible.py:181-242 | Every acceptable archive is extracted to exactly its members and their implied parent directories, unless the file system refuses a link with an empty target, and then what was written is known; nothing is written for any other archive |
| `Snapshot.MembersAreExtracted` | scripts/build-macos-reproducible.py:229-242 | Every member is on disk as it was in the archive: a file with its content and mode, a link with its target, a directory |
| `Snapshot.NothingElseIsExtracted` | scripts/build-macos-reproducible.py:229-242 | Anything else on disk is a directory above a member |
| `Snapshot.NextWriteFits` | scripts/build-macos-reproducible.py:229-242 | In an accepted archive no write meets an existing file or link, nor a parent that is not a plain directory |
| `Snapshot.WriteGrowsLayout` | scripts/build-macos-reproducible.py:229-242 | Writing one more member to a finished layout gives the layout with that member |
| `Snapshot.OrderDoesNotMatter` | scripts/build-macos-reproducible.py:229-242 | Any permutation of an accepted archive is accepted and describes the same tree |
| `Snapshot.TreeLinksAreArchiveLinks` | scripts/build-macos-reproducible.py:202-234 | The links on disk are exactly the links that were validated |
| `Snapshot.ExtractedTreeIsContained` | scripts/build-macos-reproducible.py:181-242 | On the extracted tree every link leads to a place inside it and only directories contain anything |
| `Snapshot.LexicalCheckMisses` | scripts/build-macos-reproducible.py:197-203 | A family of archives that pass the lexical check member by member and yet escape the root, so the graph check is needed |
| `Packaging.PackageExecutable` | scripts/build-macos-reproducible.py:498-516 | The worklist ends on every dependency graph, cycles included: with each binary in the package once and every non-system reference rewritten to a copied library, or with an error about a dependency that is really needed and really unavailable |
| `Packaging.PackageIsClosure` | scripts/build-macos-reproducible.py:498-516 | In a finished package every reference leads to the library it meant if and only if reachable libraries have distinct file names, and then the copies are exactly the reachable libraries |
| `Packaging.PackageNeedsNothingElse` | scripts/build-macos-reproducible.py:502-506 | A finished package with distinct file names proves that everything needed was available, so success and error exclude each other |
| `Packaging.FlatLayoutIsClosed` | scripts/build-macos-reproducible.py:498-516 | When all reachable libraries lie directly in the native library directory, their file names are distinct and the package is exactly their closure |
| `Packaging.TwinsShareOneCopy` | scripts/build-macos-reproducible.py:507-513 | For any two directories and any file name, a build whose package is complete and yet has one library where two were meant |
| `Packaging.ReferencesLeadToCopies` | scripts/build-macos-reproducible.py:513-514 | In a finished package every reference to a shipped library, read from the directory of the binary it is in, leads to the copy in lib under the library's file name |
| `Packaging.MacRulesExactly` | scripts/build-macos-reproducible.py:503-506 | System libraries are exactly those under the two system directories, native ones exactly those under the native library directory |
| `Packaging.NativeIsNotSystem` | scripts/build-macos-reproducible.py:503-506 | Under the prefixes the script uses, no native library is taken for a system one, so the order of its two tests does not matter |
| `Packaging.NextBinary` | scripts/build-macos-reproducible.py:499-514 | One round finishes the last binary of the worklist and either copies a new library or shortens the worklist |
| `Packaging.CopyLibrary` | scripts/build-macos-reproducible.py:507-512 | Copying a library keeps the books of finished and open binaries and fails only for a library that was not installed |
| `Handshake.ProofsNeverCoincide` | internal/api/auth.go:13-16 | No client proof is a server proof, for any nonces |
| `Handshake.AuthProofInjective` | internal/api/auth.go:29-34 | A client proof determines its challenge |
| `Handshake.ServerProofInjective` | internal/api/auth.go:50-56 | A server proof determines both nonces once the length of the challenge is known |
| `Handshake.ServerProofDoesNotMarkBoundary` | internal/api/auth.go:50-56 | Moving bytes from one nonce to the other does not change the server proof, so that length must be known |
| `Handshake.SendAuth` | internal/api/client.go:77-133 | The client succeeds exactly when both calls answer, the challenge is long enough, the server proof is over this challenge and this nonce, and the protocol fits; it sends its proof only for such a challenge, and each error says what went wrong |
| `Handshake.StepKeepsInv` | internal/apiserver/server.go:332-401 | Each step of client, daemon or network keeps every MAC under the token accounted for by a session, nonces drawn once and answered only later, and challenges issued once |
| `Handshake.RunKeepsInv` | internal/apiserver/server.go:332-401 | The same after every run |
| `Handshake.AcceptedProofIsGenuine` | internal/api/client.go:98-103 | An accepted server proof was made by an open daemon session over the same bytes |
| `Handshake.HonestSessionSucceeds` | internal/apiserver/server.go:332-401 | After every run, a client waiting for the answer to the challenge of a waiting daemon session accepts, answered by that session, once its hello and the reply are delivered unchanged |
| `Handshake.AnsweredChallenges` | internal/api/client.go:89-94 | A client answers challenges of 16 bytes or more and no others |
| `Handshake.AnsweredNonces` | internal/apiserver/server.go:395-401 | A daemon session answers client nonces of 16 to 64 bytes and no others, and only its first hello counts |
| `Handshake.OtherVersionsAreRefused` | internal/apiserver/server.go:357-362 | Neither side goes on with another protocol version |
| `Handshake.Agreement` | internal/api/client.go:77-112 | In every run, the accepting client was answered by a daemon session that issued its challenge and answered its nonce after it was drawn, if and only if the challenge has 32 bytes |
| `Handshake.LongChallengeIsAccepted` | internal/api/client.go:89-103 | A run in which a client accepts a challenge longer than 32 bytes and no daemon session has answered it |
| `Handshake.AnswersAreInjective` | internal/apiserver/server.go:393-401 | No daemon session answers two clients |
| `Handshake.AnswererIsUnique` | internal/apiserver/server.go:343-347 | No client is answered by two daemon sessions |
| `Handshake.DaemonOpensForClients` | internal/apiserver/server.go:365-379 | A daemon session opens only for a challenge that a token-holding client has answered |
| `Framing.HeaderRoundTrip` | internal/api/framing.go:37-38 | The four header bytes read back as the length modulo 2^32 |
| `Framing.HeaderIsBigEndian` | internal/api/framing.go:37-38 | The header is the length in four bytes, the most significant first |
| `Framing.RoundTrip` | internal/api/framing.go:33-56 | Every split of a stream into writes reads back as the stream and stops right behind the terminator |
| `Framing.CutIsNoticed` | internal/api/framing.go:69-98 | A framed stream cut anywhere reads as some of the bytes and an error, never as whole |
| `Framing.FrameReadsIffItFits` | internal/api/framing.go:84-86 | A write reads back as itself if and only if it is at most 64 MiB long |
| `Framing.FrameWriter.Write` | internal/api/framing.go:33-46 | Appends one frame, or as much of it as the connection takes, and reports which |
| `Framing.FrameWriter.Close` | internal/api/framing.go:50-56 | Appends the terminator, or as much of it as the connection takes |
| `Framing.Stream.ReadFull` | internal/api/framing.go:75 | Reads the wanted bytes across short reads, or all there are if they are fewer |
| `Framing.ToReadStaysInside` | internal/api/framing.go:88-91 | A read asks for no more than its frame has left for every buffer shorter than 2^32 bytes, and the exact condition for longer ones |
| `Framing.ReadsRightIffInside` | internal/api/framing.go:88-93 | A read into a buffer of a given length is right for every stream and every short read if and only if it asks for no more than its frame has left |
| `Framing.FrameReader.ReadHeader` | internal/api/framing.go:73-87 | Reading a header changes nothing about what is still to come; the terminator alone means end-of-file |
| `Framing.FrameReader.Read` | internal/api/framing.go:69-98 | One read that asks for no more than its frame has left takes a prefix of what is pending and leaves the rest; end-of-file only at its end, an error only on a broken stream; no read returns more than its buffer holds or fails to make progress |
| `Framing.ReadMany` | internal/api/framing.go:69-98 | Any sequence of reads returns the payload in order, with end-of-file exactly at its end and the source right behind the terminator |
| `Attach.CopyFrames` | internal/api/client.go:428-430 | Copying writes exactly the framed bytes, or the part before a broken stream or a full sink |
| `Attach.CopyRaw` | internal/api/client.go:421-427 | An unframed session is copied up to its end or the sink's, and a connection that fails is reported |
| `Attach.Attach` | internal/api/client.go:396-442 | However much the decoder has over-read, the nil error comes exactly with a whole framed session whose terminal status is done without error (or, unframed, with all bytes copied up to a clean end); in every case exactly the console bytes that arrived were written, as far as the sink has room |
| `Attach.DaemonMakesSession` | internal/apiserver/server.go:1304-1360 | Whatever the daemon writes in frames makes a session carrying exactly that output |
| `Attach.CutSession` | internal/api/client.go:428-442 | A session whose frames are cut short is not a session |
| `Sse.WriteSSEEvent` | internal/agent/sse.go:16-32 | Writes the event's text, or exactly as much of it as the writer takes |
| `Sse.ReadEvent` | internal/agent/sse.go:16-32 | One written event parses to one event with its name and data |
| `Sse.ReadComment` | internal/agent/server.go:503-504 | A heartbeat comment leaves no event |
| `Sse.StreamRoundTrip` | internal/agent/server.go:502-509 | Any list of events, interleaved with heartbeats, parses back to every event once, in order, and nothing else |
| `Sse.EventSurvivesIffSendable` | internal/agent/sse.go:16-32 | A single event parses back to itself if and only if its name has no line break and its data no carriage return |
| `Utf8.DecodeSound` | cmd/jerboa/termsafe.go:33-38 | What the decoder reads is the encoding of what it returns |
| `Utf8.DecodeEncode` | cmd/jerboa/termsafe.go:33-38 | Every encoded code point is read back, whatever follows |
| `Utf8.KnownEncodings` | cmd/jerboa/termsafe.go:33-38 | The examples of section 7 of RFC 3629 |
| `TermSafe.SkipEscape` | cmd/jerboa/termsafe.go:59-84 | Skips to the end of the escape sequence, as the recursive definition places it |
| `TermSafe.EscapeIsWhole` | cmd/jerboa/termsafe.go:59-84 | What is skipped is one whole escape sequence as the code delimits them, or an unfinished one up to the end |
| `TermSafe.NeedsSanitizing` | cmd/jerboa/termsafe.go:47-55 | True exactly if some byte is not printable ASCII, tab or newline |
| `TermSafe.PlainIsKept` | cmd/jerboa/termsafe.go:16-18 | The fast path returns what the slow loop would |
| `TermSafe.SanitizeTerminal` | cmd/jerboa/termsafe.go:15-45 | The loop with its fast path terminates and computes the recursive scan |
| `TermSafe.SanitizedIsText` | cmd/jerboa/termsafe.go:15-45 | The output is the encoding of code points that are no control characters but tab and newline, no C1 and no U+FFFD |
| `TermSafe.TextBytes` | cmd/jerboa/termsafe.go:15-45 | Seen as bytes, such output has no ESC, no C0 control but tab and newline, and no DEL |
| `TermSafe.TextIsFixpoint` | cmd/jerboa/termsafe.go:15-45 | Exactly those streams pass through unchanged |
| `TermSafe.ExactlyTextPointsAreKept` | cmd/jerboa/termsafe.go:21-43 | Of any sequence of code points without ESC exactly the text points are kept, in order |
| `TermSafe.ReplacementCharacterVanishes` | cmd/jerboa/termsafe.go:33-38 | A genuine U+FFFD is dropped, whatever follows |
| `TermSafe.SanitizedIsSubsequence` | cmd/jerboa/termsafe.go:15-45 | The output is a subsequence of the input |
| `TermSafe.EscapeVanishes` | cmd/jerboa/termsafe.go:24-26 | A whole escape sequence, as the code delimits them, after text is dropped with nothing around it |
| `TermSafe.VanishesIffNoIntermediate` | cmd/jerboa/termsafe.go:59-84 | A control sequence or control string of ECMA-48 (sections 5.4 and 5.6) or an escape sequence of ECMA-35 (clause 13), by their byte classes, is dropped whole whatever follows if and only if ESC is not followed by an intermediate byte |
| `TermSafe.BrokenVanishes` | cmd/jerboa/termsafe.go:59-84 | A control sequence or control string that the stream breaks off in is dropped, with nothing before it |
| `TermSafe.TailIsKept` | cmd/jerboa/termsafe.go:81-82 | Of an escape sequence with intermediate bytes, exactly what follows the first of them is kept |
| `TermSafe.CutIsSafeIffSettled` | cmd/jerboa/termsafe.go:86-94 | Sanitizing in two pieces is the same as sanitizing the whole, for every second piece, if and only if the first ends neither inside an escape sequence nor inside a code point |
| `TermSafe.ChunksAreText` | cmd/jerboa/termsafe.go:86-94 | For every split into writes the concatenated output is text and a fixpoint |
| `TermSafe.SanitizingWriter.Write` | cmd/jerboa/termsafe.go:89-94 | Forwards the sanitized piece, or as much of it as the terminal takes, and reports the whole piece or nothing as written; while it succeeds the terminal gets the sanitized pieces in order |
| `Diff.DiffVMEvents` | internal/agent/events.go:23-49 | The loops produce the changes in list order and then the removals |
| `Diff.EventsCarryDifference` | internal/agent/events.go:23-49 | Folding the events over the old states gives the new states if and only if no VM that keeps its state is listed with another one |
| `Diff.UniqueIsReadable` | internal/agent/events.go:23-49 | Lists with unique ids always meet that condition |
| `Diff.EventsReport` | internal/agent/events.go:23-49 | Every event reports a real difference between the lists, with the old state it had |
| `Diff.OneEventPerVm` | internal/agent/events.go:23-49 | With unique ids every VM has at most one event |
| `Poller.EventPoller.Subscribe` | internal/agent/events.go:86-100 | Registers a channel and starts a loop of a new generation exactly if none runs |
| `Poller.EventPoller.Leave` | internal/agent/events.go:102-116 | Closes the channel; the last to leave cancels the loop and resets what was known |
| `Poller.EventPoller.BroadcastLocked` | internal/agent/events.go:181-188 | Every subscriber gets the event or loses it when full, whatever the order, and no closed channel is touched |
| `Poller.EventPoller.Poll` | internal/agent/events.go:138-172 | A poll of another generation changes nothing; otherwise status and differences are broadcast and the list taken over |
| `Poller.StepKeepsInv` | internal/agent/events.go:86-188 | Each critical section keeps the invariant of the next row |
| `Poller.RunKeepsInv` | internal/agent/events.go:86-188 | In every reachable state the poller runs exactly when someone is subscribed, exactly the channels that have left are closed, and the one uncancelled loop carries the current generation |
| `Poller.OlderPollIsInert` | internal/agent/events.go:151-157 | Once a replacement loop has started, in every run no older poll changes anything or sends anything |
| `Poller.RunKeepsSync` | internal/agent/events.go:86-172 | Through every run, folding its events over the states at its subscription gives every subscriber that lost none the current states |
| `Poller.RunKeepsStatus` | internal/agent/events.go:158-162 | Through every run, the last daemon status a subscriber that lost nothing was told (or knew at its subscription) is the current one, and it was told only when it changed |
| `Poller.PollReportsStatus` | internal/agent/events.go:158-162 | A poll says of the daemon exactly what it found, once, and only if it is new |
| `Poller.LosesIffFull` | internal/agent/events.go:87-188 | A subscriber loses something if and only if more is offered than its channel of 16 has room for, and else gets it all in order |
| `Poller.RunKeepsFresh` | internal/agent/events.go:102-116 | Unless a poll of the current generation ends while nobody is subscribed, an idle poller knows nothing |
| `Poller.FoldForgetsIffTouched` | internal/agent/events.go:23-49 | Folding events over a starting point gives the same as folding them over nothing if and only if they speak of every VM in it |
| `Poller.RebuildsIffTouched` | internal/agent/events.go:86-172 | In every run a subscriber that lost nothing can rebuild the current states from its events alone if and only if they speak of every VM there was at its subscription |
| `Poller.StarterBase` | internal/agent/events.go:86-116 | What there was when a subscriber started the loop is exactly the list that the last poll to end while nobody was subscribed has left behind |
| `Poller.StarterRebuildsIffTouched` | internal/agent/events.go:86-172 | In every run a subscriber that started the loop and lost nothing can rebuild the current states from its events alone if and only if they speak of every VM in that list |
| `Poller.StarterRebuildsStates` | internal/agent/events.go:86-172 | In particular always, if no poll of the current generation ends while nobody is subscribed |
| `Poller.LeftBehind` | internal/agent/events.go:138-172 | A run in which a cancelled poll leaves its list behind and the next subscriber is not told of that VM |
| `Saga.World.WriteState` | cmd/jerboa/compose.go:420-446 | The state file is the old one or the new one, never half of one |
| `Saga.CreateAndRecord` | cmd/jerboa/compose.go:115-123 | A resource is recorded after it is created, and only it may be missing from the file in between |
| `Saga.CreateVolumes` | cmd/jerboa/compose.go:100-125 | Every volume exists afterwards, only planned ones are created and only those recorded, never an external one, and without trouble this fails only for a volume that may not be created |
| `Saga.CreateNetworks` | cmd/jerboa/compose.go:127-152 | The same for networks |
| `Saga.StartServices` | cmd/jerboa/compose.go:154-205 | Every service has a recorded VM afterwards, and if nothing goes wrong this succeeds if and only if all parameters, networks and addresses are good |
| `Saga.Up` | cmd/jerboa/compose.go:86-208 | Whatever fails or stops in between, only what the plan says to create is created, and all of it but for at most the newest resource is in the state file and nothing else; if it succeeds everything is there, recorded and saved, and the plan fitted; if no call goes wrong and the plan fits, it succeeds |
| `Saga.RemoveWhenStopped` | cmd/jerboa/compose.go:28-40 | Success means the VM is gone; it is asked for at most 25 times, and a VM that exists is removed unless it refuses 25 times in a row or a call fails |
| `Saga.StopServices` | cmd/jerboa/compose.go:260-284 | At every point what is recorded still covers what exists, in memory and in the file |
| `Saga.RemoveListed` | cmd/jerboa/compose.go:285-303 | Whatever of the listed resources still exists stays listed |
| `Saga.Down` | cmd/jerboa/compose.go:240-312 | From any state file: only recorded resources are removed, and no volume without `--volumes`; the file names all of them that still exist until it is removed, it is removed only when no recorded VM or network is left (nor volume, with `--volumes`), and that happens unless a call fails or a VM refuses 25 times in a row |
| `Saga.UpThenDown` | cmd/jerboa/compose.go:86-312 | After one `up` and any number of `down --volumes`, each possibly cut short, a successful one leaves at most one resource of all that was created, nothing else was touched, and the last one succeeds unless it was hindered itself |
| `Scope.MoveAll` | cmd/jerboa/compose.go:600-607 | The renaming loop does what moving the names one after the other means, for any order |
| `Scope.RenamingIsFaithfulIffNoClash` | cmd/jerboa/compose.go:568-607 | In every iteration order every declaration is found unchanged under its new name, if and only if no declared name is the scoped form of an owned one |
| `Scope.OrderDoesNotMatter` | cmd/jerboa/compose.go:600-607 | Without such a clash the result is the same for every order and no two names become one |
| `Scope.MovedNothingElse` | cmd/jerboa/compose.go:600-607 | Nothing appears in the table but declared names and their scoped forms |
| `Scope.NewSpecMeaning` | cmd/jerboa/compose.go:614-619 | A renamed mount spec names the renamed volume and mounts it the same way |
| `Scope.ScopeService` | cmd/jerboa/compose.go:608-621 | The in-place loops rename exactly the owned references of a service |
| `Scope.ScopeComposeResources` | cmd/jerboa/compose.go:568-623 | Refused if and only if some scoped name is invalid; otherwise both tables and all services are renamed |
| `Scope.ServicesKeepTheirResources` | cmd/jerboa/compose.go:608-621 | After scoping, every network and volume a service names is the definition it named before |
| `Scope.ReferencesExactly` | cmd/jerboa/compose.go:608-621 | References to external and undeclared resources stay as they are, owned networks get the prefix |
| `Scope.SpecParts` | cmd/jerboa/compose.go:615 | A mount spec names what is before its first colon |
| `Restore.Server.NobodyBlocks` | internal/apiserver/snapshot.go:123-142 | True exactly if no other VM on the network has the address and no live one the name or an alias |
| `Restore.Server.BeginRestore` | internal/apiserver/snapshot.go:68-151 | A restore begins if and only if the VM is stopped, its network is unchanged, nobody blocks it and its address can be reserved; a refused one changes nothing |
| `Restore.RestorableMeans` | internal/apiserver/snapshot.go:84-122 | A restore begins only for a stopped VM whose network is registered with its gateway and the aligned block of 2^(32 - mask) addresses around its own, which is neither the first nor the last of them |
| `Restore.ContainsExactly` | internal/network/store.go:243-245 | A subnet contains exactly the addresses that have it as theirs |
| `Restore.BlocksExactly` | internal/apiserver/snapshot.go:127-143 | A VM with the same address blocks a restore, stopped or not; one that shares a name or alias only while it lives |
| `Restore.RestoreEnds` | internal/apiserver/snapshot.go:90-99 | A restore ends with its VM running, or stopped again, and nothing else changed |
| `Restore.StepKeepsUniqueIff` | internal/apiserver/snapshot.go:65-151 | A restore, and every step that brings no VM to life, keeps the live VMs of every network apart; one that does keeps them so if and only if the VM is compatible with them |
| `Restore.RunKeepsUniqueIff` | internal/apiserver/snapshot.go:65-151 | The same over any run; the rows below say what the calls themselves see to |
| `Restore.TidyRunKeepsUniqueIff` | internal/apiserver/server.go:575-946 | From any state with names and addresses apart and reserved, through any run in which no address is released, no network removed, and of a VM and its replacement one is always gone, the live VMs stay apart if and only if no VM is brought to life whose aliases clash |
| `Restore.TidyServerKeepsUniqueIff` | internal/apiserver/server.go:575-946 | The same for every such run of a server that starts with nothing |
| `Restore.StartFitsIffAliasesFit` | internal/apiserver/server.go:891-950 | With names and addresses apart, a VM that `VM.Start` brings to life fits in if and only if its aliases clash with no live VM |
| `Restore.RunFitsIffAliasesFit` | internal/apiserver/server.go:648-672 | With every address reserved, a VM that `VM.Run` admits fits in if and only if its aliases clash with no live VM's names and its name with no alias |
| `Restore.RunKeepsHeld` | internal/apiserver/server.go:815-856 | Every VM's address stays reserved through every run in which no address is released and no network removed from outside |
| `Restore.AliasesMayClash` | internal/apiserver/server.go:101-113 | A run in which two live VMs on one network have one alias |
| `Restore.StartedTwice` | internal/apiserver/server.go:931-946 | A run in which a VM whose removal failed is started twice, and two live VMs have one address |
| `Restore.ReleasedAddressIsShared` | internal/apiserver/server.go:1447-1459 | A run in which a released address goes to another VM and its stopped owner is started all the same |
| `Restore.RecreatedNetworkIsShared` | internal/apiserver/server.go:1407-1431 | The same after the network was removed and created again |
| `Restore.RestoredAddress` | internal/apiserver/server.go:1407-1459 | Until a restore ends, its VM's address is reserved if and only if the last network call in between that concerns it, if any, left it so; unless the network was removed it is a host address of the registered subnet |
| `Restore.UntouchedAddressIsReserved` | internal/apiserver/snapshot.go:145-149 | If the address is not released and its network not removed in between, it is reserved when the restore ends |
| `Restore.ReleasedDuringRestore` | internal/apiserver/server.go:1447-1459 | A run in which the address is released during the restore |
| `Stats.PercentileIsMonotone` | cmd/jerboa-bench/stats.go:60-72 | For a sorted sample a percentile never decreases with p and stays between the smallest and the largest value |
| `Stats.PercentileOfRank` | cmd/jerboa-bench/stats.go:60-72 | At the share of a rank it is the value of that rank |
| `Stats.AtIsWeightedMean` | cmd/jerboa-bench/stats.go:68-71 | Between two ranks it is their weighted mean, both ends included |
| `Stats.PercentileIsWeightedMean` | cmd/jerboa-bench/stats.go:60-72 | Between the shares of two neighbouring ranks the percentile is the weighted mean of their values |
| `Stats.MedianIsInTheMiddle` | cmd/jerboa-bench/stats.go:60-72 | The median of an even sample lies halfway between the two middle values, that of an odd one is the middle value |
| `Stats.BootstrapMedianCI` | cmd/jerboa-bench/stats.go:74-91 | The interval is made of the 2.5th and 97.5th percentiles of the medians of the resamples, for any sample, sorted or not |
| `Stats.IntervalIsOrdered` | cmd/jerboa-bench/stats.go:74-91 | For every resampling the interval is ordered and inside every range of the sample |
| `Stats.Summarize` | cmd/jerboa-bench/stats.go:28-56 | Each figure is what its name says: the mean times the count is the sum, the percentiles and extremes are those of the sorted sample |
| `Stats.SummaryIsOrdered` | cmd/jerboa-bench/stats.go:28-56 | Minimum, median, P90, P99 and maximum are ordered, the mean and the interval lie between the extremes, and the extremes are measured values with all others between them |
| `PackageIndex.CheckUrls` | scripts/package-index.py:30-36 | Passes exactly if every entry points at its own archive |
| `PackageIndex.VerifiedExactly` | scripts/package-index.py:52-61 | A package is verified if and only if checksum and size of its archive are those it states, name and version use only allowed characters, and the platform is one of three |
| `PackageIndex.Merge` | scripts/package-index.py:39-83 | Writes an index if and only if the published one is sound, there is something to merge, every archive is verified and nothing conflicts; the archives up to the first that does not verify are copied in any case |
| `PackageIndex.MergeKeeps` | scripts/package-index.py:50-77 | Every merge leaves every published entry where it was, keeps keys unique and keeps every address right |
| `PackageIndex.BatchIsThere` | scripts/package-index.py:50-77 | After a merge without conflicts the index has every package of the batch with its content |
| `PackageIndex.MergeTwice` | scripts/package-index.py:50-77 | Merging the same batch again adds nothing and changes nothing |
| `PackageIndex.OtherContentIsRefused` | scripts/package-index.py:64-67 | A published package with other content makes every merge that contains it a conflict |
| `PackageIndex.NoConflictIffAllThere` | scripts/package-index.py:63-77 | A merge is free of conflicts if and only if afterwards the index has every package of the batch with its content |
| `PackageIndex.ConflictsExactly` | scripts/package-index.py:19-22 | Under one key another checksum is a conflict unless both carry one content digest; the same checksum never is |
| `PackageIndex.AddsAsItCame` | scripts/package-index.py:72-76 | A package under a new key is added with everything it came with, its address set and its archive copied |
| `PackageIndex.ArchivesKeptIffCoherent` | scripts/package-index.py:72-76 | After any merge every archive, old or new, has the content its entry promises if and only if entries that share an archive name share their content |
| `PackageIndex.NamesMayCoincide` | scripts/package-index.py:25-27 | Two families of different keys with one archive name |
| `PackageIndex.ArchiveReplaced` | scripts/package-index.py:72-76 | A merge without a conflict that puts other content where a published archive was |
| `PackageIndex.DashFreeIsCoherent` | scripts/package-index.py:25-27 | Names and versions without a dash never share an archive |
| `PackageIndex.UploadableIffDistinct` | scripts/package-index.py:63-83 | Into a release whose archives have distinct names, everything added can be uploaded without replacing anything if and only if the archive names of the new index are distinct |
| `PackageIndex.DashFreeIsDistinct` | scripts/package-index.py:25-27 | Names and versions without a dash have distinct archive names |

## Left out

- Cryptography: an HMAC is a term that is equal only for equal key and message and that nobody without the token can make; base64, hexadecimal, JSON and random generation are parameters or idealised the same way.
- Handshake: the login of older clients that send the token itself, timeouts, rate limits and the read budget before authentication.
- Handshake freshness: a drawn nonce is assumed new to the run, which stands for 32 random bytes.
- File systems: existence of link targets, file modes, names that differ only in case, and text encodings of names; contents are copied as values.
- Archive reading: tar parsing, hard links and sparse members (anything but a file, a directory or a symlink is refused as in the code).
- Packaging: `strip`, `otool`, `install_name_tool` and `codesign` are represented by the dependency lists and the table of renamed references.
- Attach: decoding the terminal status is a parameter; cancellation and closing of the connection are not modelled.
- Sse: the retry and id fields of the standard, which the writer never sends, and encoding of characters as UTF-8; the state the browser keeps after the stream ends.
- Poller: tick and heartbeat timing, wrap-around of the 64-bit generation, and failing JSON encoding of an event.
- Saga: service networks and addresses in the state file, health waits, image preparation, messages, and an unreadable state file.
- Saga.Up: resources that other clients create or remove at the same time are not part of the world.
- Saga.World.Get: a lookup answers about the resource at once; the daemon's own delays are not modelled.
- Restore.Server.NobodyBlocks: compares addresses as numbers, while the source compares their text (`internal/apiserver/snapshot.go:131`); two texts of one address, such as an IPv4-mapped form, are not told apart.
- Restore: the monitor that restarts VMs by their restart policy without the lock, and what happens inside the VM manager between the steps.
- Stats: rounding of floating-point numbers (the numbers are reals), the standard deviation, and the random generator, of which only that it draws valid indices is used.
- PackageIndex: reading and writing of files, and the upload itself; a file is its checksum.
- The command line, configuration, image building, networking, the VM manager, the agent's other handlers and the test scripts: they would add only easy members or lie outside the chosen core.
