# Verification of Fatbuildr

A Dafny model of the parts of Fatbuildr that carry a protocol, a codec or an
algorithm, with proofs of what they promise. One module stands for one
component:

| file | component |
|---|---|
| TaskQueue.dfy | submitters, the worker until it leaves, and readers of one instance around the semaphore, the deque, the state lock, `running` and the workspaces, as a step relation |
| TaskRuns.dfy, TaskOrder.dfy | what holds in every state of such a run, the order of `fullqueue` |
| TaskProgress.dfy | which tasks some continuation of such a run can still terminate |
| ServerTasksManager.dfy | whole calls (submit, fullqueue, pick, run, a turn of the worker loop) that update these attributes in place while the other threads act between any two accesses |
| WorkerTimer.dfy | worker and timer threads around the server timer, as a step relation, and the timer's own calls in place, the other threads acting in between |
| ConsoleMessage.dfy | the console frame codec, the end-of-task test, what a session yields |
| ConsoleReaders.dfy | the HTTP and unix socket readers, and the generator they feed |
| TaskIO.dfy | the dispatch thread: broadcast, journal, replay to a new console |
| Text.dfy, PatchNames.dfy, PatchQueue.dfy | numbering and text order of patch files, export and import of a patch queue |
| ArtifactVersion.dfy | version parser and printer, build numbers over rebuilds |
| DBusData.dfy | records to DBus structures and back |
| Pipelines.dfy | derivatives that extend one another, formats, distributions |
| HistoryPurge.dfy, HistoryListing.dfy | the four purge policies, and the order of the history they are run on |
| Checksums.dfy | the OSI checksum file: text, merge, publications |
| Wrappers.dfy | option and result types |

`dafny verify dfyconfig.toml` checks the project.

## How the model reads the code

- Threads interleave at every access to shared data; a wait may end at any
  moment, for any cause. Task identifiers are fresh UUIDs: never used before and
  naming no directory. A purge may remove any directory that it does not skip,
  which covers malformed directories and every policy.
- The classes of ServerTasksManager.dfy and WorkerTimer.dfy keep, beside the attributes
  of the source, the state of the run they belong to (`run`). `Record` takes the step
  that an access was; `Others` lets the other threads take any steps they can, in any
  number; `Valid` says that the attributes are those of the run.
- `struct` format `HI` has native alignment; byte order is little-endian.
- A socket delivers any bytes at any call of recv, nothing included; an HTTP
  response is any list of chunks, empty ones included.
- The character classes `\w` and `\d` of the version expressions are parameters;
  the proofs only need that ASCII digits have their values and that `-`, `.`, `+`
  and the newline are not word characters.
- Deb822 metadata is a map from canonical field names to values, a diff is an
  opaque text, a directory is a map from names to files, and its listing comes in
  any order.
- A date is a real number of seconds. A checksum file is text after newline
  translation.

## Where the code differs from what one would expect

- The unix reader gives up after two successive calls of recv that bring nothing,
  although its message speaks of three (`fatbuildr/console/client.py:249-256`).
- The parsed release of a version is always one character, because the release
  expression is lazy and not anchored: releases "12" and "13" of a main version
  are the same version (`LongReleasesCollide`). A rebuild publishes a new string
  exactly when the distribution tag is a word and the release is not a dash;
  otherwise each rebuild publishes the same string again (`RebuildsAreDistinct`).
- A `From` field in the metadata of a commit wins over the `Author` field that the
  export adds, so such a commit does not come back unchanged (`FileRoundTrip`).
- Text order of patch files is their numeric order exactly up to 9999
  (`TextOrderIsNumeric`).
- A None in a field that is neither an integer nor a string on the wire is sent as the
  empty-set sign all the same. What the DBus library makes of it is a parameter of the
  model: whatever it is, the None is not received (`RoundTrip`).
- `dist_derivatives` looks at the formats a derivative declares itself, while
  `derivative_formats` intersects them along the chain (`ListedButNotSupported`).
- A thread may leave on a check of the timer while another worker executes a task, for
  which that worker registered between the two accesses of the check; once a thread has
  seen no task, this can happen if and only if some other worker has not left
  (`OverSparesRunningTasks`, `OverlapIffAnotherStays`).
- A daemon does not start a worker again that has left (its timer thread only reports
  the dead thread to the service manager), although it goes on while another worker is
  there: a task submitted to the instance of such a worker is never executed by this
  daemon, whatever follows (`CanFinishUnlessLeft`, `TaskAfterLeaving`).
- The date of submission is a default argument, so the tasks of one daemon all have the
  same, and the stable sort of `dump()` leaves them in the order of the directory
  listing. What a policy keeps depends on the listing exactly when the last task kept
  and the first one removed tie (`LastDependsOnTies`, `EachDependsOnTies`, and for sizes
  `SizeDependsOnTies`); "recent" below means first in the sorted list.
- `recursive_derivatives` raises KeyError on an unknown derivative, `derivative_formats`
  its own exception (`FormatsOfChain`).
- A console that connects while the journal ends inside a frame is not sent the
  journal: its last frame is resized or the replay raises (`ReplayIsExact`).

## Model

| member | source | states |
|---|---|---|
| TaskQueue.StepInv | fatbuildr/tasks/manager.py:38-73 | every step of any submitter, reader or of the worker keeps the invariant: counts, lock ownership, conservation, workspaces, what readers know |
| TaskRuns.CountIsExact | fatbuildr/tasks/manager.py:38-73 | in every reachable state the queue length is the semaphore value plus puts not yet released plus the get not yet popped, so popleft never meets an empty deque and a wait that ended with nothing left its count for the next pick |
| TaskRuns.TasksConserved | fatbuildr/tasks/manager.py:143-173 | terminated tasks, the one in hand and the queue are the submissions in order; each task is in exactly one of them, and with the lock free it is in hand exactly when it is `running` |
| TaskRuns.FullQueueIsComplete | fatbuildr/tasks/manager.py:105-118 | in every interleaving a call of `fullqueue` returns no duplicate, every task submitted before it and not terminated when it returns, and no task terminated before it began |
| TaskOrder.FullQueueIsOrdered | fatbuildr/tasks/manager.py:105-118 | the tasks that it returned and that are not terminated come in the order of submission |
| TaskRuns.PurgeSparesLiveTasks | fatbuildr/history.py:334-399 | a purge never removes the directory of a pending or running task, itself included, whatever is submitted meanwhile |
| TaskRuns.WorkspacesFollowTasks | fatbuildr/tasks/__init__.py:303-323 | the running task keeps its workspace from prerun to termination and no pending task has one |
| TaskProgress.CanFinishUnlessLeft | fatbuildr/cli/fatbuildrd.py:124-151 | in every reachable state some continuation terminates all tasks submitted so far if and only if the worker has not left or there is none to terminate |
| TaskProgress.TaskAfterLeaving | fatbuildr/cli/fatbuildrd.py:145-151 | a reachable state with a task submitted after the worker has left, which no continuation executes |
| ServerTasksManager.TasksManager.Submit | fatbuildr/tasks/manager.py:143-159 | whatever the other threads do meanwhile, the task is next in the order of submissions, and the saved list lacks exactly the terminated tasks and the one in hand |
| ServerTasksManager.TasksManager.GetFullQueue | fatbuildr/tasks/manager.py:105-118 | a whole call with interference: no duplicate, every task submitted before and not terminated when it returns, in the order of submission, none terminated before |
| ServerTasksManager.TasksManager.Get | fatbuildr/tasks/manager.py:66-70 | nothing when there is no count, however the wait ends, and otherwise the task that headed the queue at the call |
| ServerTasksManager.TasksManager.Pick | fatbuildr/tasks/manager.py:161-173 | the oldest pending task becomes `running` and the lock is free again, None exactly when there was no count |
| ServerTasksManager.TasksManager.Purge | fatbuildr/history.py:334-399 | a whole purge by a task, any policy: left are the directories kept and its own workspace, and no removed one is that of a live task |
| ServerTasksManager.TasksManager.RunTask | fatbuildr/tasks/manager.py:204-223 | exactly this task is terminated, its workspace survives its own purge, `running` is reset |
| ServerTasksManager.TasksManager.Turn | fatbuildr/cli/fatbuildrd.py:124-151 | one turn of the worker loop terminates exactly the oldest pending task when there is a count, and leaves only when unregistered |
| WorkerTimer.TasksRunRegistered | fatbuildr/cli/fatbuildrd.py:129-133 | in every state that any run of any number of workers reaches, a task executes only while its worker is registered |
| WorkerTimer.RegistrationIsOwn | fatbuildr/timer.py:55-66 | only a worker's own thread changes its registration |
| WorkerTimer.OverSparesRunningTasks | fatbuildr/timer.py:46-53 | `over` is never true while some worker stays registered; a thread that leaves while a task executes did so on a check during which the worker of that task registered |
| WorkerTimer.OverlapIffAnotherStays | fatbuildr/timer.py:46-53 | a worker or the timer thread that has seen no task can leave on this check while a task executes if and only if some other worker has not left |
| WorkerTimer.OverCanOverlapTask | fatbuildr/cli/fatbuildrd.py:124-151 | a run from a fresh start in which that happens, the task being picked before the check and registered during it |
| WorkerTimer.ServerTimer.Execute | fatbuildr/cli/fatbuildrd.py:129-133 | the worker is registered from before the start of its task to the end of the loop, whatever the other threads do |
| WorkerTimer.ServerTimer.UnregisterWorker | fatbuildr/timer.py:59-66 | absent workers are ignored, and the notify is sent exactly when no other worker is left |
| WorkerTimer.ServerTimer.Over | fatbuildr/timer.py:46-53 | with the other threads between its two accesses, true exactly when no worker was registered at the first and the delay had run out at the second; the tasks then running registered in between |
| WorkerTimer.ServerTimer.EndLoop | fatbuildr/cli/fatbuildrd.py:147-151 | a registered worker that sees its queue not empty does not leave |
| ConsoleMessage.Pack | fatbuildr/console/__init__.py:73-79 | the eight header bytes unpack to the command and the size |
| ConsoleMessage.RawBytes | fatbuildr/console/__init__.py:73-79 | a frame byte by byte: command on two bytes, two zero bytes, size on four, low bytes first, then the data |
| ConsoleMessage.FramesOfEncode | fatbuildr/console/__init__.py:73-108 | decoding the bytes of any messages gives them back, empty data as None |
| ConsoleMessage.FramesReencode | fatbuildr/console/client.py:323-339 | whatever was decoded encodes to as many bytes and decodes to itself |
| ConsoleMessage.SessionIsPrefix | fatbuildr/console/client.py:41-57 | a session yields the messages in order up to the first that ends the task or cannot be tested, included, and all when none does |
| ConsoleMessage.TaskEndIs | fatbuildr/console/client.py:41-57 | the records that end a task are exactly the log texts made of a level without colon, a colon, and "Task failed" or "Task succeeded" with anything after; those that raise are exactly the logs without data, that are not text or have no colon |
| ConsoleMessage.SessionIs | fatbuildr/console/client.py:323-339 | a session ends the task exactly when its last message is such a record, raises exactly when it cannot be tested, and no earlier message is either |
| ConsoleMessage.Utf8IsExact | fatbuildr/console/client.py:50-57 | the bytes taken as text are exactly the UTF-8 encodings of sequences of Unicode scalar values |
| ConsoleReaders.ByteSource.ReadHttp | fatbuildr/console/client.py:281-319 | exactly the next `size` bytes for every chunking, or nothing with the last chunk kept in the buffer |
| ConsoleReaders.ByteSource.ReadUnix | fatbuildr/console/client.py:237-263 | terminates for every sequence of recv results, returns exactly the next `size` bytes, and no byte if and only if two successive calls bring nothing while bytes are missing |
| ConsoleReaders.SteadyNeverStalls | fatbuildr/console/client.py:243-263 | on a connection where nothing arrives twice in a row only at the end, no read of bytes to come is given up |
| ConsoleReaders.ByteSource.ReadMessage | fatbuildr/console/__init__.py:85-108 | a read on whole frames gives the next message and leaves the following ones |
| ConsoleReaders.ByteSource.Generate | fatbuildr/console/client.py:323-339 | the generator stops on every input; on whole frames it yields the messages up to the first record that ends the task or cannot be tested, and stops accordingly |
| ConsoleReaders.ConsoleHttpClient | fatbuildr/console/client.py:281-320 | for every list of messages and every chunking of their bytes, exactly these commands and data, empty data as None, up to the first record that ends the task or cannot be tested |
| ConsoleReaders.ConsoleUnixClient | fatbuildr/console/client.py:224-268 | the same over a steady unix connection, however the bytes arrive |
| ConsoleReaders.RelayKeepsSession | fatbuildr/console/client.py:333-339 | bytes relayed in binary mode stand for the same session |
| TaskIO.ReplayIsExact | fatbuildr/tasks/__init__.py:64-78 | a replay sends exactly the journal if and only if the journal is made of whole frames as written by the codec |
| TaskIO.ReplayOfCut | fatbuildr/tasks/__init__.py:64-78 | a replay of a journal cut inside a frame: a cut header raises after the whole frames, cut data goes out under a header of its own size |
| TaskIO.FrameReadsSuffice | fatbuildr/tasks/__init__.py:185-206 | when log reads, and output reads in interactive mode, end on frames, the journal is whole frames at every connection, however events interleave |
| TaskIO.TaskIO.Broadcast | fatbuildr/tasks/__init__.py:150-153 | every connected console is sent the data, once |
| TaskIO.TaskIO.Replay | fatbuildr/tasks/__init__.py:64-78 | the frame by frame loop sends the replay of the journal |
| TaskIO.TaskIO.Handle | fatbuildr/tasks/__init__.py:171-217 | the whole state after one event: a log and interactive output extend the journal and every console by exactly their data, other output by the frame of one message of command 1 with that data, nothing else does; input is kept in interactive mode only; a console that connects is sent the replay; consoles in sync stay so, without exception, unless one connects while the journal is not whole frames |
| TaskIO.TaskIO.Dispatch | fatbuildr/tasks/__init__.py:155-224 | over any interleaving of connections, hang ups, logs, output and input, the journal and the input are exactly what the handled events add, one after the other, and each connected console has been sent exactly the journal |
| PatchNames.NamesDiffer | fatbuildr/git.py:406-409 | files of different indices have different names, whatever the titles |
| PatchNames.NameIs | fatbuildr/git.py:406-409 | a name is four decimal digits, a dash and the title, and has more digits only from 10000 |
| PatchNames.NameParts | fatbuildr/git.py:160-164 | the title of an exported file is the title of the commit |
| PatchNames.TextOrderIsNumeric | fatbuildr/git.py:109-112 | text order of the names is numeric order for `n` patches if and only if `n` is at most 9999 |
| PatchQueue.AuthorRoundTrip | fatbuildr/git.py:313-319 | an exported author is read back if and only if neither part is empty or has a newline and the address has no inner " <" |
| PatchQueue.ParseAuthorIs | fatbuildr/git.py:313-319 | the author and address read from any field are exactly those of its first line cut at the last " <" and the last '>' that fit, and it raises exactly when there is none |
| PatchQueue.FileRoundTrip | fatbuildr/git.py:303-349 | a commit exported under any index and imported comes back with title, author, Generic flag and diff if and only if its author is readable and it has no From field |
| PatchQueue.ImportMeans | fatbuildr/git.py:303-349 | for any file map: title after the first dash, diff, author and address of From, or else of Author, or else the unknown author, this field gone, Generic set in the generic directory, other fields kept; an exception exactly when a name has no dash or the chosen field does not match |
| PatchQueue.PatchesInOrder | fatbuildr/git.py:109-112 | up to 9999 patches come in the order of the commits, whatever the order of the listing |
| PatchQueue.PatchesDir.Patches | fatbuildr/builds/__init__.py:183-223 | the list built in two loops is the selection over both sorted listings: the files whose Formats has the format among its words, if there is one, and whose Distributions has the distribution |
| PatchQueue.PatchesOfBuild | fatbuildr/builds/__init__.py:183-223 | the patches of a build are the generic commits selected by their own metadata, then those of the version, oldest first, then the patches generated under 9998 and 9999, whatever the order of both listings |
| PatchQueue.PatchesDir.CountCommits | fatbuildr/git.py:361-372 | the first loop counts the commits of each class |
| PatchQueue.PatchesDir.ExportQueue | fatbuildr/git.py:351-421 | old files are gone; each class is numbered from 1 for its oldest commit, with a file for exactly the commits that have a diff; the file has the diff, the Author field of the commit and its other fields but Generic, which decides the directory |
| PatchQueue.PatchesDir.ImportPatches | fatbuildr/git.py:284-301 | the commits made, generic ones first, each class in text order of the file names, each as its file says, or an exception exactly when some file is refused |
| PatchQueue.ImportSubdir | fatbuildr/git.py:292-301 | one commit for each file in order, as the file says, or an exception exactly when some file is refused |
| PatchQueue.ExportImportIsStablePartition | fatbuildr/git.py:284-421 | export then import is the stable partition of any linear history, without commits that have no diff |
| PatchQueue.ReexportIsIdentity | fatbuildr/git.py:351-421 | exporting the imported queue writes the same files, when no commit lacks a diff |
| ArtifactVersion.ParsedIsWellFormed | fatbuildr/registry/formats/__init__.py:73-91 | the exact shape of what is parsed: one-character release, word tag, no tag or build after a dash |
| ArtifactVersion.ParsedMeans | fatbuildr/registry/formats/__init__.py:73-91 | every parsed field in the terms of the expressions: main up to the last usable dash, one character of release, the whole run of word characters after a dot, the number of all digits after "+build", or -1 whatever follows |
| ArtifactVersion.RefusedMeans | fatbuildr/registry/formats/__init__.py:79-82 | a string is refused exactly when its line has no dash with a character on each side |
| ArtifactVersion.RoundTrip | fatbuildr/registry/formats/__init__.py:79-120 | parsing a printed version gives it back if and only if it is well formed, digits of any length |
| ArtifactVersion.ReparseIsStable | fatbuildr/registry/formats/__init__.py:79-120 | for every accepted string, printing and parsing again changes nothing |
| ArtifactVersion.LongReleasesCollide | fatbuildr/registry/formats/__init__.py:74-99 | any two longer releases with the same first character, neither with a dot as second one, are equal versions |
| ArtifactVersion.PublishedIsSame | fatbuildr/builds/formats/rpm.py:210-231 | the published version is found equal to the target if and only if the tag is a word and the release is not a dash |
| ArtifactVersion.RebuildsAreDistinct | fatbuildr/builds/formats/deb.py:169-195 | over any run of rebuilds, published strings are pairwise distinct if and only if the tag is a word and the release is not a dash, and then build numbers follow each other |
| ArtifactVersion.ArtifactBuild.BuildSource | fatbuildr/builds/formats/rpm.py:210-231 | the string published, from the parsed fields: the target with the tag, and the published build number plus 1 when main version, release and tag agree, its own build number otherwise |
| ArtifactVersion.Rebuild | fatbuildr/builds/formats/deb.py:169-195 | builds run one after the other, each prepared, then bumped after the last published string, publish the strings of that run |
| DBusData.RoundTrip | fatbuildr/protocols/dbus/__init__.py:151-242 | whatever the DBus library makes of the sign in other types, a value is received in normal form if and only if None only stands in integer or string fields, nested records and lists included |
| DBusData.SecondRoundTrip | fatbuildr/protocols/dbus/__init__.py:151-242 | what was received, sent again, is received the same |
| DBusData.ArrivesUnchanged | fatbuildr/protocols/exports.py:53-96 | a value arrives unchanged if and only if it has whole seconds, nothing that looks like None, and None only where it has a sign |
| DBusData.ToStructure | fatbuildr/protocols/dbus/__init__.py:197-242 | the dictionary filled in a loop is the encoding of the record: None is -1 for integers and dates and the empty-set sign for strings and paths, a date is sent without its fraction, towards zero, everything else unchanged |
| DBusData.FromStructure | fatbuildr/protocols/dbus/__init__.py:151-195 | the attributes set in a loop are the decoding of the structure |
| DBusData.SendAndReceive | fatbuildr/protocols/dbus/__init__.py:151-242 | a sent record is received in normal form if and only if no None lacks a sign; then a date arrives as its whole part, towards zero, and a value arrives as None only if it is None, -1 or the empty-set sign |
| Pipelines.TerminatesUnlessRepeats | fatbuildr/instances.py:136-176 | both recursions stop if and only if no derivative repeats on the chain, and then within as many steps as there are derivatives |
| Pipelines.ChainIsShort | fatbuildr/instances.py:166-176 | the chain starts at the derivative, ends in main, has no repeats and at most one more element than there are derivatives |
| Pipelines.FormatsOfChain | fatbuildr/instances.py:136-164 | a format is supported if and only if it is a pipeline format listed in the definition of every derivative of the chain; both recursions fail on the same unknown name, each with its exception |
| Pipelines.DistFormat | fatbuildr/instances.py:50-60 | a format is found if and only if one lists the distribution, and it is the first such one |
| Pipelines.DistDerivatives | fatbuildr/instances.py:87-97 | the list built in a loop is main and the declaring derivatives in order |
| Pipelines.DistDerivativesExact | fatbuildr/instances.py:87-97 | the list has no repeats and exactly the derivatives whose definition has the format of the distribution |
| Pipelines.SupportedIffChainIsListed | fatbuildr/instances.py:87-164 | a derivative supports the format of a distribution if and only if the distribution lists its whole chain |
| Pipelines.ListedButNotSupported | fatbuildr/instances.py:87-97 | a derivative listed for a distribution whose format it does not support |
| HistoryPurge.PurgePolicy.Remove | fatbuildr/history.py:112-115 | one workspace is gone, counted and measured |
| HistoryPurge.PurgePolicy.RunOlder | fatbuildr/history.py:156-172 | exactly the tasks before the limit lose their workspace, and the report matches |
| HistoryPurge.PurgePolicy.RunLast | fatbuildr/history.py:187-204 | the first tasks are kept, the others lose their workspace, and the report matches |
| HistoryPurge.PurgePolicy.RunEach | fatbuildr/history.py:219-242 | a task is kept when fewer than the limit come before it with its histid, and the report matches |
| HistoryPurge.PurgePolicy.RunSize | fatbuildr/history.py:277-296 | the longest prefix below the limit is kept, and the report matches |
| HistoryPurge.EachKeepsNewestOfHistid | fatbuildr/history.py:207-242 | of every histid exactly the first tasks of the sorted list are kept |
| HistoryPurge.EachRemovesOldest | fatbuildr/history.py:383-388 | on a sorted history no removed task is more recent than a kept one of its histid |
| HistoryListing.SortIsSorted | fatbuildr/history.py:383-384 | the history is the listing sorted from the most recent date |
| HistoryListing.SortIsStable | fatbuildr/history.py:383-384 | the tasks of any one date come in the order of the listing |
| HistoryListing.LastDependsOnTies | fatbuildr/history.py:187-204 | what the policy on the last tasks keeps does not depend on the directory listing if and only if the last task kept and the first removed have different dates |
| HistoryListing.EachDependsOnTies | fatbuildr/history.py:219-242 | the same for the policy on histids, within every histid |
| HistoryListing.SizeDependsOnTies | fatbuildr/history.py:277-296 | what the policy on size keeps does not depend on the listing if and only if it cuts between two dates and no task of the next date would have fitted |
| HistoryListing.DistinctDatesOneOrder | fatbuildr/history.py:383-384 | with distinct dates every listing gives the same history, hence the same purge |
| HistoryListing.OneDateKeepsAnything | fatbuildr/tasks/__init__.py:280-296 | among tasks of one date, any given one is kept for some listing and removed for another |
| HistoryPurge.SizeKeepsLongestPrefix | fatbuildr/history.py:277-296 | a prefix is within what is kept exactly when it takes less than the limit, or is empty |
| HistoryPurge.EachIsIdempotent | fatbuildr/history.py:219-242 | the policy run again on what it kept removes nothing |
| HistoryPurge.SizeAndLastAreIdempotent | fatbuildr/history.py:187-204 | the same for the policies on size and on the last tasks |
| HistoryPurge.OlderIsExact | fatbuildr/history.py:156-172 | exactly the tasks at the limit or later are kept, and nothing more goes away next time |
| Checksums.LineRoundTrip | fatbuildr/registry/formats/osi.py:69-74 | a written line is read back if and only if the sum and the name can stand on a line |
| Checksums.ReadOfWritten | fatbuildr/registry/formats/osi.py:118-120 | a written file is well formed, has the line `sum *name` for each entry, and reads back as the entries written |
| Checksums.Merge | fatbuildr/registry/formats/osi.py:96-117 | the nested loops build the new names, then the existing ones with new sums |
| Checksums.MergeIsOverride | fatbuildr/registry/formats/osi.py:96-117 | with distinct names in each file the merge has distinct names and is the override of the old sums by the new ones |
| Checksums.MergedOrder | fatbuildr/registry/formats/osi.py:96-117 | the new names come first, in their order, then the existing ones in theirs |
| Checksums.PublishOverrides | fatbuildr/registry/formats/osi.py:90-120 | the registry file read back after a publication: names of both, new sums where there are, old ones elsewhere |
| Checksums.OsiChecksums.Publish | fatbuildr/registry/formats/osi.py:90-120 | a copy when there was no file, the written merge otherwise |
| Checksums.OsiChecksums.PublishAll | fatbuildr/registry/formats/osi.py:69-120 | the same over any sequence of publications |

## Left out

- Containers, image builders, package and repository tools, signatures, `patch`: external programs.
- Sockets, epoll, terminals, signals, chunk encoding errors and failed sends: only bytes and events are modelled.
- The queue state file: concurrent submissions write it without a lock, and it lists pending tasks only.
- A task that dies on an exception which run() does not catch leaves `running` set until the next pick.
- Real time: the grace delay, the timeouts and the server timer's clock are moments at which anything may happen.
- Truncated console streams: what is yielded then is not stated, only that the generator stops.
- int() refuses decimal strings beyond a length set by the Python version; build numbers here have no bound.
- A commit title with a slash names a file in a directory that does not exist; PatchesDir.ExportQueue requires titles without one.
- Commit messages that do not have a title, a blank line and metadata; field names of Deb822 that differ by case only.
- Type checks of the DBus library on other values than None, and the 32-bit range of its integers.
- Derivatives looked up in an instance file that has none raise another exception than NotSupported.
- Parsing of the purge limits, of task forms and of instance files.
- Checksum lines that are not a sum and a name: publish() raises on them or cuts the name.
- HTTP and DBus servers, authorization, keyring, tokens, templates, caches, command lines: plumbing.
