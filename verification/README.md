# git-proxy, modelled and proved in Dafny

git-proxy stands between an agent's git client and the upstream server. On a push it inspects the
pack, asks a rule pipeline and forwards or denies; on a read-protected fetch it assembles the pack
itself, leaving out blobs at denied paths. This project models the parts of it that carry an
algorithm or a protocol, and proves what each promises on every input, every run or every
interleaving. `dafny verify dfyconfig.toml` checks all of it.

| file | what it models |
|---|---|
| `Commits`, `Shallow`, `ShallowHistory` | the commit graph, the depth cut, the shallow lines, and the history the client ends up with |
| `Glob`, `GlobText`, `BracketNames`, `PathMatch` | single-segment globs, their written form, the names they read as documented, gitignore-style patterns |
| `ReadProtection` | the blob-to-paths index, withholding, on-demand refusals |
| `PackStream`, `PackClient`, `PackPipe` | the response writer; what a client reads; the producer, pipe and mirror mutex as a state machine |
| `PktLine` | streams, the pkt-line encoder and scanner, forwarding |
| `RefAdvertisement`, `ReceivePackRequest`, `UploadPackRequest` | printers, parsers, SSH request framing |
| `Policy`, `Pipeline`, `Rules` | the engine, its construction from configuration, two rules |
| `ChangedFiles`, `Enforce`, `Proxy` | what a push touches, the decision, the exchange |
| `PushRuns`, `PushContent` | sequences of pushes: what happens to protected refs, to packed content and to denied paths |
| `Preflight` | the startup probe pool as a state machine |
| `TailRead` | the circular-buffer tail reader |
| `Options`, `Text` | the optional value; Go's string functions |

How the model reads the source:

- A byte is a `char` and a byte string a `string`. Every result holds for all strings, so in
  particular for those whose characters are below 256.
- An `io.Reader` is the bytes still to come followed by end of file or an error; an `io.Writer`
  accepts some number of bytes and fails from there on. Both numbers are arbitrary.
- git is a set of answers over an immutable object graph: commits with parents, root trees from path
  to leaf. A query that can fail in the source can fail here.
- A loop that updates variables is a method with a loop, tied to a specification; goroutines are
  state machines whose runs are arbitrary sequences of enabled steps.
- go-git's encoder limits (65516 data bytes written, 65520 read) and the side-band packet sizes come
  from gitprotocol-common and gitprotocol-capabilities.

Where the code and its own comments differ, the code is followed:

- `singleMatch` falls back to a literal `[` when a class rejects the character (pathmatch.go:255-269),
  so a name containing `[` can slip past a class. `BracketNameEscapesClass` shows it;
  `ReadAsDocumentedIff` says for which names every valid pattern is read as documented: exactly those
  with no `[` before their last character.
- `buildV0Caps` strips `version 2` and `no-done` from the upstream's list but not from the extra one,
  so parsing and re-emitting is byte-identical iff no honourable capability is new in the extra list
  after one of those two (`Displaced`); `NoDoneMoves` is the shortest input that is.
- The comment on `writeV0UploadPackResponse` wants `packWait` called exactly once. It is, except in one
  case, where it is called twice: an empty pack, a clean exit, and shallow lines that are too long or
  that the writer has no room for (`WaitsTwice`; `EmptyPackWaitsTwice` is the input).
- The comment on `runItems` says probes not yet started are skipped after an abort. A worker past the
  check still starts its probe: some run starts one after the close iff the pool has a second worker
  and some item aborts, and then some run starts `conc - 1` of them.

## Model
| member | source | states |
|---|---|---|
| Shallow.DepthExcludedSet | internal/gitproto/uploadpack_enforce.go:903-929 | the numbering is exactly the shortest parent-edge distance from any want, the excluded set is exactly the reachable commits at distance at least N, and the walk ends although its queue grows |
| Shallow.NumberParents | internal/gitproto/uploadpack_enforce.go:912-921 | expanding the head of the queue keeps the numbering in distance order and settles the head |
| Shallow.PlanShallowFetch | internal/gitproto/uploadpack_enforce.go:803-892 | for either kind of cut: shallow lines are exactly the included commits with a cut parent the client did not have, unshallow lines exactly the client's resolved ones, no object id twice |
| ShallowHistory.ShallowIffParentCut | internal/gitproto/uploadpack_enforce.go:842-887 | for any cut set, an included commit is shallow in the client's updated set iff it has a parent in the cut |
| ShallowHistory.LinesAreConsistent | internal/gitproto/uploadpack_enforce.go:842-887 | no commit is both shallow and unshallow, and unshallow goes only to client shallows |
| ShallowHistory.BoundaryDistance | internal/gitproto/uploadpack_enforce.go:842-863 | every boundary of a depth plan is at distance exactly N-1 |
| ShallowHistory.DepthHistory | internal/gitproto/uploadpack_enforce.go:803-929 | after applying the lines, the client's walk from the wants visits exactly the commits at distance below N |
| ShallowHistory.PlanDepthFetch | internal/gitproto/uploadpack_enforce.go:803-892 | the same of one call of the planner over what rev-list prints |
| Glob.ClassEnd | internal/pathmatch/pathmatch.go:287-298 | finds the first closing bracket, a `]` or `!` right after `[` excepted |
| Glob.ClassMatch | internal/pathmatch/pathmatch.go:302-329 | the index loop decides what the class accepts |
| Glob.ListsMembers | internal/pathmatch/pathmatch.go:311-324 | a class body without `-` lists exactly its characters |
| GlobText.TokensOfText | internal/pathmatch/pathmatch.go:236-298 | tokens written out are read back as the same tokens: `*`, `?`, classes with a leading `]` or `!`, other characters |
| GlobText.TextOfTokens | internal/pathmatch/pathmatch.go:236-298 | and every pattern is the text of its tokens |
| GlobText.ListsItems | internal/pathmatch/pathmatch.go:311-324 | a written class body lists exactly what its members and ranges cover, a `-` at either end being a member |
| GlobText.NegatedClass | internal/pathmatch/pathmatch.go:302-329 | a `!` in front turns a class into its complement |
| GlobText.ClassMeansItsItems | internal/pathmatch/pathmatch.go:236-329 | a one-character name matches a written class iff some member or range covers it, and the class with `!` iff none does |
| Glob.SingleMatch | internal/pathmatch/pathmatch.go:236-283 | ends, by last star, star offset and pattern index, with the matcher's verdict |
| Glob.GlobMatchIsAlignment | internal/pathmatch/pathmatch.go:236-283 | the verdict is true iff the pattern's tokens align with the whole name: remembering only the last star loses no match |
| Glob.LaterStar | internal/pathmatch/pathmatch.go:248-252 | a later star makes every other offset of the earlier one redundant |
| Glob.BracketNameEscapesClass | internal/pathmatch/pathmatch.go:255-269 | a name with `[` that the pattern's class should reject and the matcher accepts |
| BracketNames.ReadAsDocumentedIff | internal/pathmatch/pathmatch.go:236-283 | every valid pattern is matched on a name as its tokens say iff the name has no `[` before its last character |
| BracketNames.AroundMatches | internal/pathmatch/pathmatch.go:255-269 | for every other name, a valid pattern with one class that the matcher accepts by taking two characters for it |
| BracketNames.AroundIsNotAligned | internal/pathmatch/pathmatch.go:231-235 | and that pattern has one token too few to be laid along the name |
| Glob.ValidGlob | internal/pathmatch/pathmatch.go:130-153 | holds iff every `[` is closed later in the segment |
| Glob.WellFormedTokens | internal/pathmatch/pathmatch.go:231-235 | in a segment that passed, a bracket always opens a class |
| PathMatch.Compile | internal/pathmatch/pathmatch.go:90-126 | the loop over the segments gives the compiled pattern, or none |
| PathMatch.WrittenPatternCompiles | internal/pathmatch/pathmatch.go:90-126 | segments written between slashes are kept iff each is well formed, `**` takes any number of path segments, any other is a glob for one, and the slashes in front and behind anchor and make a directory pattern |
| PathMatch.AnchoredIffSlashBeforeEnd | internal/pathmatch/pathmatch.go:101-109 | a compiled pattern is anchored iff a slash stands before its last character, and a directory pattern iff it ends in one |
| PathMatch.UnanchoredIsOneSegment | internal/pathmatch/pathmatch.go:181-184 | an unanchored pattern has exactly one segment |
| PathMatch.CompiledText | internal/pathmatch/pathmatch.go:98-125 | compilation loses nothing: the segments and flags give the pattern text back |
| PathMatch.IsMalformed | internal/pathmatch/pathmatch.go:80-86 | holds iff the pattern is not blank and compilation drops it |
| PathMatch.New | internal/pathmatch/pathmatch.go:60-70 | keeps exactly the patterns that compile, in order |
| PathMatch.ListMatchesByOne | internal/pathmatch/pathmatch.go:157-174 | a list of patterns matches a path iff some one of them alone does |
| PathMatch.PathMatchesBySegments | internal/pathmatch/pathmatch.go:157-174 | a path is matched by its segments, one slash in front or none |
| PathMatch.AnchoredMatchIsBlocking | internal/pathmatch/pathmatch.go:204-229 | an anchored pattern matches iff the path splits into consecutive blocks, one per segment, covering all of it or, for a directory pattern, a prefix |
| PathMatch.AnchoredMatchIsDocumented | internal/pathmatch/pathmatch.go:6-24 | for paths with no `[` before the end of a segment, each literal block is a token alignment |
| PathMatch.UnanchoredMatchIsDocumented | internal/pathmatch/pathmatch.go:181-195 | an unanchored pattern matches at any depth, by its one segment |
| PathMatch.DirectoryCoversSubtree | internal/pathmatch/pathmatch.go:200-210 | a directory pattern that matches a path matches everything under it |
| ReadProtection.LeafLineParses | internal/gitx/oidpath.go:134-139 | a printed leaf line gives its object and path back, spaces in the path kept |
| ReadProtection.MalformedLeafIsSkipped | internal/gitx/oidpath.go:130-133 | a line without a space stands for no leaf |
| ReadProtection.DedupStrings | internal/gitx/oidpath.go:158-175 | first-seen order, no repeats, no empty string |
| ReadProtection.BuildBlobPathIndex | internal/gitx/oidpath.go:105-153 | builds the index of every leaf line of every distinct root tree, or fails when git cannot list the root trees or one of them |
| ReadProtection.IndexIsComplete | internal/gitx/oidpath.go:98-104 | over the lines git prints of the trees, the index holds an object's paths in all reachable root trees, all of them, each once |
| ReadProtection.Resolve | internal/gitx/oidpath.go:53-64 | one object's paths, as the index has them |
| ReadProtection.ResolveMany | internal/gitx/oidpath.go:78-96 | answers for each object what Resolve would |
| ReadProtection.CollectOIDs | internal/gitproto/uploadpack_enforce.go:299-307 | the wanted objects in first-seen order without repeats |
| ReadProtection.Withhold | internal/gitproto/uploadpack_enforce.go:299-371 | keeps exactly the wanted objects minus the blobs with a denied path anywhere in history, reports exactly the withheld blobs' paths, and fails exactly when git cannot give the types or, with a blob among the objects, the index |
| ReadProtection.PackedInFirstSeenOrder | internal/gitproto/uploadpack_enforce.go:299-368 | what is packed is in the order in which the objects were first wanted |
| ReadProtection.FilterRequests | internal/gitproto/uploadpack_enforce.go:49-56 | a filter is requested by `filter` or `filter=` with any value, and by nothing else |
| ReadProtection.UndeniedMembers | internal/gitproto/uploadpack_enforce.go:340-368 | what is kept: every undenied wanted object, once |
| ReadProtection.OnDemandDeny | internal/gitproto/uploadpack_enforce.go:647-722 | refuses iff some want is a tree, a blob at a denied path or a blob at no path, naming the first; without types it refuses every request, without an index every one with a blob or a tree |
| ReadProtection.ServePack | internal/gitproto/uploadpack_enforce.go:165-412 | a refusal, a failure of git or a pack, each exactly when; the pack is the wanted objects minus the denied blobs, and one that lacks a blob is served only to a client that asked for a filter |
| PackStream.MuxWrite | internal/gitproto/uploadpack_enforce.go:540-552 | cuts a write into packets that fit, in order, nothing lost |
| PackStream.DemuxInvertsMux | internal/gitproto/uploadpack_enforce.go:540-552 | however the pack was cut within the side-band's limit, the client reassembles exactly its bytes |
| PackStream.WriteV0UploadPackResponse | internal/gitproto/uploadpack_enforce.go:459-587 | packWait is called once, or twice in exactly one case; nothing is written if the pack fails with no output; the closing flush follows only a successful exit; it succeeds iff the producer did, the lines fit and the writer has room, and then it wrote preamble, whole pack, flush |
| PackStream.EmptyPackWaitsTwice | internal/gitproto/uploadpack_enforce.go:478-503 | the input on which packWait is called twice |
| PackStream.EnoughRoom | internal/gitproto/uploadpack_enforce.go:539-587 | however the pack is cut, room for the preamble, six bytes for each byte of the pack and the flush is enough for the response |
| PackClient.ResponseDelivers | internal/gitproto/uploadpack_enforce.go:459-587 | from the capabilities a client sent to what it gets: the shallow lines back, and behind the NAK the whole pack, in side-band packets within the limit of the first side-band it asked for, or as it is |
| PackClient.BandIsAskedFor | internal/gitproto/uploadpack_enforce.go:743-753 | the first side-band capability of the list decides, with or without a value |
| PackClient.PlanIsRead | internal/gitproto/uploadpack_enforce.go:842-887 | the client reads each planned shallow or unshallow line for what it says |
| PackPipe.WaitFreesMutex | internal/gitx/mirror.go:597-643 | when wait returns the producer has ended and let go of the mutex; success means a clean exit and every byte delivered |
| PackPipe.MutualExclusion | internal/gitx/mirror.go:601-630 | another mirror operation holds the mutex only after the producer let go |
| PackPipe.WaitingNeverStuck | internal/gitx/mirror.go:632-641 | once wait is called, the producer or wait itself can always move |
| PackPipe.WaitReturnsSoon | internal/gitx/mirror.go:632-641 | and wait returns within five of their steps, whatever others do |
| PackPipe.AbandonedStreamKeepsMutex | internal/gitproto/uploadpack_enforce.go:523-537 | without wait, a reader that stops blocks the producer and every other operation on the mirror for good |
| PackPipe.RunningHoldsMutex | internal/gitx/mirror.go:601-630 | the producer holds the mutex while git runs |
| PktLine.DecodeLen | internal/gitproto/pktline/codec.go:207-217 | the value of the hexadecimal prefix, or a rejection at the first other byte |
| PktLine.HexRoundTrip | internal/gitproto/pktline/codec.go:207-230 | decoding inverts the encoder's four digits |
| PktLine.HexAlphabet | internal/gitproto/pktline/codec.go:207-230 | digits are those of the hexadecimal alphabet in either case, most significant first |
| PktLine.Encode | internal/gitproto/pktline/codec.go:74-81 | writes one packet, or a prefix of it when the writer fails, and refuses an oversized payload untouched |
| PktLine.Scanner.Scan | internal/gitproto/pktline/codec.go:121-182 | every field and the stream position after a scan, for packets, clean end, raw section and each error |
| PktLine.ScanInvertsEncode | internal/gitproto/pktline/codec.go:121-182 | an encoded packet is read back whole and no more than it |
| PktLine.SpecialPackets | internal/gitproto/pktline/codec.go:147-169 | flush, delimiter, response end and the invalid length 3, and the empty data packet |
| PktLine.BrokenPackets | internal/gitproto/pktline/codec.go:121-182 | a length beyond the limit, a stream that ends inside a packet, and a prefix that is no number |
| PktLine.ForwardStream | internal/gitproto/proxy.go:657-679 | success with output equal to the input, exactly on streams that scan to a clean end or raw section and fit the writer; otherwise output a prefix of the input |
| ReceivePackRequest.ParseReceivePackRequest | internal/gitproto/receivepack.go:36-73 | the parse of the stream, with the pack offset the number of bytes read when a pack follows |
| ReceivePackRequest.CommandSurvives | internal/gitproto/receivepack.go:78-97 | parsing inverts printing of one command line |
| ReceivePackRequest.RequestRoundTrip | internal/gitproto/receivepack.go:36-110 | encoded commands, flush and tail parse to the commands, capabilities on the first alone, and the offset that splits header from pack, or -1 |
| ReceivePackRequest.MalformedCommandIsRejected | internal/gitproto/receivepack.go:78-97 | a first packet with fewer than two spaces before its NUL rejects the request |
| ReceivePackRequest.EmptyRequestIsRejected | internal/gitproto/receivepack.go:62-64 | a request without a command is rejected |
| UploadPackRequest.ParseUploadPackRequest | internal/gitproto/uploadpack.go:116-160 | the parse of the stream, packet by packet |
| UploadPackRequest.LineIsAbsorbed | internal/gitproto/uploadpack.go:125-151 | each kind of request line is taken for what it says |
| UploadPackRequest.OtherIsIgnored | internal/gitproto/uploadpack.go:125-151 | a data line of no known kind leaves the request unchanged |
| UploadPackRequest.MalformedDeepen | internal/gitproto/uploadpack.go:136-141 | a `deepen` that is no 64-bit decimal makes the request unparseable |
| UploadPackRequest.PaddingIsIgnored | internal/gitproto/uploadpack.go:134-148 | white space around an argument does not count |
| UploadPackRequest.BareWant | internal/gitproto/uploadpack.go:200-212 | nor does it behind a bare want, except that what stands before the first space stays with the id |
| UploadPackRequest.RequestRoundTrip | internal/gitproto/uploadpack.go:116-160 | an encoded request parses to what its lines mean, lines of other kinds such as `filter` passed over, or is refused when none is a want |
| UploadPackRequest.ReadUploadPackRequest | internal/transport/ssh/uploadpack_body.go:46-74 | stopping at `done` it has consumed exactly through the first `done` packet and returns those bytes; nothing above 1 MiB is returned |
| UploadPackRequest.ReadCapped | internal/gitproto/proxy.go:152-160 | accepts a body iff it is within the cap and readable |
| UploadPackRequest.FrameIsDone | internal/transport/ssh/uploadpack_body.go:60-67 | a frame that ends at `done`, if it parses, parses to a finished negotiation |
| UploadPackRequest.RequestIsFramed | internal/transport/ssh/uploadpack_body.go:46-74 | the frame of an encoded request ends exactly with its `done`, whatever follows on the channel |
| UploadPackRequest.FrameAndParse | internal/transport/ssh/uploadpack_body.go:46-74 | a frame that stopped at `done` is accepted by the proxy's cap iff it is within 1 MiB |
| RefAdvertisement.BuildV0Caps | internal/gitproto/refadvertisement.go:85-106 | merges with the seen set exactly as the specification does |
| RefAdvertisement.V0CapsMembers | internal/gitproto/refadvertisement.go:66-84 | the result lists, once each, the upstream's honourable capabilities and every extra one |
| RefAdvertisement.V0CapsOrder | internal/gitproto/refadvertisement.go:66-70 | the result is in the order of first occurrence in the upstream's honourable capabilities followed by the extra ones |
| RefAdvertisement.V0CapsIdempotent | internal/gitproto/refadvertisement.go:85-106 | merging again changes nothing iff no honourable capability is new in the extra list after a `version 2` or `no-done` there |
| RefAdvertisement.NoDoneMoves | internal/gitproto/refadvertisement.go:89-104 | with no upstream capability and the extra ones `no-done` and any honourable one, re-emission swaps the two |
| RefAdvertisement.EmitRefAdvertisementRaw | internal/gitproto/refadvertisement_raw.go:27-54 | its loop over the refs writes the raw form, or a prefix of it when the writer fails; a line too long is an error |
| RefAdvertisement.EmitRefAdvertisementV0 | internal/gitproto/refadvertisement.go:31-64 | its own loop over the refs writes the banner, a flush and the same raw form, or a prefix when the writer fails; a line too long is an error |
| RefAdvertisement.ParseRefAdvertisement | internal/gitproto/uploadpack.go:36-79 | the parse of the stream, packet by packet |
| RefAdvertisement.AdvertisementRoundTrip | internal/gitproto/uploadpack.go:36-79 | parsing an emitted advertisement gives the service, the refs and the merged capabilities |
| RefAdvertisement.EmptyRepositoryRoundTrip | internal/gitproto/refadvertisement.go:41-47 | an emitted empty repository parses to one pseudo-ref of zeros that carries the capabilities |
| RefAdvertisement.BadRefIsRefused | internal/gitproto/uploadpack.go:179-196 | a ref line without a space before its NUL refuses the advertisement |
| RefAdvertisement.BadBannerIsRefused | internal/gitproto/uploadpack.go:162-173 | so does a first packet that is no banner, or one without a service |
| RefAdvertisement.ReemissionIsIdentical | internal/gitproto/refadvertisement.go:31-64 | parse and emit again: it still fits, and the bytes are the same iff no extra capability is displaced |
| Policy.EvaluatePush | internal/policy/engine.go:78-113 | denies iff some applicable rule denies or errors; the reasons of the first, or of all, in order; on an allow every annotation |
| Policy.DeniesIff | internal/policy/engine.go:78-113 | a push is denied iff a rule for its agent and repository errors or denies |
| Policy.ReasonsAreComplete | internal/policy/engine.go:78-113 | a full accounting gives every reason against the push, errors in their rule's name, and an allow every annotation; neither gives more |
| Policy.ModesAgree | internal/policy/engine.go:11-21 | both modes give one verdict, and the first-deny reasons are a prefix of the full ones |
| Pipeline.LeqIsFirstDifference | internal/policy/engine.go:253-258 | one name is at most another iff it is a prefix of it or smaller where they first differ |
| Pipeline.InsertionSort | internal/policy/engine.go:253-258 | sorts the names in place, keeping each |
| Pipeline.Resolve | internal/policy/engine.go:239-280 | builds the pipeline of the enabled names in sorted order, or names one nobody registered |
| Pipeline.ResolveIsDeterministic | internal/policy/engine.go:244-246 | whatever order the rule map is enumerated in, the same pipeline |
| Pipeline.BuildIsComplete | internal/policy/engine.go:259-279 | a built pipeline has an entry for every enabled rule; it fails iff one is not registered |
| Pipeline.BuiltEntryApplies | internal/policy/engine.go:259-279 | a built entry runs its rule for the configured agents and repositories, none configured meaning all |
| Rules.HistoryProtectDenies | internal/policy/rules/history_protect.go:41-56 | denies iff some protected ref is deleted or force-updated |
| Rules.HistoryProtectReason | internal/policy/rules/history_protect.go:41-56 | a denial gives one reason, in the rule's name, an allow none |
| Rules.NewPathACL | internal/policy/rules/path_acl.go:29-45 | fails closed iff some pattern is malformed, else one matcher per pattern |
| Rules.MatchingPatternFinds | internal/policy/rules/path_acl.go:98-105 | a pattern is found iff one matches the path |
| Rules.DeniedByText | internal/policy/rules/path_acl.go:29-45 | a path is denied iff some configured text that compiles matches it alone |
| Rules.PathACLDenies | internal/policy/rules/path_acl.go:65-77 | denies iff a pattern is malformed or some changed file is at a denied path |
| Rules.PathACLReason | internal/policy/rules/path_acl.go:65-77 | a malformed deny list is an error; a denial gives one reason, in the rule's name |
| ChangedFiles.ParseRawDiff | internal/gitx/mirror.go:959-1000 | the reports of the well-formed lines, in order |
| ChangedFiles.ParseLineReports | internal/gitx/mirror.go:952-999 | parsing inverts git's printing of one raw line |
| ChangedFiles.LineIsReportedIff | internal/gitx/mirror.go:959-1000 | a line is skipped unless it has a tab, a path, five fields and a known status letter |
| ChangedFiles.OutputLines | internal/gitx/mirror.go:1017-1023 | splitting git's output gives its lines back |
| ChangedFiles.KeyInjective | internal/gitx/mirror.go:927-933 | the deduplication key confuses no two files |
| ChangedFiles.ChangedFiles | internal/gitx/mirror.go:893-938 | reports exactly what the raw diff lines say, each once |
| ChangedFiles.NewContentIsReported | internal/gitx/mirror.go:867-938 | every file of every new commit is reported as added or modified, or already sits there in a commit some ref reaches |
| ChangedFiles.ReportedContentIsNew | internal/gitx/mirror.go:867-938 | what is reported as added or modified is in some new commit's tree |
| ChangedFiles.ReportsWhatHappened | internal/gitx/mirror.go:867-938 | the reported files are exactly what was added, modified or deleted in the new commits against each parent, by presence in the two trees |
| ChangedFiles.EveryParentIsDiffed | internal/gitx/mirror.go:883-892 | no parent's difference is skipped at a merge, deletions included |
| ChangedFiles.PathACLKeepsDeniedPaths | internal/policy/rules/path_acl.go:65-77 | files path_acl lets through add nothing at a denied path |
| Enforce.EnforceReceivePack | internal/gitproto/receivepack_enforce.go:65-234 | the engine's verdict on the inspected request; any failed inspection denies, with the failure as its one reason, and is an error |
| Enforce.InspectedIff | internal/gitproto/receivepack_enforce.go:65-234 | a push is inspected iff every id is well formed, every query is answered and every packed object is in the listed history of the tips |
| Enforce.InspectedShows | internal/gitproto/receivepack_enforce.go:177-229 | the rules are shown the pushing agent, the repository, one update per command and git's answers about them |
| Enforce.HexIds | internal/gitproto/receivepack_enforce.go:39-50 | a well-formed id is forty lower-case hexadecimal digits |
| Enforce.NoObjectIds | internal/gitproto/receivepack_enforce.go:18-25 | only the empty id and forty zeros stand for no object |
| Enforce.InspectedReflectsCommands | internal/gitproto/receivepack_enforce.go:68-114 | one update per command, ids well formed, force iff a completed ancestry check said no |
| Enforce.PackHasNoStrays | internal/gitproto/receivepack_enforce.go:116-172 | a pack that passes contains only what git lists for the declared tips |
| Enforce.FilledKeepsPaths | internal/gitproto/receivepack_enforce.go:213-229 | each added or modified file gets its object's content, and nothing else of any file changes |
| Proxy.ReceivePack | internal/gitproto/proxy.go:260-421 | forwards the whole body iff within the cap, parsed, inspected and not blocked or only observed; audits once with the true verdict; answers and removes the pack of a push not forwarded |
| Proxy.MirrorTakesThePack | internal/gitproto/proxy.go:350-372 | the mirror takes in exactly the pack behind an encoded command list, and nothing when none follows |
| Proxy.CapAndPassThrough | internal/gitproto/proxy.go:260-300 | without an engine or mirror every body passes through; with both, one byte past the cap is denied and a body at the cap is judged |
| PushRuns.UnblockedIsSafe | internal/policy/rules/history_protect.go:41-56 | a command on a protected ref that gets through creates it or moves it forward |
| PushRuns.ProtectedHistoryIsKept | internal/gitproto/proxy.go:380-421 | over any run of enforced pushes, a protected ref is never removed once it exists, and its earlier tip stays an ancestor of its current one |
| PushRuns.ForwardedPushKeepsDeniedPaths | internal/gitproto/receivepack_enforce.go:174-234 | a forwarded push adds no content at a denied path |
| PushContent.PackedContentIsInspected | internal/gitproto/receivepack_enforce.go:116-229 | every blob packed into a forwarded push was shown to the rules with its content, or is a file of a commit some ref reached before |
| PushContent.HistoryIsReported | internal/gitx/mirror.go:867-938 | a blob in the new tips' history is reported as added or modified, or was in a ref's history before |
| PushContent.PushBringsNothing | internal/gitproto/receivepack_enforce.go:174-234 | whatever the new tips of a forwarded push have at a denied path is in the history of a ref of the mirror |
| PushContent.DeniedPathsNeverChange | internal/gitproto/proxy.go:380-421 | over any run of enforced pushes with path_acl on for everyone, whatever sits at a denied path in a ref's history at the end sat there in a ref's history at the start |
| Preflight.RunInvariant | internal/preflight/preflight.go:409-453 | what every step of every goroutine keeps, in any interleaving |
| Preflight.ProbedAtMostOnce | internal/preflight/preflight.go:409-453 | no item is probed twice, and a result is its item's outcome |
| Preflight.NeverStuck | internal/preflight/preflight.go:409-453 | no reachable state short of the return is stuck |
| Preflight.RunsAreBounded | internal/preflight/preflight.go:409-453 | every run ends, within a bound linear in items and workers |
| Preflight.CompleteWithoutAbort | internal/preflight/preflight.go:402-408 | without an aborting result every item has its outcome |
| Preflight.ClosesIff | internal/preflight/preflight.go:432-437 | a run can close the abort channel iff some probe is rate limited or unauthorized |
| Preflight.FewStartsAfterAbort | internal/preflight/preflight.go:402-408 | at most conc-1 probes start after the step that closes the abort channel |
| Preflight.AbortBoundIsReached | internal/preflight/preflight.go:420-440 | every pool that is given an aborting item has a run in which exactly conc-1 probes start after the close |
| Preflight.LateStartIff | internal/preflight/preflight.go:402-408 | some run starts a probe after the close iff conc > 1 and some item aborts |
| TailRead.WriteKeepsTail | internal/upstream/github/rest/checklog.go:49-63 | a write at the ring position keeps the buffer holding the tail |
| TailRead.TailRead | internal/upstream/github/rest/checklog.go:31-88 | for any chunking, exactly the last min(total, maxBytes) bytes read, truncated iff more were read, below the ceiling plus one read buffer |

## Left out
- Git itself: subprocesses, the filesystem, cloning, refresh and repair are answers over the object graph; paths are assumed to need no quoting.
- ShallowObjects: which objects a shallow fetch returns and whether haves are excluded is not claimed, as a depth cut need not be closed under ancestors and git's second `--not` toggles the first.
- DepthHistory: wants are commits that rev-list lists; a tag object has no entry in the parent map and is out of scope.
- DepthHistory: for `deepen-not` only the per-commit boundary property is claimed; a commit with one excluded and one included parent hides the included one, as in git.
- GlobMatchIsAlignment: for one pattern and one name the condition is sufficient only, as the matcher and the alignment can also agree by accident; over all patterns the exact condition on the name is BracketNames.ReadAsDocumentedIff.
- The rounds of a fetch before its last: a preliminary round answers NAK or the shallow section and stops; the error reply to `deepen-since` is a constant.
- Preflight: a probe's result is a fixed value per item, which loses nothing because no item is probed twice; time limits are probes that end with some result.
- PackPipe: the pipe between git and its copying goroutine is one step per transfer, and the mutex is per mirror object.
- Pack: a wait on a stream not read to its end returns an arbitrary error, which the writer ignores.
- Fetch-side rule evaluation mirrors the push side; branch_pattern, commit_message and secret_scan are arbitrary rules.
- Ref patterns are an arbitrary predicate, as they delegate to Go's `path.Match`; `%q` quoting is plain quotes.
- The report-status answer to a denied push is one effect; its text, the audit record's fields and alerts are not modelled.
- White space is ASCII white space; Unicode spaces in capability lists are not considered.
- PackedContentIsInspected: a new tip that is a tag, tree or blob rather than a commit is outside it, as it lists no new commits; so is a push of deletions only, whose pack the source does not check.
- DeniedPathsNeverChange: history is what commits reach through their parents, so a ref at a tag object has none; the mirror's refs may be as old as the run.
- HTTP and SSH servers, broker routes, REST calls, configuration, credential stores and secret scanning.
