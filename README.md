# qos core, modelled in Dafny

qos is a small Linux userland written in Rust: an init system (`qinit`), a
shell (`qsh`), a logger (`loggerd`/`logctl`), a module loader (`modprobe`),
and the libraries they share. This project models the parts of it that compute
rather than perform I/O, and proves what they promise:

- **qinit.** The dependency graph and its Kahn-style `flatten`. The
  `ValidationResult` error accumulator. Service definition, argument and
  permission checks. Config validation and sphere resolution. The service
  lifecycle (`Service`, `ServiceWaiter`, `ServiceManager`) as a class whose
  methods update its services and pending waiters.
- **modprobe.** The `modules.dep` and `modules.order` line parsers and the
  layered topological load order.
- **qsh.** The tokenizer's consumers (whitespace, escapes, `\u` escapes,
  quoted and unquoted strings, combined strings, expressions) and the line
  `Buffer`.
- **Codecs.**
  - the CPIO newc archive format;
  - `bytestruct` endian integers, NUL-terminated and length-prefixed strings,
    vectors and padding;
  - netlink attributes and headers;
  - the ELF header, its type, flag and symbol-info decoders, and the string
    table;
  - the ext2/3/4 superblock and its revision classification;
  - the loggerd on-disk blocks.
- **auth.** The `passwd`, `group`, `shadow` and crypt(3) line parsers and
  their Display forms. The SHA-crypt round structure over an abstract digest.
  The free-id search.
- **Text.** The ANSI CSI escape reader and writer. Column and row tables. The
  `SplitOn` iterator.
- **loggerd.** `ReadStreamOpts` filtering and header round trip, and
  `logctl`'s argument and output formatting.

Each source file is one module. Code that loops or updates state is a
`method` or a `class`, proved against a specification function. Pure code is a
`function`. The lemmas beside them state what the source promises: round
trips, invariants, orderings, and the error cases. Clocks, digests, JSON
serialisation, process spawning and `HashMap` iteration order are parameters.
Where verification showed the code disagrees with what it evidently means,
the model has both versions ("## Findings"). The rest of the model uses the
corrected one.

The ext superblock sits at offset 0x400 and a probe reads 0x400 bytes
(`Ext.SuperblockOffset`, `Ext.SuperblockSize`).

## Model

| member | source | states |
|---|---|---|
| ByteStruct.ReadBytes | bytestruct/src/lib.rs:56-61 | `read_exact` of n bytes succeeds exactly when n bytes remain, fails with UnexpectedEof otherwise, and splits off exactly the first n |
| ByteStruct.Width | bytestruct/src/lib.rs:64-228 | `Size::size` of every integer type is 1, 2, 4 or 8 bytes |
| ByteStruct.WriteInt | bytestruct/src/lib.rs:70-234 | an in-range integer is written as exactly `Width` bytes |
| ByteStruct.ReadInt | bytestruct/src/lib.rs:50-222 | reading an integer succeeds exactly when its width is available, the value is in the type's range and exactly the width is consumed; otherwise UnexpectedEof |
| ByteStruct.ReadWriteInt | bytestruct/src/lib.rs:82-234 | every u8..i64 written in either byte order reads back as the same value, leaving what followed |
| ByteStruct.WriteReadInt | bytestruct/src/lib.rs:82-234 | conversely, a successful read consumed exactly the encoding of the value it returned |
| ByteStruct.FirstNul | bytestruct/src/lib.rs:242-248 | the length counted is the position of the first NUL, every byte before it non-zero |
| ByteStruct.NullTerminated | bytestruct/src/lib.rs:238-261 | exactly MAX_SIZE bytes are consumed (UnexpectedEof iff fewer remain); the string is the valid UTF-8 before the first NUL; no NUL among them gives InvalidData |
| ByteStruct.ReadNullTerminated | bytestruct/src/lib.rs:239-261 | the reader's counting loop returns what `NullTerminated` specifies |
| ByteStruct.WriteNullTerminated | bytestruct/src/lib.rs:264-276 | the writer emits `size()` = len + 1 bytes, the last being the NUL |
| ByteStruct.ReadWrittenNullTerminated | bytestruct/src/lib.rs:238-276 | a written NUL-free UTF-8 string reads back once the field is filled up to MAX_SIZE |
| ByteStruct.PrefixKind | bytestruct/src/lib.rs:283-288 | the length prefix is an unsigned type chosen by MAX_SIZE |
| ByteStruct.PrefixWidthFits | bytestruct/src/lib.rs:299-309 | the prefix is the narrowest of 1, 2, 4, 8 bytes that holds MAX_SIZE |
| ByteStruct.WriteLengthPrefixed | bytestruct/src/lib.rs:311-321 | the writer's output is `size()` = len + prefix width bytes, ending with the string's bytes |
| ByteStruct.WriteLengthPrefixedFits | bytestruct/src/lib.rs:313-318 | below the prefix width, `len as uN` does not truncate: the prefix is the length in the given order |
| ByteStruct.ReadPrefixed | bytestruct/src/lib.rs:290-296 | a successful read is a prefix of the given kind, then that many bytes of valid UTF-8 |
| ByteStruct.ReadLengthPrefixedAsWritten | bytestruct/src/lib.rs:281-297 | the reader as written (prefix always big-endian): on success, valid UTF-8 and the lengths add up to the input |
| ByteStruct.ReadLengthPrefixed | bytestruct/src/lib.rs:281-297 | corrected reader (prefix in the given order): on success the input is exactly the string's encoding plus the rest |
| ByteStruct.ReadWrittenLengthPrefixed | bytestruct/src/lib.rs:281-321 | with the corrected reader every written string reads back, in both byte orders |
| ByteStruct.AsWrittenReadsBigEndian | bytestruct/src/lib.rs:284-287 | the reader as written round-trips only with big-endian or one-byte prefixes |
| ByteStruct.LittlePrefixMisread | bytestruct/src/lib.rs:284-287 | "a" with a little-endian u16 prefix is written as [1, 0, 0x61] and misread as 256 bytes long (UnexpectedEof) |
| ByteStruct.LittleU16ReadBig | bytestruct/src/lib.rs:284-287 | a little-endian u16 below 256 is the value then a zero byte, read big-endian as 256 times the value |
| ByteStruct.AsWrittenLittlePrefix | bytestruct/src/lib.rs:284-287 | as written, a string under 256 bytes with a little-endian two-byte prefix is read as 256 times its length: `UnexpectedEof` when fewer bytes follow, and only the empty string reads back |
| ByteStruct.ReadItems | bytestruct/src/lib.rs:324-328 | reading n items gives exactly n items |
| ByteStruct.VecRead | bytestruct/src/lib.rs:360-373 | a vector reads a u64 count in the given order, then exactly that many items |
| ByteStruct.ReadVec | bytestruct/src/lib.rs:361-372 | the reader's loop returns what `VecRead` specifies |
| ByteStruct.WriteVec | bytestruct/src/lib.rs:381-389 | the writer's loop emits the count then each item, as `VecBytes` specifies |
| ByteStruct.ReadWrittenVec | bytestruct/src/lib.rs:360-389 | a written vector of fewer than 2^64 items of a round-tripping codec reads back, leaving what followed |
| ByteStruct.VecBytesSize | bytestruct/src/lib.rs:375-389 | the encoding is 8 bytes of count plus the items' sizes |
| ByteStruct.VecSizeAsWrittenShort | bytestruct/src/lib.rs:375-379 | `Vec::size` as written is 8 bytes short of every vector's encoding |
| ByteStruct.PaddingAmount | bytestruct/src/lib.rs:426-429 | `ALIGN - prev % ALIGN` lies in 1..ALIGN, aligns prev, and is a whole ALIGN exactly when prev is aligned already |
| ByteStruct.ReadPadding | bytestruct/src/lib.rs:431-437 | reading padding succeeds exactly when its amount of bytes remains (else UnexpectedEof) and skips exactly that many, whatever they hold |
| ByteStruct.WritePadding | bytestruct/src/lib.rs:440-456 | padding writes `size()` zero bytes |
| ByteStruct.ReadWrittenPadding | bytestruct/src/lib.rs:418-457 | written padding brings the bytes before it to a multiple of ALIGN and reads back |
| Netlink.AlignUp | netlink/src/lib.rs:287 | `(n + 3) & !3` is the least multiple of 4 not below n |
| Netlink.PaddingLength | netlink/src/lib.rs:287 | the padding after an attribute is below 4, aligns it, and is 0 exactly when it is aligned already |
| Netlink.ReadAttributeBody | netlink/src/lib.rs:289-295 | after the header, exactly `length - 4` data bytes and then the padding are consumed |
| Netlink.ReadAttribute | netlink/src/lib.rs:274-296 | a length below 4 is InvalidInput; a successful read consumed the aligned attribute, its length field is 4 + the data's length, and the data are the bytes after the header |
| Netlink.WriteAttribute | netlink/src/lib.rs:298-324 | None writes nothing; Some writes a multiple of 4 bytes, the data after the 4-byte header and zeros after that |
| Netlink.ReadAttributeOf | netlink/src/lib.rs:274-296 | a header, data and exact padding read back as the type and data, leaving what followed |
| Netlink.ReadWrittenAttribute | netlink/src/lib.rs:274-324 | a written attribute whose length fits in a u16 reads back as its type and data |
| Netlink.UnguardedAgrees | netlink/src/rtnetlink/parsing.rs:28-40 | the rtnetlink reader, which lacks the length guard, panics exactly where the guarded reader refuses a short length and agrees with it elsewhere |
| Netlink.ShortAttributePanics | netlink/src/rtnetlink/parsing.rs:33 | a length field of 2 makes `length - 4` underflow, where the guarded reader returns InvalidInput |
| Netlink.NewString | netlink/src/lib.rs:326-330 | the payload without its final byte, accepted exactly when that is valid UTF-8, else InvalidData |
| Netlink.NewStringWhole | netlink/src/rtnetlink/parsing.rs:16-20 | the whole payload, accepted exactly when it is valid UTF-8, else InvalidData |
| Netlink.NewStringDropsLast | netlink/src/lib.rs:326-330 | the netlink decoder is the rtnetlink one applied to all but the last byte |
| Netlink.NewStringOfTerminated | netlink/src/lib.rs:326-330 | a NUL-terminated UTF-8 string decodes to the string |
| Netlink.NewU32 | netlink/src/lib.rs:332-336 | exactly four bytes are accepted (else InvalidData), decoded little-endian |
| Netlink.NewU32OfWritten | netlink/src/rtnetlink/parsing.rs:22-26 | a u32's little-endian bytes decode to it |
| Netlink.NewMacAddress | netlink/src/rtnetlink/parsing.rs:10-14 | exactly six bytes are accepted, else InvalidData |
| Netlink.WriteHeader | netlink/src/lib.rs:171-178 | the derived header writer emits 16 bytes |
| Netlink.ReadHeader | netlink/src/lib.rs:171-178 | a successful header read has a known message type, consumed 16 bytes, and its fields are in range |
| Netlink.WriteNetlinkMessage | netlink/src/lib.rs:83-97 | the message is the 16-byte header then the body |
| Netlink.ReadWrittenHeader | netlink/src/lib.rs:215-232 | the derived reader undoes the derived writer for a known type and known flags |
| Netlink.ReadWrittenMessage | netlink/src/lib.rs:88-91 | a written message's header reads back with its length field set to the whole message's length |
| Validation.Warning | qinit/src/config/mod.rs:34-39 | `ValidationError::new` keeps the message and is not fatal |
| Validation.Fatal | qinit/src/config/mod.rs:42-47 | `new_fatal` keeps the message and is fatal |
| Validation.ErrorInContext | qinit/src/config/mod.rs:49-52 | `with_context` gives "ctx: message": the context, then ": ", then the old message, with the same severity |
| Validation.Merge | qinit/src/config/mod.rs:76-78 | `merge` keeps this result's errors and appends the other's, in order |
| Validation.AddError | qinit/src/config/mod.rs:81-83 | `add_error` keeps the errors and pushes exactly the one given |
| Validation.MergeAssociative | qinit/src/config/mod.rs:76-78 | merging is associative |
| Validation.MergeAddError | qinit/src/config/mod.rs:76-83 | adding an error after a merge is merging a result with the error added |
| Validation.Single | qinit/src/config/mod.rs:71-83 | a new result with one error added holds exactly that error |
| Validation.AnyFatalSome | qinit/src/config/mod.rs:91-93 | `is_fatal` holds exactly when some error is fatal |
| Validation.FatalIsError | qinit/src/config/mod.rs:86-93 | a fatal result is an error (`is_error`: the errors are not empty) |
| Validation.AnyFatalAppend | qinit/src/config/mod.rs:91-93 | a concatenation has a fatal error exactly when one of its parts does |
| Validation.MergeVerdict | qinit/src/config/mod.rs:76-93 | a merge is fatal (an error) exactly when one of its parts is |
| Validation.AddErrorVerdict | qinit/src/config/mod.rs:81-93 | adding an error makes an error, fatal exactly when the result or the new error was fatal |
| Validation.WithContext | qinit/src/config/mod.rs:96-102 | the loop keeps the number of errors and each one's fatal flag and prefixes each message with "ctx: " |
| Validation.ContextVerdict | qinit/src/config/mod.rs:96-102 | a context changes neither `is_error` nor `is_fatal` |
| Validation.ContextMerge | qinit/src/config/mod.rs:76-102 | the context distributes over merge |
| ServiceConfigs.ValidateArgument | qinit/src/config/service.rs:25-36 | an argument's check is fatal exactly for an empty name, is an error exactly for an empty name or a required argument with a default, and reports one error per problem |
| ServiceConfigs.HasArgumentSome | qinit/src/config/service.rs:73-75 | `has_argument(n)` holds exactly when some argument is named n |
| ServiceConfigs.ArgumentErrorsVerdict | qinit/src/config/service.rs:57-68 | the arguments' errors are fatal exactly for an empty or a repeated name, and are errors exactly when some argument's own check fails or a name repeats |
| ServiceConfigs.ArgumentErrorsStep | qinit/src/config/service.rs:58-67 | each argument adds its own errors under "Argument <name>", then a fatal duplicate error if its name was seen before |
| ServiceConfigs.ValidateDefinition | qinit/src/config/service.rs:51-71 | the loop with its set of seen names returns the specified errors: fatal exactly for an empty command, an empty argument name or a repeated name, and an error exactly when also a required argument has a default |
| ServiceConfigs.DefinitionVerdict | qinit/src/config/service.rs:51-71 | the same verdicts about the specified errors of a definition |
| ServiceConfigs.NamesNamedIn | qinit/src/config/service.rs:57-67 | the set the loop keeps holds exactly the names seen so far |
| ServiceConfigs.ValidatePermissions | qinit/src/config/service.rs:112-123 | permissions are fatal exactly for an empty user or group, one error for each, and never merely a warning |
| ServiceConfigs.DefaultPermissionsValid | qinit/src/config/service.rs:126-134 | the default root/root permissions pass their own check |
| ServiceConfigs.ValidateService | qinit/src/config/service.rs:181-193 | `errors` is set to the unprefixed result of the name, definition and permissions checks; the returned copy is that under "Service <name>", fatal exactly when any of the checks is |
| Graph.Graph.Empty | qinit/src/config/graph.rs:19-24 | the empty graph has no vertices and no edges |
| Graph.Graph.AddVertex | qinit/src/config/graph.rs:27-35 | a vertex already present leaves the vertices unchanged; otherwise it is appended; edges are untouched |
| Graph.Graph.AddEdge | qinit/src/config/graph.rs:38-48 | each endpoint is appended only if absent (from first, then to), and exactly one edge is appended |
| Graph.Graph.Flatten | qinit/src/config/graph.rs:52-87 | Kahn's loop returns Cycle exactly when the graph has a cycle; on success every edge's target comes before its source and the output holds exactly the vertices, once each (a permutation) when no edge is repeated; the graph itself is not modified |
| Graph.ClosedWalkIsCycle | qinit/src/config/graph.rs:120-142 | every closed walk, the two- and three-vertex cycles of the tests among them, is a cycle |
| Graph.TopologicalHasNoCycle | qinit/src/config/graph.rs:55-86 | a graph whose vertices all appear in a topological order has no cycle |
| Graph.Keep | qinit/src/config/graph.rs:66-73 | `retain` keeps no edge ending at the popped vertex |
| Graph.KeepMembers | qinit/src/config/graph.rs:66-73 | `retain` keeps exactly the edges not ending at the popped vertex |
| Graph.SourcesMembers | qinit/src/config/graph.rs:65-73 | the removed edges' sources are exactly the sources of the edges into the popped vertex, and kept plus removed are all the edges |
| Graph.Ready | qinit/src/config/graph.rs:55-59 | the vertices pushed are candidates without an outgoing pending edge |
| Graph.ReadyMembers | qinit/src/config/graph.rs:75-79 | a candidate is pushed exactly when it has no outgoing pending edge |
| Graph.FlattenInit | qinit/src/config/graph.rs:53-61 | the initial stack and edge copy meet the loop's invariant |
| Graph.FlattenStep | qinit/src/config/graph.rs:63-80 | one pop of the loop keeps its invariant |
| Graph.FlattenDone | qinit/src/config/graph.rs:82-83 | when no edges remain the visited list is a topological order of all the vertices, a permutation when no edge is repeated |
| Graph.PendingEdgesFormCycle | qinit/src/config/graph.rs:84-85 | when the stack is empty and edges remain, their sources form a cycle |
| QinitConfig.Config.Empty | qinit/src/config/mod.rs:128-133 | a new configuration has no services and no spheres |
| QinitConfig.Config.AddService | qinit/src/config/mod.rs:193-209 | a name already present gives exactly one fatal "Service with name … already exists" and changes nothing; otherwise the result is the service's own validation in context, and the service (with its errors stored) is kept exactly when that is not fatal |
| QinitConfig.Config.AddSphere | qinit/src/config/mod.rs:270-279 | a sphere name already present gives one fatal error and changes nothing; otherwise the sphere is filed under its name with no errors |
| QinitConfig.CheckArgumentNames | qinit/src/config/mod.rs:302-334 | every error is fatal; there is one exactly when the dependency passes an argument the target does not declare; the arguments left after the `retain`s are exactly the target's arguments not among the keys |
| QinitConfig.Without | qinit/src/config/mod.rs:333 | `retain(\|a\| a.name != name)` leaves no argument of that name |
| QinitConfig.WithoutUnbound | qinit/src/config/mod.rs:324-334 | removing one more key's argument is the same as leaving out one more key |
| QinitConfig.UnboundEmpty | qinit/src/config/mod.rs:336 | no argument is missing exactly when every declared argument is among the keys |
| QinitConfig.CheckWant | qinit/src/config/mod.rs:289-310 | the checks on one want are all fatal, and report an error exactly when the wanted service is unknown or is passed an undeclared argument |
| QinitConfig.CheckNeed | qinit/src/config/mod.rs:312-348 | the checks on one need are all fatal, and report an error exactly when the needed service is unknown, is passed an undeclared argument, or is not passed every argument it declares |
| QinitConfig.CheckService | qinit/src/config/mod.rs:288-349 | the wants then needs of one service give only fatal errors, and one exactly when one of them has a problem |
| QinitConfig.Config.Validate | qinit/src/config/mod.rs:283-352 | every error is fatal, and there is one exactly when some service wants or needs an unknown service, passes an undeclared argument, or leaves a needed argument unbound |
| QinitConfig.Vertex | qinit/src/config/mod.rs:434-446 | a dependency's vertex is the named service with the dependency's arguments |
| QinitConfig.NeedsEdgeAsWritten | qinit/src/config/mod.rs:443-447 | the edge as written runs from the dependency to the service |
| QinitConfig.AsWrittenServiceStartsFirst | qinit/src/config/mod.rs:441-447 | with the edge as written, every order Flatten returns has the service before the dependency it needs |
| QinitConfig.NeedsEdge | qinit/src/config/mod.rs:441-442 | the corrected edge runs from the service to what it needs |
| QinitConfig.NeedStartsFirst | qinit/src/config/mod.rs:441-442 | with the corrected edge, a need comes before the service that needs it in every order Flatten returns |
| QinitConfig.WantsEntryAsWritten | qinit/src/config/mod.rs:450-457 | the wants entry as written looks up the wanting service's own name, with the dependency's arguments |
| QinitConfig.WantsAsWrittenNamesWanter | qinit/src/config/mod.rs:450-457 | as written the entry names the service that wants, never the wanted one |
| QinitConfig.WantsEntry | qinit/src/config/mod.rs:450-457 | the corrected entry is the wanted service's vertex |
| QinitConfig.WantsEntryNamesWanted | qinit/src/config/mod.rs:450-457 | the corrected entry names the wanted service with the dependency's arguments |
| QinitConfig.FirstUnknownArgument | qinit/src/config/mod.rs:418-432 | None exactly when every key is a declared argument; otherwise a key that is not declared |
| QinitConfig.AddNeeds | qinit/src/config/mod.rs:435-448 | an unknown need is an error; otherwise the graph gains one edge per need, in order, with the endpoints added when absent |
| QinitConfig.CollectWants | qinit/src/config/mod.rs:450-457 | an unknown want is an error; otherwise the wants entries in order |
| QinitConfig.ResolveEntry | qinit/src/config/mod.rs:412-458 | one sphere entry fails exactly when it is not resolvable; otherwise its vertex, its needs' edges and its wants' entries are added |
| QinitConfig.SphereStep | qinit/src/config/mod.rs:412-458 | resolving one more entry extends the sphere's edges, vertices and wants by that entry's |
| QinitConfig.SphereEdgesHoldNeeds | qinit/src/config/mod.rs:435-448 | every need of every sphere entry is an edge of the sphere's graph |
| QinitConfig.SphereNeedsStartFirst | qinit/src/config/mod.rs:441-460 | in an order Flatten returns for a sphere, every entry's service comes after each service it needs |
| QinitConfig.Config.ResolveSphere | qinit/src/config/mod.rs:401-461 | an unknown sphere is an error; success means every entry resolved, the order respects every need and lists exactly the sphere's vertices, and the wants are collected in order; on resolvable entries it fails exactly when the graph has a cycle |
| Services.NewService | qinit/src/service.rs:56-66 | a new service is `Stopped` and copies the name, command, permissions, runtime directory and start mode of its configuration, with the given arguments |
| Services.ServiceMatches | qinit/src/service.rs:68-80 | the loop answers true exactly when the names agree and every argument the other service asks for is bound to the same value |
| Services.MatchesReflexive | qinit/src/service.rs:68-80 | every service matches itself |
| Services.MatchesTransitive | qinit/src/service.rs:68-80 | matching is transitive |
| Services.MatchesIgnoresState | qinit/src/service.rs:68-80 | matching never looks at the process state |
| Services.MatchesByName | qinit/src/service.rs:68-80 | a request without arguments is matched by exactly the services of that name |
| Services.Placeholder | qinit/src/service.rs:100 | the placeholder is "${", the key, then "}" |
| Services.KeyOrderLength | qinit/src/service.rs:99 | a `HashMap` visit order lists as many keys as the map has |
| Services.IterationOrder | qinit/src/service.rs:99 | the order the arguments are visited in lists each key exactly once |
| Services.Template | qinit/src/service.rs:97-104 | the loop replaces each argument's placeholder by its value, one argument after another in the visiting order |
| Services.SubstituteNoPlaceholder | qinit/src/service.rs:97-104 | a word without "${" is left as it is |
| Services.SubstituteFree | qinit/src/service.rs:97-104 | templating introduces no character that neither the word nor a value holds |
| Services.TemplateSingle | qinit/src/service.rs:97-104 | with one argument, templating replaces every occurrence of its placeholder by its value |
| Services.Words | qinit/src/service.rs:84 | `split_whitespace` yields non-empty words |
| Services.TemplatedWords | qinit/src/service.rs:89-91 | one templated word per word of the command |
| Services.SplitArgs | qinit/src/service.rs:83-94 | with the keys visited in the given order: `Ok(None)` exactly for a blank command; `Some` holds every word templated in that order, none holding a NUL; an error exactly when some templated word holds a NUL, so never when nothing holds one |
| Services.StartService | qinit/src/service.rs:154-158 | the outcome is `LaunchOf`: a blank command is the `unwrap` that panics, before any fork; a NUL in a templated word fails before the fork; a failed fork launches nothing; a forked service is `Started` with the child's pid |
| Services.UnsatisfiedExactly | qinit/src/service.rs:467-469 | the `retain` keeps exactly the requests the started service does not match |
| Services.UnsatisfiedIdempotent | qinit/src/service.rs:467-469 | crossing off the same service twice changes nothing the second time |
| Services.NotifyServiceStarted | qinit/src/service.rs:467-469 | a notified waiter keeps its service and the requests not matched |
| Services.SweepPartition | qinit/src/service.rs:334-342 | `extract_if` splits the notified waiters: those with requests left stay pending, those with none are released, each on exactly one side |
| Services.FirstLive | qinit/src/service.rs:306-309 | `find` picks the first service whose state is `Started` or `Running` with the pid, or none when there is none |
| Services.RunningInFirst | qinit/src/service.rs:230-241 | a request is running exactly when its first matching service is `Running` |
| Services.UnmetExactly | qinit/src/service.rs:253-258 | the unmet dependencies are exactly those that are not running |
| Services.EvolvedTransitive | qinit/src/service.rs:285-322 | the ways the managed list changes compose |
| Services.EvolvedAppend | qinit/src/service.rs:286-287 | appending a service is such a change |
| Services.EvolvedMark | qinit/src/service.rs:321 | marking a started service running is such a change |
| Services.StatusPid | qinit/src/service.rs:347-350 | a status has a pid exactly when it is not `StillAlive` |
| Services.StatusState | qinit/src/service.rs:360-377 | Exited gives `Terminated(code)`, Signaled and Stopped give `Signaled`, Continued gives `Running`, and the ptrace events change nothing |
| Services.ServiceManager.constructor | qinit/src/service.rs:220-227 | a new manager has no services and no pending waiters |
| Services.ServiceManager.IsRunning | qinit/src/service.rs:230-241 | the loop's answer is whether the first matching service is `Running` |
| Services.ServiceManager.Queue | qinit/src/service.rs:245-267 | nothing changes when a managed service matches; otherwise a waiter with exactly the unmet dependencies is appended, or, when none is unmet, the new state is what `StartEffect` gives for starting the service |
| Services.ServiceManager.Start | qinit/src/service.rs:270-301 | the new state is `StartEffect`: a panicked manager starts nothing; a blank command panics and changes nothing else; a failed start only uses up the fork; a forked service is appended `Started`, a `Run` service then marked `Running`; the list only grows or moves services from `Started` to `Running` |
| Services.ServiceManager.Admit | qinit/src/service.rs:278-292 | the new state is `Admitted`: the launched service is appended; a `Done` service stays `Started` and nothing else changes; a `Run` service whose pid no other live service holds ends up `Running` |
| Services.ServiceManager.MarkServiceRunning | qinit/src/service.rs:304-331 | the new state is `MarkEffect`: an unknown pid or an already running service changes nothing; otherwise the first live service with the pid becomes `Running` and the sweep follows |
| Services.ServiceManager.TriggerStartSweep | qinit/src/service.rs:334-342 | the new state is `SweepEffect`: every waiter is notified, the waiters left with nothing are taken out of the pending list and their services are started in order; each release uses up a fork unless a start panics |
| Services.ServiceManager.SweepWaiters | qinit/src/service.rs:336-339 | the notified waiters split as `Sweep` gives: those with requests left, and those released, each in order |
| Services.ServiceManager.StartReleased | qinit/src/service.rs:340 | the new state is `StartAll`: each released service is started in turn, and each start uses up a fork unless one panics |
| Services.StartAllAfterPanic | qinit/src/service.rs:155 | after a panic the rest of a sweep starts nothing and changes nothing |
| Services.ServiceManager.SetProcessStatus | qinit/src/service.rs:345-381 | the new state is `StatusEffect`: a status without a pid, or for an unknown pid, changes nothing; otherwise the first live service with the pid takes the state `StatusState` gives, and a clean exit of a `Done` service also sweeps the waiters |
| Services.FirstLiveAppend | qinit/src/service.rs:286-291 | a service appended with a pid no other live service holds is the one `find` picks |
| Modprobe.Lookup | modprobe/src/lib/lib.rs:92 | a module the map does not know has no dependencies; a known one has its list |
| Modprobe.KeyOf | modprobe/src/lib/lib.rs:124-130 | a line has a key exactly when it holds a ':' |
| Modprobe.ColonEntriesKeys | modprobe/src/lib/lib.rs:121-136 | a key is in the map exactly when some line carries it |
| Modprobe.ColonEntriesLastWins | modprobe/src/lib/lib.rs:132-135 | a key's value comes from the last line that carries it |
| Modprobe.DependencyList | modprobe/src/lib/lib.rs:134 | the dependency names are the non-empty words after the ':' |
| Modprobe.LoadModDependencies | modprobe/src/lib/lib.rs:117-139 | the loop builds the map of the "key:value" lines of modules.dep, skipping lines without ':' |
| Modprobe.LoadModuleNames | modprobe/src/lib/lib.rs:141-158 | the loop builds the name-to-path map of modules.name in the same way |
| Modprobe.Without | modprobe/src/lib/lib.rs:106-108 | crossing names off never lengthens a list |
| Modprobe.WithoutMembers | modprobe/src/lib/lib.rs:106-108 | exactly the names outside the crossed-off ones are kept |
| Modprobe.WithoutAppend | modprobe/src/lib/lib.rs:106-108 | crossing off in two steps is crossing off all at once |
| Modprobe.WithoutConcat | modprobe/src/lib/lib.rs:106-108 | crossing off distributes over concatenation |
| Modprobe.WithoutNothing | modprobe/src/lib/lib.rs:106-108 | crossing off no names keeps the list |
| Modprobe.RemoveNames | modprobe/src/lib/lib.rs:106-108 | the `retain` for each name in turn keeps exactly the names not crossed off, in order |
| Modprobe.ValidOrderClosed | modprobe/src/lib/lib.rs:97-113 | a load order of all the modules exists only when every dependency is itself in the map |
| Modprobe.ReadyExists | modprobe/src/lib/lib.rs:98-103 | when a load order exists, every round finds a module with nothing left to wait for |
| Modprobe.FirstIn | modprobe/src/lib/lib.rs:98 | the first position of an order that holds a remaining module |
| Modprobe.WithoutAll | modprobe/src/lib/lib.rs:106-108 | crossing off every name of a list empties it |
| Modprobe.StuckHasNoOrder | modprobe/src/lib/lib.rs:100-103 | when nothing can be loaded no load order exists, so the `DependencyError` is justified |
| Modprobe.ExtractReady | modprobe/src/lib/lib.rs:98 | `extract_if` takes out exactly the modules with an empty list, each once, and keeps the others with their lists |
| Modprobe.RemoveLoaded | modprobe/src/lib/lib.rs:105-109 | every remaining list loses exactly the names just loaded |
| Modprobe.RoundStep | modprobe/src/lib/lib.rs:97-111 | one round keeps the loaded list a load order and the rest's lists the dependencies not yet loaded |
| Modprobe.RoundLoadOrder | modprobe/src/lib/lib.rs:110 | modules whose dependencies are all loaded can follow in any order |
| Modprobe.Schedule | modprobe/src/lib/lib.rs:97-113 | `Ok` is a load order of exactly the modules of the map, each after its dependencies; `Err` holds the dependencies left unmet and no load order exists |
| Modprobe.ProgressStart | modprobe/src/lib/lib.rs:97 | before the first round nothing is loaded and the lists are the map's |
| Modprobe.NothingReady | modprobe/src/lib/lib.rs:100-103 | a round with nothing ready is stuck and no load order exists |
| Modprobe.RoundShrinks | modprobe/src/lib/lib.rs:97-111 | a round that loads something leaves fewer modules, so the loop ends |
| Modprobe.SeedAsWritten | modprobe/src/lib/lib.rs:83-94 | as written, the scan list only ever holds the requested module, so the map holds that module alone |
| Modprobe.FindModulesToLoadAsWritten | modprobe/src/lib/lib.rs:75-114 | as written, loading succeeds only for a module without dependencies, and loads that module alone |
| Modprobe.OnlyRoot | modprobe/src/lib/lib.rs:97-113 | a load order over one module is that module, with no dependency |
| Modprobe.AsWrittenNotClosed | modprobe/src/lib/lib.rs:83-94 | a module with a dependency other than itself cannot be loaded by the seeding as written |
| Modprobe.SeedClosure | modprobe/src/lib/lib.rs:83-94 | the seeding as intended: the map holds the requested module, every dependency of a module in it, and each module's list from modules.dep, and its modules are exactly those reachable from the requested one |
| Modprobe.ReachesStep | modprobe/src/lib/lib.rs:83-94 | a dependency of a reachable module is reachable |
| Modprobe.SeededHoldsReachable | modprobe/src/lib/lib.rs:83-94 | a map seeded from the requested module holds every module reachable from it |
| Modprobe.OrderHoldsExactly | modprobe/src/lib/lib.rs:96-114 | a load order of all the modules lists exactly the map's modules |
| Modprobe.FindModulesToLoad | modprobe/src/lib/lib.rs:75-114 | with the intended seeding, `Ok` is a load order of the module and everything it needs, listing exactly the modules reachable from it through modules.dep, and `Err` only when no load order of them exists |
| QshConsumers.Scan | qsh/src/parser/consumers.rs:181-193 | the first position at or after a start whose char stops a run, or the end |
| QshConsumers.ScanFacts | qsh/src/parser/consumers.rs:181-193 | no char before the stop stops the run, and the char at the stop does |
| QshConsumers.ScanExact | qsh/src/parser/consumers.rs:181-193 | any position with those two properties is where the scan stops |
| QshConsumers.WhitespaceRun | qsh/src/parser/consumers.rs:23 | `take_while(is_whitespace)` takes the longest run of whitespace at the start |
| QshConsumers.WhitespaceAsWritten | qsh/src/parser/consumers.rs:22-35 | as written: no token exactly at the end or off whitespace; otherwise the run, with its length counted in UTF-8 bytes |
| QshConsumers.Whitespace | qsh/src/parser/consumers.rs:22-35 | the same token, with the length counted in chars, so that it covers exactly the run |
| QshConsumers.WhitespaceAscii | qsh/src/parser/consumers.rs:22-35 | on ASCII input the byte count and the char count agree |
| QshConsumers.WhitespaceOverrun | qsh/src/parser/consumers.rs:30 | an ideographic space between two letters gives, as written, a token three long that runs past the end of a three-char input |
| QshConsumers.HexRun | qsh/src/parser/consumers.rs:94 | `take_while(is_ascii_hexdigit)` stays inside the window and the input |
| QshConsumers.HexRunFacts | qsh/src/parser/consumers.rs:94 | the run holds hexadecimal digits only and stops at a non-digit, the window's end or the input's end |
| QshConsumers.HexRunExact | qsh/src/parser/consumers.rs:94 | any such run is the one taken |
| QshConsumers.HexDigitsAt | qsh/src/parser/consumers.rs:93-94 | the digits after `\u` are a slice of the input of at most four chars |
| QshConsumers.HexDigitsFacts | qsh/src/parser/consumers.rs:93-98 | those digits are all hexadecimal and as many as the window allows |
| QshConsumers.HexValueBound | qsh/src/parser/consumers.rs:100 | at most four hexadecimal digits give a value below 0x10000 |
| QshConsumers.ParseHexDigits | qsh/src/parser/consumers.rs:100 | `from_str_radix(_, 16)` fails only on no digits, and otherwise gives their value |
| QshConsumers.HexCharacterOutcome | qsh/src/parser/consumers.rs:84-109 | a hex escape declines exactly when no `\u` with four chars available opens it; it panics exactly on no digits or a surrogate; otherwise it covers `\u` and the digits and decodes their value |
| QshConsumers.ReadHexDigits | qsh/src/parser/consumers.rs:94-98 | the loop pushes exactly the digits of the window onto the literal and the encoded string, and counts them |
| QshConsumers.TryConsumeHexCharacter | qsh/src/parser/consumers.rs:84-109 | the method's result is the hex escape's |
| QshConsumers.EscapedCharacter | qsh/src/parser/consumers.rs:46-74 | an escape token is at least two chars long |
| QshConsumers.EscapedCharacterOutcome | qsh/src/parser/consumers.rs:46-74 | declines exactly off a backslash or before an unknown escape; a backslash at the end is "Invalid escape sequence"; errors come only from that or a failing hex escape; a token is a table entry or a hex escape |
| QshConsumers.TryConsumeEscapedCharacter | qsh/src/parser/consumers.rs:46-74 | the method's result is the escape's |
| QshConsumers.UnescapedCharacter | qsh/src/parser/consumers.rs:119-130 | declines exactly at a backslash or the quote; otherwise reads one char as itself |
| QshConsumers.QuotedEscapeSpans | qsh/src/parser/consumers.rs:140-162 | an escape in a quoted string covers at least two chars of the input |
| QshConsumers.EscapedStringChar | qsh/src/parser/consumers.rs:140-162 | such an escape is at least two chars long |
| QshConsumers.EscapedStringCharOutcome | qsh/src/parser/consumers.rs:140-162 | declines exactly off a backslash; a backslash before the quote decodes to the quote; a backslash before any other unknown char is "Invalid escape sequence: \\c" at the backslash |
| QshConsumers.EscapedStringCharShape | qsh/src/parser/consumers.rs:140-162 | a token covers the input from its start, and an error lies at the start |
| QshConsumers.TryConsumeEscapedStringChar | qsh/src/parser/consumers.rs:140-162 | the method's result is the escape's |
| QshConsumers.QuotedStringFrom | qsh/src/parser/consumers.rs:172-208 | the quoted string is the walk of its loop over the steps at each position |
| QshConsumers.QuotedFromEnds | qsh/src/parser/consumers.rs:181-200 | the loop ends where the closing quote is due, or fails at a backslash whose escape fails, with the error at that backslash |
| QshConsumers.QuotedFromPlain | qsh/src/parser/consumers.rs:181-207 | over plain chars up to a quote the token is that stretch and decodes to the chars between the quotes |
| QshConsumers.QuotedStringShape | qsh/src/parser/consumers.rs:172-208 | a quoted string declines exactly when no quote with a char after it opens at the start; a token runs from the opening quote to a closing one; an error lies at or after the start |
| QshConsumers.QuotedStringExact | qsh/src/parser/consumers.rs:172-208 | without a backslash before the first closing quote the token is exactly that stretch; with no closing quote at all the result is "Expected closing quote" |
| QshConsumers.QuotedFromAdvance | qsh/src/parser/consumers.rs:182-189 | a step that reads a token moves the loop past it and appends its char |
| QshConsumers.TryConsumeQuotedStep | qsh/src/parser/consumers.rs:182-192 | one pass of the loop body gives the step at that position |
| QshConsumers.TryConsumeQuotedString | qsh/src/parser/consumers.rs:172-208 | the method's loop computes the quoted string |
| QshConsumers.UnquotedCharacter | qsh/src/parser/consumers.rs:224-236 | declines exactly at whitespace, a quote or a backslash; otherwise reads one char as itself |
| QshConsumers.UnquotedStringFrom | qsh/src/parser/consumers.rs:246-275 | the unquoted string is the walk of its loop over the steps at each position |
| QshConsumers.UnquotedFromEnds | qsh/src/parser/consumers.rs:251-263 | the loop ends at the end of the input or where no unquoted string starts, or fails at a backslash whose escape fails |
| QshConsumers.UnquotedFromPlain | qsh/src/parser/consumers.rs:251-274 | over plain chars up to a break that starts no escape, the loop reads each char as itself |
| QshConsumers.UnquotedStringShape | qsh/src/parser/consumers.rs:246-275 | declines exactly at the end or where no unquoted string starts; a token covers the input from the start up to such a place |
| QshConsumers.UnquotedStringExact | qsh/src/parser/consumers.rs:246-275 | a plain word up to a break that is not a backslash is read as itself, and nothing is read when the word is empty |
| QshConsumers.UnquotedFromAdvance | qsh/src/parser/consumers.rs:252-259 | a step that reads a token moves the loop past it and appends its char |
| QshConsumers.TryConsumeUnquotedStep | qsh/src/parser/consumers.rs:252-262 | one pass of the loop body gives the step at that position |
| QshConsumers.TryConsumeUnquotedString | qsh/src/parser/consumers.rs:246-275 | the method's loop computes the unquoted string |
| QshExpressions.QuotedOrUnquotedOutcome | qsh/src/parser/consumers.rs:287-312 | a part declines exactly at the end or where none starts; otherwise it is a single-quoted, double-quoted or unquoted string as its first char selects; errors lie at or after the start |
| QshExpressions.QuotedOrUnquotedWord | qsh/src/parser/consumers.rs:302-308 | a plain word that ends at a break other than a backslash is one unquoted part of itself |
| QshExpressions.QuotedOrUnquotedUnclosed | qsh/src/parser/consumers.rs:288-301 | a quote never closed makes the part "Expected closing quote" at that quote |
| QshExpressions.TryConsumeQuotedOrUnquotedString | qsh/src/parser/consumers.rs:287-312 | the method's result is the part's |
| QshExpressions.LiteralsAppend | qsh/src/parser/consumers.rs:329-341 | appending a part adds its literal and its length |
| QshExpressions.CombinedStringFrom | qsh/src/parser/consumers.rs:323-346 | the combined string is the walk of its loop over the parts at each position |
| QshExpressions.CombinedFromEnds | qsh/src/parser/consumers.rs:327-334 | the loop ends at the end or where no part starts, or fails at or after where it stopped |
| QshExpressions.CombinedFromJoins | qsh/src/parser/consumers.rs:329-343 | the parts' literals join to the token's literal and their lengths add up to its length |
| QshExpressions.CombinedStringShape | qsh/src/parser/consumers.rs:323-346 | declines exactly where no part starts; a token covers the input from the start, has at least one part, and ends where no part starts |
| QshExpressions.CombinedStringParts | qsh/src/parser/consumers.rs:341-343 | a combined string's literal is its parts' literals joined, and its length the sum of theirs |
| QshExpressions.CombinedWord | qsh/src/parser/consumers.rs:323-346 | a plain word ending at whitespace or the end is a combined string of one unquoted part |
| QshExpressions.CombinedUnclosed | qsh/src/parser/consumers.rs:323-346 | plain chars before a quote that is never closed make the combined string fail at that quote |
| QshExpressions.CombinedFromAdvance | qsh/src/parser/consumers.rs:328-330 | a part that is read moves the loop past it and is appended |
| QshExpressions.TryConsumePart | qsh/src/parser/consumers.rs:328-333 | one pass of the loop body gives the part at that position |
| QshExpressions.TryConsumeCombinedString | qsh/src/parser/consumers.rs:323-346 | the method's loop computes the combined string |
| QshExpressions.WordAtCombined | qsh/src/parser/consumers.rs:365-368 | every word an expression keeps is the combined string at its start |
| QshExpressions.ExpressionFromSteps | qsh/src/parser/consumers.rs:356-384 | the expression is the walk of its loop over the pieces at each position |
| QshExpressions.ExpressionFromAdvance | qsh/src/parser/consumers.rs:362-368 | whitespace moves the loop on and adds no word; a combined string moves it on and is appended as a word |
| QshExpressions.ExpressionFromEnds | qsh/src/parser/consumers.rs:361-372 | the loop ends at the end or where neither whitespace nor a part starts, or fails at or after where it stopped |
| QshExpressions.ExpressionFromNotNone | qsh/src/parser/consumers.rs:374-376 | once a word is read, the expression does not decline |
| QshExpressions.ExpressionWordsGap | qsh/src/parser/consumers.rs:362-364 | whitespace read keeps the words laid out |
| QshExpressions.ExpressionWordsWord | qsh/src/parser/consumers.rs:365-368 | a word read is laid out after the ones before it |
| QshExpressions.ExpressionFromWords | qsh/src/parser/consumers.rs:356-384 | the words an expression holds lie in order with only whitespace around and between them |
| QshExpressions.ExpressionFromNone | qsh/src/parser/consumers.rs:374-376 | the expression declines exactly when nothing a part can start with follows the leading whitespace |
| QshExpressions.ExpressionOutcome | qsh/src/parser/consumers.rs:356-384 | declines exactly when only whitespace or nothing a part can start with follows; a token covers the input from the start, holds at least one word, lays its words out with whitespace between them, and ends where nothing more can be read |
| QshExpressions.TryConsumePiece | qsh/src/parser/consumers.rs:362-371 | one pass of the loop body gives the piece at that position |
| QshExpressions.TryConsumeExpression | qsh/src/parser/consumers.rs:356-384 | the method's loop computes the expression |
| QshExpressions.PieceGap | qsh/src/parser/consumers.rs:362-364 | at whitespace the expression reads the whole run |
| QshExpressions.PieceWord | qsh/src/parser/consumers.rs:365-368 | a run of plain chars ending at whitespace or the end is one word of one unquoted part |
| QshExpressions.PieceUnclosed | qsh/src/parser/consumers.rs:365 | plain chars before an unclosed quote make the step fail at the quote |
| QshExpressions.PlainWordsGap | qsh/src/parser/consumers.rs:362-364 | whitespace adds no word to the reference reading |
| QshExpressions.PlainWordsWord | qsh/src/parser/consumers.rs:365-368 | a run of plain chars is the next word of the reference reading |
| QshExpressions.ExpressionPlainWord | qsh/src/parser/consumers.rs:365-368 | a plain word read by the expression is one unquoted part up to the next whitespace |
| QshExpressions.ExpressionPlainGap | qsh/src/parser/consumers.rs:362-364 | whitespace read by the expression is the whole run |
| QshExpressions.ExpressionFromPlain | qsh/src/parser/consumers.rs:356-384 | from any point of an input without escapes or quotes, the loop reads the rest as the runs of non-whitespace |
| QshExpressions.ExpressionPlain | qsh/src/parser/consumers.rs:349-384 | without escapes or quotes, "/bin/sh -c x" style input is split into its runs of non-whitespace, each one unquoted part, and the token covers the whole rest of the input |
| QshExpressions.ExpressionFromUnclosed | qsh/src/parser/consumers.rs:356-384 | from any point before an unclosed quote, the loop fails at that quote |
| QshExpressions.ExpressionUnclosed | qsh/src/parser/consumers.rs:356-384 | plain chars and whitespace up to a quote that is never closed make the expression fail with "Expected closing quote" at that quote |
| QshBuffer.ByteChar | qsh/src/buffer.rs:61 | a byte becomes the char with that code |
| QshBuffer.Chars | qsh/src/buffer.rs:58-62 | a run of bytes becomes as many chars, each with its byte's code |
| QshBuffer.Inserted | qsh/src/buffer.rs:43 | inserting puts the char at the cursor and moves everything from the cursor on one place right |
| QshBuffer.Typed | qsh/src/buffer.rs:38-47 | typing chars lengthens the buffer by their number |
| QshBuffer.TypedAtEnd | qsh/src/buffer.rs:39-41 | typing at the end appends the chars and echoes each of them |
| QshBuffer.NewlineIndex | qsh/src/buffer.rs:26-34 | the first newline byte of the input, or none when it holds none |
| QshBuffer.Buffer.constructor | qsh/src/buffer.rs:15-22 | a new buffer is empty with the cursor at 0 and nothing written |
| QshBuffer.Buffer.PushChar | qsh/src/buffer.rs:38-47 | at the end the char is appended and echoed; before the end it is inserted at the cursor without echo; the cursor moves one right |
| QshBuffer.Buffer.Flush | qsh/src/buffer.rs:50-55 | hands out the buffer's text and leaves it empty with the cursor at 0 |
| QshBuffer.Buffer.ReadChar | qsh/src/buffer.rs:58-62 | the next byte as a char, or `UnexpectedEof` with nothing consumed at the end of the input |
| QshBuffer.Buffer.Read | qsh/src/buffer.rs:25-35 | the loop's result and new state are those of reading one byte at a time until a newline or the end |
| QshBuffer.Typing | qsh/src/buffer.rs:32 | typing keeps the cursor inside the buffer |
| QshBuffer.ReadingTypes | qsh/src/buffer.rs:31-33 | a byte other than a newline is typed and the loop goes on |
| QshBuffer.ReadingStops | qsh/src/buffer.rs:27-30 | the loop stops at the end of the input or at the first newline |
| QshBuffer.ReadingMeaning | qsh/src/buffer.rs:25-35 | from any point of the loop, the outcome is the one for the whole input |
| QshBuffer.ReadingIsOutcome | qsh/src/buffer.rs:25-35 | `read` types the chars before the first newline at the cursor, echoes a newline and hands out the line with the buffer emptied; without a newline it returns the error with everything typed |
| QshBuffer.TypedStep | qsh/src/buffer.rs:38-47 | typing one more char inserts it at the cursor and echoes it only at the end |
| QshBuffer.NoNewline | qsh/src/buffer.rs:27 | input that ran out had no newline |
| QshBuffer.NewlineExit | qsh/src/buffer.rs:28-30 | the newline read is the first one and the line is what came before it |
| QshBuffer.NewlineFirst | qsh/src/buffer.rs:28 | a newline with none before it is the first |
| QshBuffer.ReadFresh | qsh/src/buffer.rs:25-35 | on a new buffer, `read` hands out exactly the chars before the first newline and echoes them followed by a newline |
| QshBuffer.FreshOutcome | qsh/src/buffer.rs:25-35 | the intended outcome on a new buffer, spelled out |
| QshBuffer.CharIndexAt | qsh/src/buffer.rs:43 | the char index whose UTF-8 byte offset is the given one, when that offset is a char boundary |
| QshBuffer.PushCharAsciiAgrees | qsh/src/buffer.rs:38-47 | on an ASCII buffer `push_char` as written does what the corrected one does |
| QshBuffer.AsciiCharIndex | qsh/src/buffer.rs:43 | in ASCII text every byte offset is the same char index |
| QshBuffer.PushCharNonAsciiPanics | qsh/src/buffer.rs:39-43 | as written, typing the byte 0xE9 and then 'a' panics: the first char takes two bytes, the cursor is 1, and 1 is inside that char |
| Cpio.AsciiBytes | cpio/src/lib.rs:146-158 | ASCII text becomes its bytes, one per char |
| Cpio.AsciiChars | cpio/src/lib.rs:270 | ASCII bytes are valid UTF-8 and read as the chars with their codes |
| Cpio.HeaderOf | cpio/src/lib.rs:128-141 | twelve fields in order make the header whose fields they are |
| Cpio.NumPaddingBytes | cpio/src/lib.rs:261-263 | the padding is less than the alignment and brings the count to a multiple of it |
| Cpio.HexField | cpio/src/lib.rs:146 | `{:08x}` gives eight lower-case hexadecimal digits |
| Cpio.ParseField | cpio/src/lib.rs:266-272 | `from_str_radix(_, 16)` on eight bytes: any failure is `InvalidData`; success needs hexadecimal digits after an optional '+', and eight digits always succeed |
| Cpio.ParseHexField | cpio/src/lib.rs:146-272 | reading an `{:08x}` field gives back the number |
| Cpio.ReadExact | cpio/src/lib.rs:122 | `read_exact` takes exactly n bytes, and fails with `UnexpectedEof` exactly when fewer are left |
| Cpio.ReadField | cpio/src/lib.rs:266-272 | a field takes eight bytes |
| Cpio.ReadFields | cpio/src/lib.rs:129-140 | k fields take 8k bytes |
| Cpio.ReadHeader | cpio/src/lib.rs:120-142 | a header takes 102 bytes, and a wrong magic is `InvalidData` |
| Cpio.TrimNuls | cpio/src/lib.rs:194 | `trim_end_matches('\0')` removes exactly the trailing NULs |
| Cpio.ReadBody | cpio/src/lib.rs:179-196 | the checksum field, name, padding, data and padding take at least the checksum's eight bytes; a body read has a UTF-8 name; the `unwrap` of `String::from_utf8` panics only on a name that is not UTF-8 |
| Cpio.NonUtf8NamePanics | cpio/src/lib.rs:194 | when all the body's bytes are there and the name is not UTF-8, the `unwrap` panics |
| Cpio.ReadEntry | cpio/src/lib.rs:176-197 | an entry read takes at least the 110 header bytes, and a wrong magic is `InvalidData` |
| Cpio.WrittenNonUtf8NamePanics | cpio/src/lib.rs:176-197 | an entry written with a name that, with its NUL, is not UTF-8 makes the reader panic |
| Cpio.ReadEntryBadField | cpio/src/lib.rs:266-272 | a non-hexadecimal byte in the first field is `InvalidData` |
| Cpio.HexFields | cpio/src/lib.rs:146-157 | k fields write 8k bytes |
| Cpio.ZeroFieldReads | cpio/src/lib.rs:158-179 | the zero checksum the writer puts reads as 0 |
| Cpio.WriteHeader | cpio/src/lib.rs:144-161 | a header writes 110 bytes |
| Cpio.HexFieldsSlices | cpio/src/lib.rs:146-157 | field i is written at bytes 8i to 8i+8 |
| Cpio.WriteHeaderLayout | cpio/src/lib.rs:144-161 | the magic first, field i at 6+8i, then eight '0' digits for the checksum |
| Cpio.WriteEntry | cpio/src/lib.rs:199-211 | an entry writes at least the header |
| Cpio.Trailer | cpio/src/lib.rs:298-317 | the trailer is named TRAILER!!!, has name size 11, one link and no data, and every other field 0 |
| Cpio.TrailerWellFormed | cpio/src/lib.rs:298-317 | the trailer reads back as itself |
| Cpio.ReadHexField | cpio/src/lib.rs:146-272 | a written field reads back, leaving the rest |
| Cpio.ReadHexFields | cpio/src/lib.rs:129-157 | written fields read back in order |
| Cpio.ReadWrittenHeader | cpio/src/lib.rs:120-161 | a written header reads back as itself, leaving the checksum and the rest |
| Cpio.ValidWithNul | cpio/src/lib.rs:194-203 | a NUL after UTF-8 text is still UTF-8, so the `unwrap` on the name succeeds |
| Cpio.ReadWrittenBody | cpio/src/lib.rs:179-208 | the written name, padding and data read back |
| Cpio.ReadWrittenEntry | cpio/src/lib.rs:176-211 | an entry whose sizes agree with its name and data, whose name is UTF-8 and does not end in NUL, reads back as itself |
| Cpio.PrefixedNothing | cpio/src/lib.rs:33-41 | no entries in front change nothing |
| Cpio.PrefixedTwice | cpio/src/lib.rs:33-41 | entries put in front twice are put in front together |
| Cpio.ArchiveStep | cpio/src/lib.rs:33-41 | a panic ends the read in a panic and an error with the error; the trailer ends it; any other entry is kept in front of the rest |
| Cpio.ArchivePanics | cpio/src/lib.rs:33-41 | an entry that panics ends the whole archive in a panic, whatever entries were read before it |
| Cpio.ReadArchive | cpio/src/lib.rs:30-46 | the loop reads the entries up to the trailer, or the first error, or panics where an entry's name is not UTF-8 |
| Cpio.EntriesBytesSnoc | cpio/src/lib.rs:50-52 | writing one more entry appends its bytes |
| Cpio.WriteArchive | cpio/src/lib.rs:49-57 | the loop writes every entry, then the trailer |
| Cpio.ReadWrittenArchive | cpio/src/lib.rs:30-57 | an archive of entries that read back and are not named TRAILER!!! reads back as those entries, whatever follows |
| Cpio.ReadWrittenTrailer | cpio/src/lib.rs:36-54 | the trailer alone reads back as no entries |
| Cpio.ReadWrittenArchiveStep | cpio/src/lib.rs:30-57 | one entry more in front reads back in front |
| Cpio.Normals | cpio/src/lib.rs:215 | the normal components are neither empty nor "." |
| Cpio.NameSize | cpio/src/lib.rs:222 | the name size is the name's length plus one, as a u32 |
| Cpio.TrimFilePrefix | cpio/src/lib.rs:214-224 | data and the first eleven fields stay; a name equal to the prefix becomes "." with size 2; a name under the prefix becomes the rest of its components with size `len + 1`; any other entry is left alone |
| Cpio.NormalsOfNormal | cpio/src/lib.rs:215 | normal components are kept as they are |
| Cpio.NormalsDropEmpty | cpio/src/lib.rs:215 | an empty piece is dropped |
| Cpio.ComponentsShaped | cpio/src/lib.rs:215 | a path's components are the root or "." only first, then normal pieces without "/" |
| Cpio.NormalsSubset | cpio/src/lib.rs:215 | normal components come from the pieces |
| Cpio.JoinedNormals | cpio/src/lib.rs:221 | normal components joined by "/" split back into themselves |
| Cpio.RebuildComponents | cpio/src/lib.rs:220-221 | the path `strip_prefix` gives has exactly the remaining components |
| Cpio.RebuildRooted | cpio/src/lib.rs:220-221 | the same for components starting at the root |
| Cpio.RebuildDotted | cpio/src/lib.rs:220-221 | the same for components starting with "." |
| Cpio.RebuildRelative | cpio/src/lib.rs:220-221 | the same for other relative components |
| Cpio.TrimmedComponents | cpio/src/lib.rs:220-222 | the prefix's components followed by the trimmed name's are the original name's |
| Cpio.SuffixShaped | cpio/src/lib.rs:220 | what is left after a prefix of components is still shaped like a path's |
| Sha.CheckRounds | auth/src/sha.rs:77-80 | the rounds, 5000 when none are given, are accepted exactly when between 1000 and 999999999, and otherwise are `InvalidRounds` of that number |
| Sha.DefaultRounds | auth/src/sha.rs:5-80 | no rounds means 5000; 999 and 1000000000 are refused |
| Sha.Repeat | auth/src/sha.rs:140-166 | n copies of a byte string are n times as long |
| Sha.Cycle | auth/src/sha.rs:114-174 | `cycle().take(n)` gives n bytes |
| Sha.RepeatIndex | auth/src/sha.rs:152-157 | byte i of the repetition is byte i mod the length of the string |
| Sha.CycleBlocks | auth/src/sha.rs:110-151 | taking k·L+m bytes of a cycle is k whole copies and the first m bytes |
| Sha.DsCount | auth/src/sha.rs:162-166 | digest DS takes 16 + A[0] copies of the salt, between 16 and 271 |
| Sha.DsCountAsWritten | auth/src/sha.rs:164 | the 8-bit sum as written agrees below A[0] = 240 and is 256 short from there on |
| Sha.DsCountOverflow | auth/src/sha.rs:164 | at A[0] = 240 the count as written is 0, so digest DS hashes nothing where 256 copies of the salt were meant |
| Sha.RoundInputShape | auth/src/sha.rs:186-213 | the input of digest C in each round: P or A/C first by parity, S unless the round is a multiple of 3, P unless it is a multiple of 7, then the other of A/C and P |
| Sha.Rounds | auth/src/sha.rs:185-218 | every round gives a digest of the mode's length |
| Sha.Base64Bytes | auth/src/sha.rs:225-233 | the four 6-bit offsets, lowest first, spell the 24-bit number a·65536 + b·256 + c |
| Sha.TablesFit | auth/src/sha.rs:23-61 | the shuffle tables pick bytes inside the digest: 11 groups ending in 3 chars for SHA-256, 22 ending in 2 for SHA-512 |
| Sha.GroupChars | auth/src/sha.rs:66-69 | a group gives as many characters of the table as it asks for |
| Sha.EncodeGroups | auth/src/sha.rs:66-69 | every character comes from the base-64 table |
| Sha.EncodeGroupsLength | auth/src/sha.rs:66-69 | four characters for each group but the last, which gives its own count |
| Sha.Base64 | auth/src/sha.rs:18-72 | SHA-256 digests encode to 43 characters and SHA-512 ones to 86, all from the table |
| Sha.EncodeGroupsLoop | auth/src/sha.rs:65-71 | the loop appends the characters of each group in turn |
| Sha.CryptSha2Base64 | auth/src/sha.rs:18-72 | the method encodes the digest as the table prescribes |
| Sha.DigestA | auth/src/sha.rs:89-133 | digest A has the mode's length |
| Sha.SequenceP | auth/src/sha.rs:135-157 | P is as long as the password |
| Sha.SequenceS | auth/src/sha.rs:159-174 | S is as long as the salt |
| Sha.ShaCryptWith | auth/src/sha.rs:76-221 | whatever the DS count, an error exactly when the rounds are out of range, and otherwise 43 or 86 characters of the table |
| Sha.ShaCrypt | auth/src/sha.rs:76-221 | `crypt_sha2` with 16 + A[0] copies of the salt: an error exactly when the rounds are out of range |
| Sha.ShaCryptAsWritten | auth/src/sha.rs:76-221 | the same with the count as written |
| Sha.AsWrittenAgrees | auth/src/sha.rs:164 | below A[0] = 240 the code as written computes the intended hash |
| Sha.CryptSha2 | auth/src/sha.rs:76-221 | the method's loops compute the intended hash |
| Auth.FromPasswdLine | auth/src/lib.rs:131-154 | a passwd line parses exactly when it has seven ':' fields with a u32 uid and gid; every failure is `Malformed`; the user takes name, home and shell from fields 0, 5 and 6 |
| Auth.ParsePasswdLine | auth/src/lib.rs:131-154 | the line of a user whose fields hold no ':' parses back as that user |
| Auth.DecimalZero | auth/src/lib.rs:138-143 | 0 is written "0" |
| Auth.RootPasswdLineJoin | auth/src/lib.rs:523 | the root line of the test is its seven fields joined by ':' |
| Auth.RootPasswdLineFields | auth/src/lib.rs:523 | that line is root's passwd line |
| Auth.RootPasswdLine | auth/src/lib.rs:521-530 | the root line parses as uid 0, gid 0, home /root, shell /bin/bash |
| Auth.FromGroupLine | auth/src/lib.rs:420-432 | a group line parses exactly when it has four ':' fields with a u32 gid in the third; every failure is `Malformed` |
| Auth.ParseGroupLine | auth/src/lib.rs:420-432 | the line of a group whose name holds no ':' parses back as that group |
| Auth.GroupTests | auth/src/lib.rs:558-565 | "root:x:0:" is group root with gid 0, and "YY" is an error |
| Auth.TrimStartMatches | auth/src/lib.rs:300 | `trim_start_matches` leaves a suffix that no longer starts with the pattern |
| Auth.AlgorithmOf | auth/src/lib.rs:310-314 | "5" is SHA-256, "6" is SHA-512, and nothing else is supported |
| Auth.RoundsOf | auth/src/lib.rs:296-302 | a rounds field parses exactly when it starts with "rounds=" and a u32 follows; failures are `Malformed` |
| Auth.FromCryptPassword | auth/src/lib.rs:291-322 | other than four or five '$' fields is `AlwaysBad`; a bad rounds field is `Malformed`; an unknown id is `Unsupported(id)`; salt and hash are the last two fields, rounds present exactly with five |
| Auth.AlgorithmString | auth/src/lib.rs:274-281 | the written id of an algorithm parses back as it |
| Auth.ParseHashedPasswordString | auth/src/lib.rs:291-342 | a hashed password's `$id$salt$hash` form parses back as it, without its rounds, which that form does not write |
| Auth.DecimalStringFree | auth/src/lib.rs:300 | a decimal number holds no char that is not a digit |
| Auth.TrimRoundsPrefix | auth/src/lib.rs:300 | trimming "rounds=" before digits leaves the digits |
| Auth.RoundsField | auth/src/lib.rs:296-302 | "rounds=" and a u32 parse back as the number |
| Auth.ParseCryptStringWithRounds | auth/src/lib.rs:291-322 | `$id$rounds=n$salt$hash` parses back with its rounds |
| Auth.CryptStringWithoutFields | auth/src/lib.rs:305-308 | a string without '$' fields is always bad |
| Auth.CryptStringUnsupported | auth/src/lib.rs:310-314 | an id other than 5 or 6 is unsupported |
| Auth.FromShadowLine | auth/src/lib.rs:211-234 | a shadow line parses exactly when it has nine ':' fields with a u32 last change; the hash is present exactly when its field parses as a crypt string |
| Auth.ParseShadowEntryString | auth/src/lib.rs:211-268 | a shadow entry's line parses back as the entry, its hash without rounds |
| Auth.Verify | auth/src/lib.rs:325-335 | verification fails exactly when the rounds are out of range, with `InvalidPassword`; otherwise it answers whether the stored hash is the SHA-crypt of the salt and password, computed with the corrected DS count of `Sha.ShaCrypt` rather than `Sha.ShaCryptAsWritten` |
| Auth.VerifyPassword | auth/src/lib.rs:250-255 | an entry without a hash never verifies; one that verifies has a hash |
| Auth.VerifyOwnHash | auth/src/lib.rs:325-335 | a password verifies against the hash computed from it |
| Auth.VerifyMalformedHash | auth/src/lib.rs:325-335 | a stored hash of the wrong length or with a char outside the base-64 table never verifies |
| Auth.ScanAsWritten | auth/src/lib.rs:507-515 | a value the loop as written returns lies in the range from where it looks on |
| Auth.FindNonOverlappingValueAsWritten | auth/src/lib.rs:507-515 | the loop as written, indexing `values[i]` without a bound check |
| Auth.FirstFree | auth/src/lib.rs:506-515 | the first value of the range not among the values, all below it being used; none when the range is full |
| Auth.FindNonOverlappingValue | auth/src/lib.rs:507-515 | the corrected loop returns the first free value |
| Auth.ScanAgrees | auth/src/lib.rs:507-515 | over strictly ascending values in the range (sorted, no id repeated), the loop as written, when it does not panic, finds the first free value |
| Auth.FirstFreeUnique | auth/src/lib.rs:506 | any value with the first-free property is the one |
| Auth.AsWrittenReturnsFirstFree | auth/src/lib.rs:501-515 | on sorted ids with no id repeated, a result of the loop as written is the first free value |
| Auth.StrictlyAscendingWithoutRepeat | auth/src/lib.rs:484 | strictly ascending ids are exactly the sorted ids in which no id repeats |
| Auth.ScanUsedOnlyOnRepeat | auth/src/lib.rs:507-515 | on sorted ids, from any point the scan has matched up to, every id below the value returned is in use, and that value is in use only when some id repeats |
| Auth.AsWrittenUsedOnlyOnRepeat | auth/src/lib.rs:473-515 | on the sorted ids `next_uid` and `next_gid` pass, repeats allowed, the loop as written never skips a free id and returns a used one only when some id repeats |
| Auth.AsWrittenDuplicateReturnsUsed | auth/src/lib.rs:473-515 | uids [1000, 1000, 1001], sorted with a repeat: the loop as written returns 1001, which is in use, where the first free id is 1002 |
| Auth.AsWrittenPanicsWhenUnused | auth/src/lib.rs:473-515 | on an empty list of ids (nothing used in 1000..65535) the loop as written panics where 1000 is free |
| Auth.ScanSkipsPrefix | auth/src/lib.rs:508-512 | the loop walks past values that match the range |
| Auth.AsWrittenPanicsWhenPrefixUsed | auth/src/lib.rs:508-512 | when the used values are exactly the start of the range, the loop as written runs off the end of them and panics |
| Auth.FreeIdTestGap | auth/src/lib.rs:569-570 | 0..10 with 9 missing gives 9 |
| Auth.FreeIdTestFull | auth/src/lib.rs:572-573 | 0..10 all used gives none |
| Escapes.Make | escapes/src/lib.rs:31-62 | the sequence of a final letter with one parameter shows that letter and holds that parameter |
| Escapes.New | escapes/src/lib.rs:65-74 | a letter other than A, B, C, D and K is `Unsupported`; no parameter takes the default (1, or 0 for K); one is taken as it is; more are `NumParams(1, n)` |
| Escapes.Display | escapes/src/lib.rs:115-125 | a sequence is written as ESC, '[', its parameter and its letter |
| Escapes.PushParam | escapes/src/lib.rs:97-100 | an empty buffer pushes no parameter |
| Escapes.Scan | escapes/src/lib.rs:90-105 | the loop stops at a byte that is neither a digit nor ';', having consumed a prefix of the input |
| Escapes.ReadWith | escapes/src/lib.rs:77-112 | no byte is an IO error; a first byte other than '[' is `Malformed`; a sequence consumes a prefix of the input |
| Escapes.ReadEscape | escapes/src/lib.rs:77-112 | the method's loop computes the corrected read |
| Escapes.AsciiBytes | escapes/src/lib.rs:76 | ASCII text becomes its bytes |
| Escapes.DecimalAscii | escapes/escapes-derive/src/lib.rs:54 | a decimal number is written in ASCII digits |
| Escapes.DecimalBytes | escapes/escapes-derive/src/lib.rs:54 | a decimal number's bytes are non-empty digits |
| Escapes.DisplayBytesAreDisplay | escapes/escapes-derive/src/lib.rs:73-78 | the written sequence is ASCII, and after the ESC its bytes are what the reader takes |
| Escapes.ScanDigits | escapes/src/lib.rs:94-96 | digits are gathered into the parameter buffer |
| Escapes.DecimalDigitChars | escapes/src/lib.rs:95 | a number's digits gather to its decimal string |
| Escapes.PushWrittenParam | escapes/src/lib.rs:97-99 | a written u8 parameter parses back as itself |
| Escapes.ScanParam | escapes/src/lib.rs:90-105 | a parameter followed by ';' goes on, and followed by anything else ends the loop |
| Escapes.ScanFinal | escapes/src/lib.rs:102-104 | a final byte ends the loop with the parameters gathered |
| Escapes.ScanParams | escapes/src/lib.rs:90-105 | parameters separated by ';' are gathered in order |
| Escapes.ReadWritten | escapes/src/lib.rs:77-112 | '[', parameters and a letter read as the sequence `new` makes of them, with 1 pushed first when there are none as written |
| Escapes.LetterRoundTrip | escapes/src/lib.rs:92-111 | a final letter survives the byte-to-char cast and is not a digit or ';' |
| Escapes.ReadDisplay | escapes/src/lib.rs:77-125 | every written sequence reads back as itself, with the read as written too |
| Escapes.ReadTooManyParams | escapes/escapes-derive/src/lib.rs:65-66 | more than one parameter is `NumParams(1, n)` |
| Escapes.ReadUnsupported | escapes/src/lib.rs:72 | an unknown final byte is `Unsupported` of its char, in both reads |
| Escapes.AsWrittenAgrees | escapes/src/lib.rs:107-111 | the read as written agrees with the corrected one except for "[K" without a parameter |
| Escapes.CursorUpDefault | escapes/src/lib.rs:136 | "[A" reads as CursorUp(1) |
| Escapes.CursorUpTen | escapes/src/lib.rs:138 | "[10A" reads as CursorUp(10) |
| Escapes.DecimalTen | escapes/src/lib.rs:134 | 10 is written "10" |
| Escapes.EraseInLineDefault | escapes/src/lib.rs:107-109 | as written "[K" reads as EraseInLine(1), where the default of the derive is 0 |
| Escapes.ReadParameterTooLarge | escapes/src/lib.rs:98 | a parameter above 255 is the IO error "Failed to parse parameter" |
| Escapes.DisplayTests | escapes/src/lib.rs:134-173 | CursorUp(10) is written "\x1b[10A" and EraseInLine(0) "\x1b[0K" |
| Tables.Len | tables/src/columntable.rs:58-100 | `str::len` counts UTF-8 bytes, at least one per char |
| Tables.Max | tables/src/columntable.rs:100 | `usize::max` is the larger of the two |
| Tables.Fill | tables/src/columntable.rs:136-146 | `"-".repeat(n)` is n dashes |
| Tables.Pad | tables/src/columntable.rs:113 | `{:width$}` keeps the string and pads it with spaces up to the width, leaving a longer one as it is |
| Tables.SumPrefix | tables/src/columntable.rs:82 | the sum of some widths is at most the sum of all |
| Tables.CellsLength | tables/src/columntable.rs:112-120 | cells that fit their widths take the widths plus one gap between each two |
| Tables.WriteCells | tables/src/columntable.rs:112-120 | the loop writes each cell padded, with the gap after every cell but the last |
| Tables.Unlines | tables/src/columntable.rs:126 | no lines write nothing |
| Tables.UnlinesSnoc | tables/src/columntable.rs:126 | one more line adds it and a newline |
| Tables.UnlinesAppend | tables/src/columntable.rs:126 | the lines of two runs write one after the other |
| ColumnTable.ColumnWidthIsMax | tables/src/columntable.rs:58-101 | a column's width is no less than any cell in it, header included, and is 0 or some cell's width |
| ColumnTable.RowLines | tables/src/columntable.rs:151-153 | one line per row, as `write_row` writes it |
| ColumnTable.RowLinesStep | tables/src/columntable.rs:151-153 | writing one more row appends its line |
| ColumnTable.RowLineLength | tables/src/columntable.rs:107-128 | a row whose cells fit is exactly as wide as the table |
| ColumnTable.CellsFit | tables/src/columntable.rs:58-101 | with the widths kept as `add_row` keeps them, every header and cell fits its column |
| ColumnTable.TopSameLength | tables/src/columntable.rs:135-149 | the top border, headers and header separator are as wide as the table |
| ColumnTable.RowLinesSameLength | tables/src/columntable.rs:151-153 | every row line is as wide as the table |
| ColumnTable.LinesSameLength | tables/src/columntable.rs:131-160 | with the width corrected, every line the table writes is equally wide |
| ColumnTable.RenderedAsWritten | tables/src/columntable.rs:80-134 | as written, `Display` panics exactly for no columns, or without column separators when `width` is below 2 |
| ColumnTable.AsWrittenAgreesPlain | tables/src/columntable.rs:131-160 | without column separators, and unless both border and header separator are set, the code as written writes the corrected table |
| ColumnTable.AsWrittenAgreesThreeColumns | tables/src/columntable.rs:131-160 | with separators, three columns and a border or no header separator, it does too |
| ColumnTable.AsWrittenSeparatorShort | tables/src/columntable.rs:89-146 | with three separated columns, no border and a header separator, the separator as written is two chars shorter than the header line |
| ColumnTable.AsWrittenBorderWide | tables/src/columntable.rs:89-136 | with two separated columns and a border, the border as written is one char wider than the rows |
| ColumnTable.AsWrittenEmptyPanics | tables/src/columntable.rs:134 | one column, no headers, no rows, no separators and no border: `width - 2` underflows and the code as written panics |
| ColumnTable.TestWidths | tables/src/columntable.rs:166-262 | the corrected widths are the lengths of the lines the tests expect, 27, 31, 31 and 35; `width` as written is two short with separators |
| ColumnTable.TestHeaderLine | tables/src/columntable.rs:176 | the test's header line is "Name  Age Occupation       " |
| ColumnTable.Table.constructor | tables/src/columntable.rs:43-53 | a new table of COLS columns has no headers, no rows, zero widths and no settings |
| ColumnTable.Table.WithHeaders | tables/src/columntable.rs:56-68 | a table with headers starts with each header's length as its column's width |
| ColumnTable.Table.WithSetting | tables/src/columntable.rs:71-78 | each setting turns on its flag and nothing else |
| ColumnTable.Table.AddRow | tables/src/columntable.rs:97-105 | the row is appended and each width becomes the larger of itself and the cell's length; always `Ok` |
| ColumnTable.Table.WriteRow | tables/src/columntable.rs:107-128 | the row inside the border, if any, with a newline |
| ColumnTable.Table.WriteRows | tables/src/columntable.rs:151-153 | every row written in turn |
| ColumnTable.Table.Display | tables/src/columntable.rs:131-160 | the corrected rendering: border, headers, header separator, rows and border, every line as wide as a row |
| RowTable.Chunks | tables/src/rowtable.rs:32-70 | `chunks(c)` gives runs of c values, the last one possibly shorter, and none for no values |
| RowTable.ChunksConcat | tables/src/rowtable.rs:32-70 | the runs joined are the values, in order |
| RowTable.ChunkValues | tables/src/rowtable.rs:32-70 | every value of a run is one of the values |
| RowTable.ChunkColumnWidthIsMax | tables/src/rowtable.rs:33-35 | a column's width is no less than any value in it, and at most any bound on them all |
| RowTable.ColumnWidths | tables/src/rowtable.rs:30-38 | one width per position of a run |
| RowTable.LargestFitIsLargest | tables/src/rowtable.rs:41-53 | the chunk size found fits (or is 0), and no larger size up to the number of values fits |
| RowTable.FitsOne | tables/src/rowtable.rs:46 | one value to a row fits when every value does |
| RowTable.LargestFitPositive | tables/src/rowtable.rs:41-53 | when every value fits, the chunk size is at least 1 |
| RowTable.ChunkLines | tables/src/rowtable.rs:70-78 | one line per run, its values padded and separated by one space |
| RowTable.RenderedAsWritten | tables/src/rowtable.rs:68-80 | as written, `Display` panics exactly when the chunk size is 0, and otherwise writes the corrected lines |
| RowTable.AsWrittenEmptyPanics | tables/src/rowtable.rs:69-70 | an empty table panics when displayed, where nothing is meant to be written |
| RowTable.LinesFit | tables/src/rowtable.rs:41-80 | no line of a table is wider than its maximum width |
| RowTable.RowTable.constructor | tables/src/rowtable.rs:21-27 | a new table has no values, the given maximum width and chunk size 0 |
| RowTable.RowTable.MaxColumnWidthsWithChunkSize | tables/src/rowtable.rs:30-38 | the loop computes each position's widest value over the runs |
| RowTable.RowTable.FindNewChunkSize | tables/src/rowtable.rs:41-53 | the loop finds the largest chunk size that fits |
| RowTable.RowTable.AddValue | tables/src/rowtable.rs:56-64 | a value wider than the maximum is `ValueTooWide(max, len)` and changes nothing; otherwise it is appended and the chunk size is recomputed, at least 1 |
| RowTable.RowTable.Display | tables/src/rowtable.rs:67-81 | the corrected rendering: one line per run, nothing for an empty table |
| RowTable.ChunkLinesStep | tables/src/rowtable.rs:70-78 | one more run appends its line |
| RowTable.WriteChunks | tables/src/rowtable.rs:70-78 | the loop writes every run's line |
| RowTableTests.TestOneRow | tables/src/rowtable.rs:87-92 | "hello" and "world" in 80 columns make one line "hello world" |
| RowTableTests.TestTwoRows | tables/src/rowtable.rs:95-102 | four values in 11 columns make two rows, "hello world" and "foo   bar  " |
| RowTableTests.TestValueIncludesPadding | tables/src/rowtable.rs:105-110 | the separating space counts: two five-char values in 10 columns make two lines |
| SplitOn.Position | common/src/iter.rs:61-71 | the first separator's index, or the end, with no separator before it |
| SplitOn.NextProgress | common/src/iter.rs:59-78 | `next` yields nothing exactly when no items are left, and otherwise consumes at least one |
| SplitOn.NextAtSeparator | common/src/iter.rs:61-68 | a group ends at the first separator, which is kept only in inclusive mode |
| SplitOn.NextAtEnd | common/src/iter.rs:73-77 | at the end, the items left are the last group, or none when none are left |
| SplitOn.ExclusiveIsSplit | common/src/iter.rs:59-78 | in exclusive mode the groups are the split on the separator, without a final empty piece |
| SplitOn.ExclusiveFree | common/src/iter.rs:62-67 | in exclusive mode no group holds the separator |
| SplitOn.InclusiveConcat | common/src/iter.rs:59-78 | in inclusive mode the groups joined are the items |
| SplitOn.InclusiveShape | common/src/iter.rs:59-78 | in inclusive mode every group but the last ends in the separator, and none has one elsewhere |
| SplitOn.SplitOnIter.constructor | common/src/iter.rs:44-50 | the iterator holds the items, the separator and the mode |
| SplitOn.SplitOnIter.Next | common/src/iter.rs:59-78 | one call yields the next group and leaves the items after it |
| SplitOn.SplitOnWith | common/src/iter.rs:26-28 | `split_on` wraps the items with the separator and mode |
| SplitOn.SplitOnInclusive | common/src/iter.rs:12-14 | in inclusive mode |
| SplitOn.SplitOnExclusive | common/src/iter.rs:17-19 | in exclusive mode |
| Elf.ReadValue | elf/src/lib/structs.rs:24-31 | a 32-bit file's value is 4 bytes below 2^32, a 64-bit file's is 8 bytes; too few bytes fail |
| Elf.ReadWrittenValue | elf/src/lib/structs.rs:24-31 | a value written in the class's width and byte order reads back, leaving the bytes after it |
| Elf.DecodeElfType | elf/src/lib/structs.rs:69-89 | accepted exactly for 0-4 and 0xFE00-0xFFFF; anything else is `InvalidData` |
| Elf.ElfTypeRoundTrip | elf/src/lib/structs.rs:57-89 | every valid type decodes from its value, and every accepted value decodes to a valid type stored as that value |
| Elf.ReadElfType | elf/src/lib/structs.rs:74 | a type read takes two bytes |
| Elf.DecodeProgramHeaderType | elf/src/lib/structs.rs:231-250 | accepted exactly for 0-7 and 0x60000000-0x7FFFFFFF; anything else is `InvalidData` |
| Elf.ProgramHeaderTypeRoundTrip | elf/src/lib/structs.rs:217-250 | decoding and the stored value are inverse on the valid types |
| Elf.DecodeSectionHeaderType | elf/src/lib/structs.rs:366-393 | accepted exactly for 0-9, 0xB, 0xE-0x13 and from 0x60000000 on; 0xA, 0xC, 0xD and 0x14-0x5FFFFFFF are `InvalidData` |
| Elf.SectionHeaderTypeRoundTrip | elf/src/lib/structs.rs:344-393 | decoding and the stored value are inverse on the valid types |
| Elf.DecodeProgramHeaderFlags | elf/src/lib/structs.rs:255-267 | flags above 7 are `InvalidData`; the rest are kept as read |
| Elf.FlagsArePermissions | elf/src/lib/structs.rs:279-291 | accepted flags are 4 when readable, plus 2 when writable, plus 1 when executable |
| Elf.DecodeSymbolType | elf/src/lib/structs.rs:573-593 | accepted exactly for 0-6 and 10-15 |
| Elf.DecodeSymbolBinding | elf/src/lib/structs.rs:604-620 | accepted exactly for 0-2 and 10-15 |
| Elf.Nibbles | elf/src/lib/structs.rs:670-671 | `info >> 4` is the info byte divided by 16, `info & 0xF` its remainder |
| Elf.SymbolInfoRoundTrip | elf/src/lib/structs.rs:670-671 | the info byte is accepted exactly when both nibbles decode, and binding times 16 plus type rebuilds it |
| Elf.Field | elf/src/lib/structs.rs:179-191 | an unsigned field read in place fits its width |
| Elf.SizesAt | elf/src/lib/structs.rs:185-191 | the flags and the six sizes and counts: seven values |
| Elf.ReadElfHeaderChecked | elf/src/lib/structs.rs:139-215 | the header is read exactly when the layout holds one; an unknown class, ABI or architecture byte is `InvalidData`; wherever the code as written returns, it returns this |
| Elf.UnknownClassPanics | elf/src/lib/structs.rs:149 | the class byte 3 after the magic makes the code as written panic |
| Elf.UnknownAbiPanics | elf/src/lib/structs.rs:169 | an ABI byte of 19 or more after a valid identification makes the code as written panic |
| Elf.HeaderChecks | elf/src/lib/structs.rs:141-167 | a header has the magic, a class and byte order of 1 or 2 and version 1, and consumes the 58 or 70 header bytes; a wrong magic, byte order or version is `InvalidData` |
| Elf.ReadElfHeader | elf/src/lib/structs.rs:139-215 | the reads in order, each failure returned at once, give exactly the header's layout, panics included |
| Elf.ReadHeaderTail | elf/src/lib/structs.rs:175-214 | from the type on, the reads give the layout from offset 16; fewer than 18 bytes are `UnexpectedEof` |
| Elf.ReadFields | elf/src/lib/structs.rs:179-193 | the second version, the three offsets and the sizes, `UnexpectedEof` exactly when the bytes run out |
| Elf.ReadOffsets | elf/src/lib/structs.rs:181-183 | three class-width values one after the other |
| Elf.ReadSizes | elf/src/lib/structs.rs:185-193 | the flags, six u16 values and 6 skipped bytes: 22 bytes |
| ElfStrings.Chars | elf/src/lib/structs.rs:529 | `*byte as char` maps each byte to the char of the same value |
| ElfStrings.SpanSnoc | elf/src/lib/structs.rs:522-531 | one more piece takes its length and a NUL |
| ElfStrings.Entries | elf/src/lib/structs.rs:524 | one entry per piece |
| ElfStrings.EntriesSnoc | elf/src/lib/structs.rs:524-527 | one more piece is pushed at the offset after those before it |
| ElfStrings.ReadStringTable | elf/src/lib/structs.rs:517-541 | the loop gives exactly the pieces between NULs, each at its starting offset, or `InvalidData` |
| ElfStrings.ParseStringTableOk | elf/src/lib/structs.rs:533-538 | a section reads exactly when it is empty or ends with a NUL |
| ElfStrings.JoinLayout | elf/src/lib/structs.rs:522-531 | each piece sits in the section at the span of those before it, followed by a NUL unless it is the last |
| ElfStrings.EntryLayout | elf/src/lib/structs.rs:517-541 | each entry's string is the bytes at its offset, none of them NUL, followed by a NUL |
| ElfStrings.SpanOfTable | elf/src/lib/structs.rs:517-541 | the entries take up the whole section |
| ElfStrings.Covered | elf/src/lib/structs.rs:548 | every offset inside the pieces falls in one of them or on its NUL |
| ElfStrings.FindFrom | elf/src/lib/structs.rs:545-548 | `find` returns the first entry whose range holds the offset, or none when none does |
| ElfStrings.SplitAtBytes | elf/src/lib/structs.rs:552-555 | `split_at(0)` leaves the string whole |
| ElfStrings.SplitAtBytesAscii | elf/src/lib/structs.rs:555 | on ASCII text, splitting at byte n is dropping n chars |
| ElfStrings.GetStringAtOffsetAsWritten | elf/src/lib/structs.rs:544-557 | as written, an offset in no entry's UTF-8 range gives `None` |
| ElfStrings.GetStringAtOffset | elf/src/lib/structs.rs:544-557 | measured in section bytes: `None` exactly when no entry's range holds the offset |
| ElfStrings.LookupFinds | elf/src/lib/structs.rs:544-557 | a lookup in a section read from bytes finds a string exactly for the offsets inside it |
| ElfStrings.LookupRest | elf/src/lib/structs.rs:544-557 | what it finds is the bytes from the offset up to the next NUL |
| ElfStrings.GetStringAtOffsetMeaning | elf/src/lib/structs.rs:517-557 | both together: `None` exactly past the end, otherwise the string from the offset to the next NUL |
| ElfStrings.FindFromAscii | elf/src/lib/structs.rs:548 | when every string is ASCII, ranges in UTF-8 bytes and in chars agree |
| ElfStrings.AsWrittenAgreesAscii | elf/src/lib/structs.rs:544-557 | on ASCII strings the code as written returns the corrected lookup |
| ElfStringsExamples.ParseFirst | elf/src/lib/structs.rs:517-541 | "\xC3\0A\0" reads as 'Ã' at 0 and "A" at 2 |
| ElfStringsExamples.ParseSecond | elf/src/lib/structs.rs:517-541 | "\xC3A\0" reads as "ÃA" at 0 |
| ElfStringsExamples.AsWrittenMissesString | elf/src/lib/structs.rs:548-555 | in "\xC3\0A\0", offset 2 finds "" as written, where "A" starts there |
| ElfStringsExamples.AsWrittenPanicsInsideChar | elf/src/lib/structs.rs:555 | in "\xC3A\0", offset 1 is inside the UTF-8 encoding of 'Ã' and `split_at` panics, where "A" is meant |
| Ext.ReadExtSuperBlock | superblocks/src/ext.rs:92-136 | the derived reader: too short a block is `UnexpectedEof`; a read consumes 236 bytes, the UUID is bytes 104-119, the magic a u16 |
| Ext.LittleU16 | superblocks/src/ext.rs:109 | a `LittleEndianU16` is the low byte plus 256 times the high byte |
| Ext.ValidateOnBytes | superblocks/src/ext.rs:6-149 | `validate` accepts a superblock exactly when bytes 0x38 and 0x39 are 0x53 and 0xEF |
| Ext.HasAny | superblocks/src/ext.rs:198-205 | the loop answers true exactly when some feature shares a bit with the value |
| Ext.HasFeatureMask | superblocks/src/ext.rs:198-205 | some feature shares a bit with the value exactly when the value shares a bit with all of them or'ed together |
| Ext.FeatureMasks | superblocks/src/ext.rs:14-185 | the ext4 read-only features make 0x278, the ext4 incompatible ones 0x3D0, the ext3 compatible ones 0x24 |
| Ext.TypeOf | superblocks/src/ext.rs:179-194 | ext4 exactly when a read-only bit of 0x278 or an incompatible bit of 0x3D0 is set; ext3 exactly when neither is and a compatible bit of 0x24 is |
| Ext.Name | superblocks/src/ext.rs:151-157 | "ext2", "ext3" or "ext4" exactly for that type |
| Ext.PlainRevisions | superblocks/src/ext.rs:179-194 | no feature bits make ext2; a journal alone makes ext3 |
| LogControl.BuildersIndependent | loggerd/src/lib/control.rs:64-119 | each `with_*` builder sets its own field and leaves the others, so they commute; all four from `new` give exactly those values |
| LogControl.FindKey | loggerd/src/lib/control.rs:147 | `find` returns the first field with the key, or none when no field has it |
| LogControl.NewMatchesAll | loggerd/src/lib/control.rs:64-155 | the options of `new` let every log through |
| LogControl.FilterOnKey | loggerd/src/lib/control.rs:145-153 | a filter on a key the log lacks changes nothing; one whose key the log's first such field has with another value rejects the log |
| LogControl.OutsideWindow | loggerd/src/lib/control.rs:133-143 | a log before the minimum or after the maximum time never matches |
| LogControl.ParseBool | loggerd/src/lib/control.rs:87 | `parse::<bool>` accepts exactly "true" and "false" |
| LogControl.BoolString | loggerd/src/lib/control.rs:170 | a bool is written so that it parses back |
| LogControl.FirstError | loggerd/src/lib/control.rs:76-96 | no error exactly when every pair is accepted |
| LogControl.FirstErrorAppend | loggerd/src/lib/control.rs:76-96 | the first error of two runs is the first run's, if it has one |
| LogControl.Filters | loggerd/src/lib/control.rs:89-94 | the pairs pushed as filters are no more than the pairs, and none is a header |
| LogControl.FromKvs | loggerd/src/lib/control.rs:73-99 | the loop returns the first bad pair's error, or the last value of each header and every other pair as a filter, in order |
| LogControl.HeaderKvs | loggerd/src/lib/control.rs:157-172 | the follow flag is always the last pair |
| LogControl.MinPart | loggerd/src/lib/control.rs:159-161 | one pair with the formatted minimum time exactly when there is one |
| LogControl.MaxPart | loggerd/src/lib/control.rs:162-164 | one pair with the formatted maximum time exactly when there is one |
| LogControl.FilterPairs | loggerd/src/lib/control.rs:165-169 | one pair per filter, its key and value |
| LogControl.LastTimeSkip | loggerd/src/lib/control.rs:78-85 | pairs without the key leave its last time as it was |
| LogControl.FiltersAppend | loggerd/src/lib/control.rs:89-94 | the filters of two runs are the first run's then the second's |
| LogControl.FiltersOfPairs | loggerd/src/lib/control.rs:89-169 | filters written as pairs read back as the same filters |
| LogControl.NoErrorInPairs | loggerd/src/lib/control.rs:89-94 | filter pairs are never rejected |
| LogControl.HeadersDistinct | loggerd/src/lib/control.rs:16-18 | the three header keys differ |
| LogControl.HeaderNoError | loggerd/src/lib/control.rs:73-172 | when the time parser reads what the formatter writes, no pair of a header is rejected |
| LogControl.HeaderFilters | loggerd/src/lib/control.rs:89-169 | a header's filters read back as the options' filters |
| LogControl.HeaderMinTime | loggerd/src/lib/control.rs:78-161 | a header's minimum time reads back as the options' minimum |
| LogControl.HeaderMaxTime | loggerd/src/lib/control.rs:82-164 | a header's maximum time reads back as the options' maximum |
| LogControl.HeaderRoundTrip | loggerd/src/lib/control.rs:73-172 | `from_kvs` of the pairs `to_header_string` writes gives the options back, absent filters as an empty list |
| LogControl.HeaderStringSplits | loggerd/src/lib/control.rs:157-172 | when no key holds '=' or a space and no value a space, the header string splits at spaces and then at the first '=' into exactly its pairs |
| LogControl.ConstantsFree | loggerd/src/lib/control.rs:16-170 | the header keys and the written bools hold no space and no '=' |
| LogControl.PairFree | loggerd/src/lib/control.rs:157-172 | under those conditions no pair of the header holds a space, nor its key a '=' |
| LogControl.SplitOnceAt | loggerd/src/lib/control.rs:160-170 | `key=value` splits at its first '=' back into key and value when the key has no '=' |
| LogDisk.WriteInts | bytestruct/bytestruct-derive/src/lib.rs:53-94 | the derived writer of integer fields takes exactly their widths |
| LogDisk.ReadInts | bytestruct/bytestruct-derive/src/lib.rs:32-87 | the derived reader succeeds exactly when the bytes hold every field, otherwise `UnexpectedEof`; the values fit their types and the rest follows them |
| LogDisk.ReadWrittenInts | bytestruct/bytestruct-derive/src/lib.rs:26-94 | written fields read back as the same values, leaving what followed |
| LogDisk.WriteReadInts | bytestruct/bytestruct-derive/src/lib.rs:26-94 | conversely, a successful read consumed exactly the encoding of the values it returned |
| LogDisk.BlockTypeCode | loggerd/src/lib/disk.rs:17-23 | a block type is stored as 0, 1 or 2 |
| LogDisk.BlockTypeOf | loggerd/src/lib/disk.rs:17-23 | a byte decodes exactly when it is 0, 1 or 2, to the type stored as it |
| LogDisk.BlockTypeRoundTrip | loggerd/src/lib/disk.rs:17-29 | every block type decodes from its code |
| LogDisk.Validate | loggerd/src/lib/disk.rs:79-88 | `Ok` exactly for the magic "QLOGFILE" and version 1; the magic is checked first, each with its own message |
| LogDisk.DefaultHeaderValid | loggerd/src/lib/disk.rs:61-76 | the default header validates, has no compression and no blocks, and spans the two clock readings |
| LogDisk.WriteBlockHeader | loggerd/src/lib/disk.rs:91-95 | a block header is 9 bytes, the first being the type's code |
| LogDisk.ReadBlockHeader | loggerd/src/lib/disk.rs:91-95 | corrected, reading the type byte first as the derive does: a first byte of 3 or more is `InvalidData` however few bytes follow it; otherwise fewer than nine bytes are `UnexpectedEof`; a header read decodes the first byte as its type, has a size that fits a u64, and consumed exactly the header's encoding |
| LogDisk.ReadBlockHeaderAsWritten | bytestruct/bytestruct-derive/src/lib.rs:139-149 | as written, the derived reader reads `block_type` first and panics (`panic!("Invalid discriminant")`) exactly when the input is not empty and its first byte is 3 or more, before the size is read; otherwise it returns what the corrected reader returns |
| LogDisk.ReadWrittenBlockHeader | loggerd/src/lib/disk.rs:91-95 | a written block header reads back, leaving what followed |
| LogDisk.U64s | loggerd/src/lib/disk.rs:132 | n u64 values take 8n bytes |
| LogDisk.WriteEntryBlock | loggerd/src/lib/disk.rs:114-133 | an entry block is written exactly when its time fits an i64, in 33 bytes plus 8 per offset |
| LogDisk.ReadEntryBlock | loggerd/src/lib/disk.rs:114-133 | the corrected entry block reader: a first byte of 3 or more is `InvalidData`, every other failure is `UnexpectedEof`; a block read has the type its first byte names, fits the writer's field types, and the input is exactly the written block followed by what was left |
| LogDisk.ReadEntryBlockAsWritten | loggerd/src/lib/disk.rs:114-133 | the derived entry block reader panics exactly when the input is not empty and its first byte is 3 or more, and otherwise reads what the corrected reader reads |
| LogDisk.ReadWrittenEntryBlock | loggerd/src/lib/disk.rs:114-133 | a written entry block reads back, leaving what followed |
| LogDisk.NewEntryBlockAsWritten | loggerd/src/lib/disk.rs:136-152 | an entry block with the time and offsets, no next block, and the size that `size` computes |
| LogDisk.NewEntryBlock | loggerd/src/lib/disk.rs:136-152 | the same block with the size of what is written |
| LogDisk.EntrySizeShort | loggerd/src/lib/disk.rs:149 | as written, the block written is 8 bytes longer than the size it records |
| LogDisk.EntrySizeExact | loggerd/src/lib/disk.rs:149 | corrected, the recorded size is the length of the block written |
| LogDisk.StringSize | loggerd/src/lib/disk.rs:162-165 | a length-prefixed string takes its bytes and a 2-byte prefix |
| LogDisk.NewFieldBlockAsWritten | loggerd/src/lib/disk.rs:170-184 | as written, the key and value as UTF-8, the size of both with the padding, which rounds key and value to 64 bytes without the block header |
| LogDisk.NewFieldBlock | loggerd/src/lib/disk.rs:170-184 | corrected, the padding makes the whole block, header included, end on a 64-byte boundary |
| LogDisk.WriteFieldBlock | loggerd/src/lib/disk.rs:156-168 | a field block takes its header, both prefixed strings and its padding |
| LogDisk.ReadFieldBlock | loggerd/src/lib/disk.rs:156-168 | the field block reader with the prefix byte order corrected: a first byte of 3 or more is `InvalidData`; a block read has the type its first byte names, a size that fits a u64, UTF-8 key and value, and the padding that aligns the header, key and value before it |
| LogDisk.ReadFieldBlockLayout | loggerd/src/lib/disk.rs:156-168 | a field block read consumed the encoding of its header, key and value, then as many bytes as its padding, and left exactly what followed those |
| LogDisk.ReadFieldPadding | bytestruct/bytestruct-derive/src/lib.rs:32-38 | the padding the reader skips aligns everything before it, header included |
| LogDisk.ReadFieldBlockUpToPadding | loggerd/src/lib/disk.rs:156-168 | with the prefix byte order corrected, reading a written field block gets through its header, key and value to the padding |
| LogDisk.ReadWrittenFieldBlock | loggerd/src/lib/disk.rs:170-184 | with the padding and the prefix byte order both corrected, a new field block written reads back as itself, and its size is what follows the header |
| LogDisk.PaddingsDiffer | loggerd/src/lib/disk.rs:174 | padding computed without the 9-byte header never equals padding computed with it |
| LogDisk.PaddingLeftover | bytestruct/bytestruct-derive/src/lib.rs:32-38 | skipping padding leaves the bytes after it, shifted by how much more or less is skipped than was written |
| LogDisk.AsWrittenFieldBlockMisread | loggerd/src/lib/disk.rs:174 | with the prefix byte order corrected but the padding as written, a new field block is read up to its padding and then the wrong amount of padding is skipped |
| LogDisk.ReadFieldBlockAsWritten | loggerd/src/lib/disk.rs:156-168 | the derived field block reader panics exactly when the input is not empty and its first byte is 3 or more, as its block header reader does |
| LogDisk.AsWrittenFieldKeyMisread | loggerd/src/lib/disk.rs:156-168 | fully as written, a written block does not panic; a key of fewer than 256 bytes is read back 256 times as long, and the read fails with `UnexpectedEof` when fewer bytes follow |
| LogDisk.AsWrittenEmptyFieldMisread | loggerd/src/lib/disk.rs:174 | fully as written, an empty key and value read back, but the writer padded 60 bytes and the reader skips 51, leaving 9 zero bytes before what followed |
| LogDisk.UnknownBlockTypePanics | loggerd/src/lib/disk.rs:17-23 | a first byte of 3 to 255, whatever follows it, even nothing, makes the derived header, entry and field block readers panic, where the corrected ones return `InvalidData` |
| LogDisk.TypeThreePanics | loggerd/src/lib/disk.rs:17-23 | the single byte [3] and the header [3, 0, 0, 0, 0, 0, 0, 0, 0] both panic as written and are `InvalidData` corrected |
| LogCtl.SplitKv | loggerd/src/bin/logctl/main.rs:119 | `split_once('=')` gives nothing exactly when there is no '=', and otherwise a key without '=' and a value that spell the argument |
| LogCtl.SplitKvJoined | loggerd/src/bin/logctl/main.rs:119 | `key=value` splits back into the pair when the key has no '=' |
| LogCtl.PrependNothing | loggerd/src/bin/logctl/main.rs:117-130 | no pairs in front change nothing |
| LogCtl.ValidateKvs | loggerd/src/bin/logctl/main.rs:116-131 | the loop returns every argument split, in order, or the error naming the first without '=' |
| LogCtl.ValidKvsOk | loggerd/src/bin/logctl/main.rs:116-131 | accepted exactly when every argument has a '=', and then one pair per argument, each spelling it |
| LogCtl.ValidKvsErr | loggerd/src/bin/logctl/main.rs:121 | when argument k is the first without '=', the error is "invalid kv: " and that argument |
| LogCtl.SplitsAtFirst | loggerd/src/bin/logctl/main.rs:119 | "a=b=c" is the key "a" with the value "b=c" |
| LogCtl.TryFrom | loggerd/src/bin/logctl/main.rs:170-179 | "text" and "json" are the two formats, and anything else is "unknown log format: " and the name |
| LogCtl.TryFromName | loggerd/src/bin/logctl/main.rs:164-179 | every format is read back from its name |
| LogCtl.FormatLog | loggerd/src/bin/logctl/main.rs:181-201 | JSON is the serialiser's output; text is the timestamp, the pairs in visiting order, a space and the message |
| LogCtl.KvStringStep | loggerd/src/bin/logctl/main.rs:187-193 | one more key visited adds its pair |
| LogCtl.ListedAppend | loggerd/src/bin/logctl/main.rs:187 | keys of the log in two runs are keys of the log together |
| LogCtl.KvStringAppend | loggerd/src/bin/logctl/main.rs:187-193 | the pairs of two runs of keys are the first run's then the second's |
| LogCtl.Shown | loggerd/src/bin/logctl/main.rs:188-190 | the printed keys are visited keys not starting with "__" |
| LogCtl.ShownListed | loggerd/src/bin/logctl/main.rs:188-190 | printed keys are keys of the log |
| LogCtl.KvStringShown | loggerd/src/bin/logctl/main.rs:187-193 | the pairs are exactly ` key=value` for each key not starting with "__", in visiting order |
| LogCtl.InternalHidden | loggerd/src/bin/logctl/main.rs:188-198 | changing a "__" key other than the timestamp and message leaves the text line unchanged |
| LogCtl.KvStringInternal | loggerd/src/bin/logctl/main.rs:188-190 | changing a "__" key leaves the pairs unchanged |
| LogCtl.EmptyLog | loggerd/src/bin/logctl/main.rs:195-198 | an empty log is "<no timestamp> <no message>" |
| LogCtl.ShownHas | loggerd/src/bin/logctl/main.rs:185-192 | every visited key not starting with "__" is printed |
| LogCtl.ShownDistinct | loggerd/src/bin/logctl/main.rs:185-192 | a visiting order without repeats prints each key at most once |
| LogCtl.ShownOnly | loggerd/src/bin/logctl/main.rs:185-192 | when one key alone does not start with "__", every visiting order prints that key alone |
| LogCtl.SinglePairLine | loggerd/src/bin/logctl/main.rs:185-198 | such a log is its timestamp, ` key=value`, a space and its message, in every visiting order |
| LogCtl.OnePair | loggerd/src/bin/logctl/main.rs:185-198 | a log with a timestamp, message and one pair prints "t a=1 m", whatever order its keys are visited in |

## Left out

- Process, mount and exec system calls (`fork`, `execve`, `setuid`). A spawn's outcome is a parameter of the service manager, one per start attempt.
- The service manager's async locks, wait futures and reaper. The manager is single-threaded, and nested calls run one after another. As written, `mark_service_running` and `set_process_status` call `start` while still holding the services lock, which would block; the model does not capture that.
- Sockets, the loggerd daemons and `logctl`'s stream loops (`start_write_stream`, `start_read_stream`, main). They are I/O.
- `ReadStreamOpts::format_log` (loggerd/src/lib/control.rs:121-130). It only formats chrono timestamps for output.
- File and directory I/O:
  - cpio `from_path`, `from_file` and `mode()`, which read filesystem metadata;
  - modprobe `load_module` and `load_file`, which use xz and `init_module`;
  - the auth file readers and writers (`User::get`, `next_uid` and the like), except the free-id search they use;
  - the superblock probe;
  - loggerd's on-disk linked list.
- The SHA-256/512 digest, chrono clocks and serde JSON. They are function parameters, and timestamps are integers.
- `HashMap` iteration order. It is a parameter: some order visiting every key once.
- The derived reader and writer of `HeaderBlock` and `CheckpointBlock`. Only `HeaderBlock::default` and `validate` are modelled.
- ELF program headers, section headers and their flags, and symbol-table reads. Their type and flag decoders and the symbol info split are modelled; the stream reads that chain them are not.
- Display impls that only produce log text, such as `Service`'s, and `ProgramHeaderFlags`' Debug.
- Service file loading in qinit/src/main.rs. It depends on functions that are not part of this model.
- `Config::resolve_to_service_set` (qinit/src/config/mod.rs:357-398), the resolver for one service and its arguments. Only the sphere resolver, which builds the same graph from a sphere's entries, is modelled.
- The netlink rtnetlink enum tables, btrfs, udev and the I/O-bound parts of the shell.
- `StartMode` is not part of this model. `Services.NewService` takes it as a parameter.
- Netlink.NewString: requires a non-empty buffer. The source's `buffer.len() - 1` underflows on an empty buffer, and the model does not cover that panic.
- Graph.Graph.Flatten: states that the output respects every edge, holds exactly the vertices (once each when no edge is repeated), and fails exactly when a cycle remains. It does not fix which of the valid orders the stack produces, so the diamond test's exact output [d, c, b, a] is not stated.
- Integer overflow follows one build per member. `Sha.DsCountAsWritten` and `Cpio.NameSize` wrap, as a release build does; a debug build panics there. `ColumnTable.RenderedAsWritten` (with `ColumnTable.AsWrittenEmptyPanics`) and `Netlink.ShortAttributePanics` panic, as a debug build's overflow check does; a release build wraps there. The model does not follow the other build.
- LogDisk.AsWrittenFieldBlockMisread: stated over the field block reader with the prefix byte order corrected, so that it shows the padding mismatch alone. The reader with both mismatches is `LogDisk.ReadFieldBlockAsWritten`, and `LogDisk.AsWrittenFieldKeyMisread` and `LogDisk.AsWrittenEmptyFieldMisread` state what it does.
- Cpio.TrimFilePrefix: the remaining name is rebuilt from its components joined by "/", so a "." or an empty piece inside the rest is dropped. `strip_prefix` keeps the rest of the original text; the two agree on names without such pieces.
- Auth.ScanAgrees: requires ids that are sorted and never repeat. The callers' ids may repeat; that case is stated by `Auth.AsWrittenUsedOnlyOnRepeat` and shown by `Auth.AsWrittenDuplicateReturnsUsed`, where the loop as written returns a used id.
- Auth.AsWrittenReturnsFirstFree: the same requires as `Auth.ScanAgrees`, for the same reason; with repeated ids the loop as written does not return the first free id.
- ElfStrings.GetStringAtOffset: works in section bytes. The source turns each byte into the char of the same value, so bytes of 0x80 and above are two UTF-8 bytes in its strings. The as-written version keeps that width, and the two agree on ASCII.

## Findings

| source | as written | input that shows it | evidently intended | confidence | as-written member | corrected member |
|---|---|---|---|---|---|---|
| qinit/src/config/mod.rs:436-447 | `add_edge(dep, service)` makes `flatten` list a service before the services it needs | a sphere whose service `a` needs `b`: `a` comes out first | what a service needs starts before it, as the comment at line 438 says | not executed | QinitConfig.AsWrittenServiceStartsFirst | QinitConfig.SphereNeedsStartFirst |
| qinit/src/config/mod.rs:450-457 | a wanted service is looked up by the wanting service's name | a sphere whose service `a` wants `b`: `a` is pushed again instead of `b` | the wanted service `dep.name` is started | not executed | QinitConfig.WantsAsWrittenNamesWanter | QinitConfig.WantsEntryNamesWanted |
| modprobe/src/lib/lib.rs:83-94 | only the root module is seeded; its dependencies are never scanned | a module with one dependency: `DependencyError` | the root and everything it depends on are loaded, dependencies first | not executed | Modprobe.AsWrittenNotClosed | Modprobe.FindModulesToLoad |
| qsh/src/parser/consumers.rs:22-35 | the whitespace length counts UTF-8 bytes, but positions count chars | "a\u{3000}b" from 1: length 3 where one char was consumed | the number of chars consumed | not executed | QshConsumers.WhitespaceOverrun | QshConsumers.Whitespace |
| qsh/src/buffer.rs:38-47 | the cursor counts chars, but `String::insert` takes a byte index | typing the byte 0xE9 and then 'a': the cursor is 1 and the buffer 2 bytes long, so 'a' is inserted at byte 1, inside 'é', and `insert` panics | the char is inserted where the cursor is, here at the end | not executed | QshBuffer.PushCharNonAsciiPanics | QshBuffer.Buffer.PushChar |
| bytestruct/src/lib.rs:284-287 | the length prefix is always read big-endian but written (lines 313-318) in the given byte order | a one-byte string with a two-byte prefix, written little-endian: the prefix reads back as 256 and the read runs out of bytes | the prefix is read in the byte order it was written in | not executed | ByteStruct.LittlePrefixMisread | ByteStruct.ReadWrittenLengthPrefixed |
| bytestruct/src/lib.rs:375-379 | `Vec::size` sums the items and leaves out the 8-byte count | an empty vector: size 0, encoding 8 bytes | the size of the encoding | not executed | ByteStruct.VecSizeAsWrittenShort | ByteStruct.VecBytesSize |
| netlink/src/rtnetlink/parsing.rs:28-40 | no check that the length field is at least 4 before `length - 4` | a length field of 2: underflow | a short length is `InvalidInput`, as in netlink/src/lib.rs | not executed | Netlink.ShortAttributePanics | Netlink.ReadWrittenAttribute |
| auth/src/sha.rs:164 | `16 + A[0]` is computed in `u8` | a first digest byte of 240 or more: overflow | the count is computed in a wider integer | not executed | Sha.DsCountOverflow | Sha.CryptSha2 |
| auth/src/lib.rs:507-515 | `values[i]` is indexed for every candidate in the range | no ids used: index 0 of an empty list panics | the first value of the range not in the list | not executed | Auth.AsWrittenPanicsWhenUnused | Auth.FindNonOverlappingValue |
| auth/src/lib.rs:507-515 | `values[i]` is compared with the i-th id of the range, which assumes no id repeats; `sort()` in `next_uid` and `next_gid` keeps repeats | uids [1000, 1000, 1001] (two users share uid 1000): 1001 is returned and is in use | the first id of the range no user or group has, 1002 here | not executed | Auth.AsWrittenDuplicateReturnsUsed | Auth.FindNonOverlappingValue |
| escapes/src/lib.rs:107-109 | no parameters always become `[1]` | "[K": an erase in line of 1 | each sequence's own default; 0 for an erase in line, as escapes/escapes-derive/src/lib.rs:60-64 declares | not executed | Escapes.EraseInLineDefault | Escapes.ReadDisplay |
| tables/src/columntable.rs:80-95 | `width` counts 2 chars for each column separator, which takes 3 (" \| "); the border (line 134) and the header separator (lines 144-146) are drawn from it | three separated columns, no border, a header separator: the separator is 2 chars shorter than the header; two separated columns with a border: the border is 1 char wider than the rows | every line is as wide as a row | not executed | ColumnTable.AsWrittenSeparatorShort | ColumnTable.LinesSameLength |
| tables/src/columntable.rs:82 | `width - 2` underflows for an empty single column | one column, no headers, no rows, no separators, no border: `width` is 0 | an empty table writes nothing | not executed | ColumnTable.AsWrittenEmptyPanics | ColumnTable.Table.Display |
| tables/src/rowtable.rs:69-70 | `chunks(0)` panics on an empty table | a table with no values, displayed | nothing is written | not executed | RowTable.AsWrittenEmptyPanics | RowTable.RowTable.Display |
| elf/src/lib/structs.rs:149-176 | the derived enum readers panic on an unknown discriminant | the class byte 3 after the magic | `InvalidData`, like the other checks of the header | not executed | Elf.UnknownClassPanics | Elf.ReadElfHeaderChecked |
| elf/src/lib/structs.rs:544-557 | spans and split points are in UTF-8 bytes of strings built from Latin-1 chars | "\xC3\0A\0" at 2 gives "" instead of "A"; "\xC3A\0" at 1 panics | the offset counts section bytes | not executed | ElfStringsExamples.AsWrittenMissesString | ElfStrings.GetStringAtOffsetMeaning |
| loggerd/src/lib/disk.rs:17-23 | the derived `BlockType` reader panics on a type byte other than 0, 1 and 2 (`panic!("Invalid discriminant")` in the derive) | the single byte [3], or the block header [3, 0, 0, 0, 0, 0, 0, 0, 0] | `InvalidData`, as for the other malformed data a log file can hold | not executed | LogDisk.TypeThreePanics | LogDisk.ReadBlockHeader |
| loggerd/src/lib/disk.rs:149 | the block size comes from `size()`, which leaves out the vector's count | any entry block: the written block is 8 bytes longer than its size | the size of the block written | not executed | LogDisk.EntrySizeShort | LogDisk.EntrySizeExact |
| loggerd/src/lib/disk.rs:174 | the padding aligns key and value, but the derived reader aligns everything before it, including the 9-byte block header | empty key and value: the writer pads 60, the reader skips 51 | the padding the reader expects | not executed | LogDisk.AsWrittenEmptyFieldMisread | LogDisk.ReadWrittenFieldBlock |
