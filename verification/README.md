# libencloud: a verified model

libencloud puts a machine on a cloud network: it sets the machine up over a message
protocol, writes an OpenVPN configuration, keeps an OpenVPN process alive, and keeps the
routing table in step with the remote endpoints. This project models the parts of it that
have the most state and the most branching, and proves what they promise.

- `JsonText`, `JsonSerializer`, `JsonParser`, `JsonSyntax`, `JsonLenient`, `JsonLocal`,
  `JsonWritten`, `JsonConversion`, `JsonRoundTrip`: the JSON codec, on UTF-16 text. Every text
  that sections 2 to 7 of RFC 8259 allow is parsed to the tree it means, but for numbers with
  an exponent and no point and integers beyond 64 bits; exactly which other texts are
  accepted, and as what, is said by a second grammar; what was parsed does not depend on what
  follows, unless it ends in a number; and the round trip is characterised for every tree,
  through `serializeStr` and through the wrapper `json::serialize`: it returns the same tree
  exactly when no string or key holds a zero character or a lone surrogate (a non-ASCII
  character for the wrapper of Qt 4) and no double is printed with an exponent and no point.
- `VpnSession`, `VpnRuns`, `VpnProgress`, `VpnObjects`: `Cloud`, `VpnClient` and `VpnManager` as
  one state machine over the slots that Qt calls, with an invariant of every reachable state,
  theorems about whole runs and about what each event gets done; then the three objects, each
  slot proved to be one step of that machine.
- `VpnConfig`, `VpnConfigRoundTrip`, `VpnConfigLines`: the OpenVPN configuration writer and
  parser, what each line does in any layout, and the valid hosts.
- `Routes`, `RoutesProperties`, `RoutesGateways`: route reconciliation, with a routing table that
  obeys the commands it issues, and the gateways that its routes go through.
- `Nuts`, `FixRoutes`: IPv4 and CIDR arithmetic over binary numerals, and the pass that
  re-adds split networks.
- `Retry`, `Setup`: the backoff and the two setup state machines that use it.
- `SimpleCrypt`, `SimpleCryptFrames`: the chained XOR in place, its frame and its key bytes, and
  which frames open.
- `Http`, `HttpHeads`: reassembly of a request that arrives in chunks, and the length that the
  text of its head declares.
- `Strings`, `Common`: the string operations these share.

Imperative parts of the program are methods and classes; each is proved equal to a function
of its inputs or its old state (`View()` gives an object's fields as a value), and the
properties are lemmas about those functions.

What the model takes as parameters: the results of library calls (double formatting and
reading, map order, compression, checksum and hash, address checks), random bytes, rows matched
in a routing table listing, the reply of the HTTP handler, and the order of events.

Strings of the JSON codec are sequences of 16-bit units, because lone surrogates matter there;
the other text formats use `string`.

## What does not hold

Some properties that one would expect are false of the code. Each has a lemma that says
exactly when it does hold or, where one input tells it best, a lemma for that input, or both.

- A double printed without a point comes back as a string (`RoundTrip`, `DoubleReads`); 1e22 is
  one (`LargeDoubleIsLost`). So does any number of a JSON text with an exponent and no point, or
  an integer beyond 64 bits (`GrammarIsRead`, `LexemeKept`).
- Through `json::serialize` of Qt 4 no tree with a non-ASCII string or key comes back
  (`RoundTrip`, `ImageIff`).
- A string with a zero character serializes to a text that does not parse, and lone surrogates
  are replaced (`RoundTrip`, `NulFails`).
- The k-th start of a retry waits min(max, base^k) seconds only while powers and products fit an
  int (`FreshSchedule`, `LargeBaseOverflows`), and after `Retry::setBackoff` between two starts
  only if the counter had not stood still or stands where the new cap is reached
  (`SetBackoffSchedule`, `RaisedCapLags`, `RaisedBaseOverflows`).
- A critical error that reaches the agent while a retry is already pending does not stop that
  retry (`CriticalSilences`, `LateCriticalErrorStillRetries`).
- A text need not be JSON to be accepted: commas may be missing or repeated, an unknown escape
  is dropped, a name may open with any token, and what follows a value is not looked at
  (`ParsesIff`, `RejectedIff`).
- A configuration path with a quote or a line break is not restored (`RestoredIffClean`).
- Two netdefs that share an address lose the route of the connected one (`ConnectedInTable`,
  `SharedAddressIsLost`).
- A routing table read that fails ends all later reads (`ReaderIff`, `FailedReadIsFinal`,
  `SyncAfterFailure`), and a stop then removes nothing (`StopPurges`). A stop takes the address
  of a listed row as printed, so a shortened one is not filled up as it is by a sync.
- With nothing connected a sync forgets the routes it added instead of deleting them
  (`ReconcileIssues`).
- A printed supernet need not be an aligned block (`SuperAlignedIff`, `UnalignedSupernet`).
- An HTTP message is handed over once and whole only if its first chunk decodes and the length
  that chunk makes expected ends in the last chunk (`ReassemblesIff`); a head split over chunks
  can lose it (`SplitHeadsLose`), and a chunk that goes on into the next request is handed over
  with it (`SpillGlues`).
- The requests of a connection are handed over each once and in order only if their chunks fall
  into groups, one for each request, and every one but the last is answered (`StreamIff`,
  `ConnectionIff`, `UnansweredMessageGlues`).
- The configuration parser runs past its lines when the last one opens a block (`PastEndIff`).
- An HTTP body with a line break or a zero byte is not the content of its request
  (`ContentIsBody`).

## Model

| member | source | states |
|---|---|---|
| JsonSerializer.SanitizeEscapesOnce | src/common/json/qtjson.cpp:179-188 | the seven replacement passes, each over the output of the one before, escape every character exactly once |
| JsonSerializer.JoinSeparates | src/common/json/qtjson.cpp:190-199 | joining puts the separator between any two neighbours when no element is empty |
| JsonSerializer.JoinLoop | src/common/json/qtjson.cpp:190-199 | the joining loop computes `Join` |
| JsonSerializer.SerializeValue | src/common/json/qtjson.cpp:93-150 | the serializer returns the text of a tree of nulls, booleans, integers, doubles, strings, lists and maps, or fails when any part of it has none |
| JsonSerializer.SerializeItems | src/common/json/qtjson.cpp:99-112 | the list loop gives the texts of all items in order, or fails at the first that fails |
| JsonSerializer.SerializeEntries | src/common/json/qtjson.cpp:38-54 | the map loop gives one `key : value` text for each key in the map's order, or fails |
| JsonParser.EatWhitespace | src/common/json/qtjson.cpp:448-454 | the loop stops at the first index that is no blank, or at the end |
| JsonParser.Reader.NextToken | src/common/json/qtjson.cpp:467-521 | the index stays in the text, moves past the blanks and, when a token is found, strictly beyond |
| JsonParser.Reader.ParseValue | src/common/json/qtjson.cpp:204-232 | a parsed value advances the index strictly and leaves it inside the text, on every input |
| JsonParser.Reader.ParseMembers | src/common/json/qtjson.cpp:237-290 | the object loop ends on every text, commas skipped, with the index advanced and inside the text |
| JsonParser.Reader.ParseItems | src/common/json/qtjson.cpp:295-322 | the same for the array loop |
| JsonParser.ReadString | src/common/json/qtjson.cpp:327-394 | the string loop returns the unescaped text and the index after it, or fails, always inside the text |
| JsonParser.LastIndexOfNumber | src/common/json/qtjson.cpp:433-443 | the loop finds the last index of the number lexeme |
| JsonParser.ReadNumberAt | src/common/json/qtjson.cpp:399-428 | the lexeme is read as the first of the number types that holds it, and the index is after it |
| JsonParser.ReadValue | src/common/json/qtjson.cpp:204-232 | the recursive method ends on every input with the value, index and success that `ParseValue` gives |
| JsonParser.ReadObject | src/common/json/qtjson.cpp:237-290 | the same for objects; a repeated key keeps its last value |
| JsonParser.ReadArray | src/common/json/qtjson.cpp:295-322 | the same for arrays |
| JsonParser.Parse | src/common/json/qtjson.cpp:68-86 | a null string is an empty value, an empty one an error, any other what its first value is |
| JsonText.DecimalIntReads | src/common/json/qtjson.cpp:399-428 | a printed integer reads back as itself exactly when it is in the range of the integer type asked for |
| JsonText.HexValueIs | src/common/json/qtjson.cpp:371-383 | four hexadecimal digits are the number they write in base 16 |
| JsonSyntax.StringReads | src/common/json/qtjson.cpp:327-394 | a string in any mix of plain characters, short escapes and code escapes is read as the characters it names |
| JsonSyntax.NodeReads | src/common/json/qtjson.cpp:204-428 | the text of any tree, in any layout and anywhere in a text, is read as that tree with the index just after it; only a number must be told apart from what follows |
| JsonSyntax.NumberKeptIff | src/common/json/qtjson.cpp:399-428 | a number is read as it is meant if and only if it has a point or is an integer within 64 bits; any other comes as a string |
| JsonSyntax.LexemeKept | src/common/json/qtjson.cpp:399-428 | of the numbers of the grammar these are the ones with a fraction, and those with neither fraction nor exponent that fit 64 bits |
| JsonSyntax.KeptIff | src/common/json/qtjson.cpp:204-428 | a tree is read as it is meant if and only if this holds of every number whose member is not overridden by a later one |
| JsonSyntax.GrammarIsRead | src/common/json/qtjson.cpp:68-428 | every text of the grammar, with any blanks around it, is accepted and read as above |
| JsonLenient.LayoutRead | src/common/json/qtjson.cpp:204-521 | a layout of the second grammar is read as its value wherever it stands: commas and blanks anywhere between items, an unknown escape naming nothing, any four characters as a code, any token opening a name |
| JsonLenient.LayoutAt | src/common/json/qtjson.cpp:204-521 | and whatever parses, anywhere in a text, is such a layout of what it parses to |
| JsonLenient.ParsesIff | src/common/json/qtjson.cpp:68-521 | a text parses to a value up to an index if and only if blanks and a layout of that value stand there |
| JsonLenient.RejectedIff | src/common/json/qtjson.cpp:68-521 | a text is rejected if and only if it does not begin with a layout |
| JsonLocal.ValueLocal | src/common/json/qtjson.cpp:204-521 | what was parsed is parsed alike whatever more text follows, but for a number at the end of the text |
| JsonLocal.CutFails | src/common/json/qtjson.cpp:204-521 | the text of a tree other than a number, cut anywhere before its end, does not parse |
| JsonWritten.IntegerReads | src/common/json/qtjson.cpp:399-428 | every integer from the least signed to the greatest unsigned 64-bit one reads back by value |
| JsonWritten.DoubleReads | src/common/json/qtjson.cpp:399-428 | a printed double reads back as itself, or as a string when its text has no point |
| JsonWritten.SerializesIff | src/common/json/qtjson.cpp:93-150 | a tree serializes if and only if every double in it is one that prints, no infinity and no NaN |
| JsonWritten.SerializedIsWritten | src/common/json/qtjson.cpp:38-150 | the serialized text of a tree is one of the texts of the grammar |
| JsonWritten.SerializeThenParse | src/common/json/qtjson.cpp:38-232 | every tree that serializes parses back, whatever follows its text; only a number must be told apart from it |
| JsonWritten.RereadIsIdentity | src/common/json/qtjson.cpp:38-150 | what is read back is the tree itself if and only if no double in it is printed with an exponent and no point |
| JsonConversion.ConvertKeeps | src/common/json/qtjson.cpp:152-158 | turned into UTF-8 and read back, exactly the texts without lone surrogates are left alone; read byte by byte, exactly the ASCII texts |
| JsonConversion.DecodesToMended | src/common/json/qtjson.cpp:152-158 | the bytes of a text, decoded by section 3 of RFC 3629, are the text with each lone surrogate replaced |
| JsonConversion.OwnImageSurvives | src/common/json/json-qtjson.cpp:17-20 | a set of texts that the conversion maps onto itself has only texts that it leaves alone |
| JsonRoundTrip.ConvertWritten | src/common/json/qtjson.cpp:152-158 | converting a serialized text converts the strings in it and touches nothing else |
| JsonRoundTrip.ConvertedReads | src/common/json/qtjson.cpp:38-158 | with a zero character in a string or key the text does not parse, otherwise it parses to the tree with its strings converted |
| JsonRoundTrip.NulFails | src/common/json/qtjson.cpp:152-158 | a string with a zero character serializes to a text that does not parse |
| JsonRoundTrip.ImageIff | src/common/json/json-qtjson.cpp:17-20 | a tree whose strings and keys survive is read as without the conversion, and no other is read as itself, keys that fall together included |
| JsonRoundTrip.LargeDoubleIsLost | src/common/json/qtjson.cpp:399-428 | a double that prints as 1e+22 comes back as that string |
| JsonRoundTrip.RoundTrip | src/common/json/qtjson.cpp:38-232 | through serializeStr() or the wrapper, the text of a tree parses back to the same tree if and only if no string or key has a zero character, all survive the conversion, and no double is printed with an exponent and no point |
| Retry.StartWaits | src/common/error.cpp:246-264 | within parameters that fit, the start after k others waits exactly min(max, base^(k+1)) seconds |
| Retry.ScheduleIff | src/common/error.cpp:246-264 | for any parameters and counter: all later delays are min(max, base^k) if and only if the cap in milliseconds and the power that reaches it are ints and the counter followed the starts or stands where the cap is reached |
| Retry.FreshSchedule | src/common/error.cpp:235-264 | from a fresh counter they are if and only if the cap in milliseconds and the least power that reaches it are ints |
| Retry.FittingSchedule | src/common/error.cpp:246-264 | base * max and 1000 * max within int are enough |
| Retry.SetBackoffSchedule | src/common/error.cpp:235-264 | after a call between two starts the delays go on in the new parameters if and only if they are ints and the counter had not stood still or stands where the new cap is reached |
| Retry.LargeBaseOverflows | src/common/error.cpp:246-264 | with base 50000 and cap 60000 the second start has no defined delay |
| Retry.RaisedCapLags | src/common/error.cpp:235-264 | a cap raised after three starts: the fourth waits 4 seconds where 16 are due |
| Retry.RaisedBaseOverflows | src/common/error.cpp:235-264 | a base raised after four starts: parameters that fit, and no defined delay |
| Retry.FixedDelay | src/common/error.cpp:235-271 | without a backoff every start waits 5 seconds, whatever was called before, rejected parameters included |
| Retry.LastSetDecides | src/common/error.cpp:235-271 | in any run the last call that could set a base and a cap decides them |
| Retry.StartKeepsExponential | src/common/error.cpp:246-271 | the counter rises only while the power is below the cap, over start, stop and expiry |
| Retry.PowerBounded | src/common/error.cpp:246-264 | the power the code narrows to int is the base itself or below base * max |
| Retry.Timer.SetBackoffTo | src/common/error.cpp:235-244 | the setter rejects a base or cap that cannot back off, and otherwise changes only these two |
| Retry.Timer.Begin | src/common/error.cpp:246-264 | start sets the pending delay and the counter as `Start` says |
| Retry.Timer.Cancel | src/common/error.cpp:266-271 | stop clears the pending delay and resets the counter |
| Setup.StepKeepsInv | src/setup/qcc/qccsetup.cpp:44-90 | a retry is pending only in the error state with its transition armed and retrying allowed, after every event |
| Setup.BackoffOverRuns | src/setup/qcc/qccsetup.cpp:117-192 | over every run of either machine, the k-th wait since the last reset is exactly min(300, 2^k) seconds; which failures wait is in FailureIsRetried |
| Setup.RetryKeepsCount | src/setup/qcc/qccsetup.cpp:117-134 | a retried request goes out without resetting the backoff, in every run that starts only stopped machines |
| Setup.SilentUntilRestart | src/setup/reg/regsetup.cpp:119-197 | a machine with no retry pending and no request in progress sends nothing before a stop and a later start |
| Setup.CriticalSilences | src/setup/reg/regsetup.cpp:162-200 | after a critical error no request goes out until a stop and a start, if and only if no retry was pending as it arrived |
| Setup.RequestErrorFindsNoRetry | src/setup/reg/regsetup.cpp:119-197 | no retry is pending while a request is in progress, so an error the request reports silences |
| Setup.LateCriticalErrorStillRetries | src/setup/reg/regsetup.cpp:162-200 | a run in which a second, critical error of one request does not stop the retry |
| Setup.FailureIsRetried | src/setup/qcc/qccsetup.cpp:136-192 | in any run a request that fails leaves a retry pending if and only if the machine retries that error; its wait is logged with the delay that is due, and the timer sends the request again |
| Setup.StartRequests | src/setup/qcc/qccsetup.cpp:44-71 | a start of a stopped machine sends the request, or with setup switched off completes or tells that there is no configuration |
| Setup.ProcessedCompletes | src/setup/qcc/qccsetup.cpp:136-160 | a processed message completes the setup, and later errors cause no retry |
| Setup.StopEnds | src/setup/qcc/qccsetup.cpp:73-91 | a stop ends the machine with its retry and its count of failures |
| Setup.SetupMachine.Dispatch | src/setup/qcc/qccsetup.cpp:44-192 | every event is one step of the machine, whose requests, retries, waits and ends are the subject of the lemmas above |
| Setup.SetupMachine.RunEvents | src/setup/reg/regsetup.cpp:119-197 | a run of the object is a run of the machine: every wait it logs is min(300, 2^k) seconds, and a retry is pending only in an armed error state |
| VpnSession.StepKeepsInv | src/common/vpn/vpnmanager.cpp:87-160 | every slot of the three objects, with the slot its signal reaches, keeps the invariant |
| VpnSession.InvHolds | src/common/vpn/vpnclient.cpp:284-398 | in every reachable state a process exists exactly when the client is neither idle nor configured, a manager that is not detached has a process, the attach counter is within its bound, and no connection timer runs on a connected tunnel |
| VpnSession.StartNeverInBadState | src/common/vpn/vpnclient.cpp:284-357 | the bad-state branch of start is unreachable and no start replaces a process |
| VpnSession.NoTimeoutWhileConnected | src/common/vpn/vpnmanager.cpp:303-325 | no timeout is raised on a live tunnel |
| VpnSession.CounterIsRefusals | src/common/vpn/vpnmanager.cpp:456-488 | over every run the attach counter is the number of refusals since it was last reset, at most N, through detaching and re-attaching |
| VpnSession.RefusalsRaise | src/common/vpn/vpnmanager.cpp:456-488 | the refusal after N others raises a socket error |
| VpnRuns.StepRetries | src/cloud/cloud.cpp:123-218 | a forced step either fails, taking everything down with one retry set, or keeps a process and a pending retry mutually exclusive |
| VpnRuns.OneRetryPending | src/cloud/cloud.cpp:123-218 | in retrying runs each failure leaves exactly one retry pending, no process and a detached manager; it stays until it fires or the session is stopped, and firing launches; one dying tunnel never schedules two restarts |
| VpnRuns.UnforcedRetries | src/cloud/cloud.cpp:123-218 | over every run without force a retry is scheduled only for a valid fallback, and at most one between two outside starts unless an error has gone out in between |
| VpnRuns.FallbackBeforeError | src/cloud/cloud.cpp:123-196 | with a valid fallback, in every run, a client error or a timeout goes out only when the last launch was one of the fallback |
| VpnRuns.TimeoutsAlternate | src/cloud/cloud.cpp:153-216 | repeated timeouts alternate primary and fallback |
| VpnRuns.ClientErrorsSettle | src/cloud/cloud.cpp:123-151 | client errors move to the fallback once and stay there |
| VpnProgress.StartLaunches | src/cloud/cloud.cpp:63-72 | a start or a retry that finds no process launches one, of the configuration it asks for |
| VpnProgress.StartedAttaches | src/cloud/cloud.cpp:96-121 | a process that started has the manager attaching to it, with a socket opening and its timers running |
| VpnProgress.RunningIsAttached | src/cloud/cloud.cpp:96-121 | in every run a running process has a manager that is not detached, and with a timeout set the connection timer runs while the tunnel is not up and nothing has failed |
| VpnProgress.RefusalIsRetried | src/common/vpn/vpnmanager.cpp:456-488 | a refusal within the bound leaves a timer, and when that fires a socket is opened again |
| VpnProgress.LineMoves | src/common/vpn/vpnmanager.cpp:385-454 | each state line takes the client to the state it names and starts or stops the connection timer, and changes nothing else |
| VpnProgress.ReachesConnected | src/common/vpn/vpnmanager.cpp:254-329 | from an opening socket, a connection and the line that says so bring the tunnel up with the connection timer off |
| VpnProgress.StopTakesDown | src/cloud/cloud.cpp:74-85 | after a stop of any run there is no process, no attached manager, no timer but those of earlier refusals, no error and no pending retry |
| VpnProgress.ProcessFailureHandled | src/cloud/cloud.cpp:123-151 | in every run a failed process turns the primary to a valid fallback in silence; any other goes out as an error, with a retry in its own mode exactly when retries are forced |
| VpnProgress.ProcessEnds | src/common/vpn/vpnclient.cpp:424-490 | unless the session is taken down a failure ends only a process that was about to be launched; a running one runs on until it finishes, and nothing else changes |
| VpnProgress.TimeoutHandled | src/cloud/cloud.cpp:153-196 | a connection timeout of the primary turns to a valid fallback in silence; the one of the fallback goes out and turns to the primary; it fires once |
| VpnProgress.ManagerFailureHandled | src/cloud/cloud.cpp:153-196 | a failure of the socket or the protocol goes out at once, and turns to the primary |
| VpnProgress.ManagerGoesOn | src/common/vpn/vpnmanager.cpp:303-329 | without a restart such a failure leaves everything but the mode, the error and a socket that was opening |
| VpnProgress.LastRefusalHandled | src/common/vpn/vpnmanager.cpp:456-488 | the refusal past the bound goes out as a failure of the manager |
| VpnProgress.LaunchFailureHandled | src/common/vpn/vpnclient.cpp:284-357 | a launch that cannot be made leaves no process and is handled like the failure of one in the mode asked for |
| VpnProgress.RunsLastAttempt | src/common/vpn/vpnclient.cpp:284-357 | in every run the process that exists runs the configuration of the last attempt |
| VpnProgress.RetriesBackOff | src/cloud/cloud.cpp:191-218 | in every run the k-th retry scheduled since the last stop waits exactly min(300, 2^k) seconds, whether or not a connection came up in between |
| VpnObjects.CloudObject.Dispatch | src/cloud/cloud.cpp:63-218 | every event runs one slot and the slot its signal reaches, and is one step of the session, of which VpnSession, VpnRuns and VpnProgress say what it brings about |
| VpnObjects.CloudObject.Run | src/cloud/cloud.cpp:63-218 | a run of the objects is a run of the session: afterwards a process exists exactly when the client is neither idle nor configured, the attach counter is the refusals since its reset and within its bound, no connection timer runs on a connected tunnel, and in retrying runs a pending retry means no process |
| VpnConfig.NamesRoundTrip | src/common/vpn/vpnconfig.cpp:396-460 | protocols and devices survive their names, and exactly the known names survive conversion |
| VpnConfig.VpnConfigObject.ReadRemote | src/common/vpn/vpnconfig.cpp:179-187 | host, port and protocol are set up to the first that is invalid |
| VpnConfig.VpnConfigObject.ReadFallbackRemote | src/common/vpn/vpnconfig.cpp:206-214 | the same for the fallback, enabled only when all are valid |
| VpnConfig.VpnConfigObject.ReadDirective | src/common/vpn/vpnconfig.cpp:157-187 | a line outside a block sets its field or fails, as OptionsSet, RemoteSets and DirectiveTakenIff say of the same function; unknown keys are skipped |
| VpnConfig.VpnConfigObject.ReadPath | src/common/vpn/vpnconfig.cpp:223-242 | a path line sets one of the four paths with its quotes removed |
| VpnConfig.VpnConfigObject.ReadConnection | src/common/vpn/vpnconfig.cpp:188-217 | the first block sets the remote, the second the fallback, a third fails |
| VpnConfig.VpnConfigObject.Parse | src/common/vpn/vpnconfig.cpp:133-257 | the token loop with its look-ahead into blocks is `FromString`: accepted, rejected with the fields set before the error, or past the end of the lines |
| VpnConfigRoundTrip.FileLinesParse | src/common/vpn/vpnconfig.cpp:310-363 | the written lines parse to the written fields |
| VpnConfigRoundTrip.RestoredIffClean | src/common/vpn/vpnconfig.cpp:310-363 | for every configuration that can be written, parsing its text restores exactly the fields the text carries, if and only if the written paths hold no quote and no line break |
| VpnConfigRoundTrip.RemoteHasNoSpace | src/common/utils.cpp:286-300 | a valid remote is not empty and holds no white space |
| VpnConfigRoundTrip.ParsedPathsClean | src/common/vpn/vpnconfig.cpp:133-257 | no text makes the parser set a path with a quote or a line break |
| VpnConfigRoundTrip.ParsedIsSound | src/common/vpn/vpnconfig.cpp:630-645 | an accepted text leaves a valid remote, ports in range, a device and protocols |
| VpnConfigRoundTrip.AcceptedTextNormalises | src/common/vpn/vpnconfig.cpp:133-363 | writing what any accepted text parsed to and parsing that gives the same configuration |
| VpnConfigRoundTrip.PastEndIff | src/common/vpn/vpnconfig.cpp:142-243 | the parser runs past its lines if and only if the last line opens a block and every line before it is taken without an error |
| VpnConfigLines.LineIsDirective | src/common/vpn/vpnconfig.cpp:146-157 | a line of plain words, with white space around it and any blanks between them, is the directive of its first word with the others as arguments |
| VpnConfigLines.RemoteSets | src/common/vpn/vpnconfig.cpp:179-187 | a remote outside a block sets the host, and the port and protocol after it, and nothing else, like the remote of the first block |
| VpnConfigLines.OptionsSet | src/common/vpn/vpnconfig.cpp:157-178 | a proto line sets both protocols, comp-lzo enables compression alone or with "yes", dev sets the device |
| VpnConfigLines.PathsSet | src/common/vpn/vpnconfig.cpp:223-242 | each path key sets its own path, given in quotes or without them |
| VpnConfigLines.LaterRemoteWins | src/common/vpn/vpnconfig.cpp:179-187 | of two remotes outside a block the later one decides |
| VpnConfigLines.LaterOptionWins | src/common/vpn/vpnconfig.cpp:157-178 | and so does the later of two protocols and of two compression lines |
| VpnConfigLines.DirectiveTakenIff | src/common/vpn/vpnconfig.cpp:157-242 | which lines outside a block are taken without an error, and which change nothing |
| VpnConfigLines.ConnectionTakenIff | src/common/vpn/vpnconfig.cpp:188-222 | which blocks are taken, and exactly the fields that each sets |
| VpnConfigLines.BlockLineReads | src/common/vpn/vpnconfig.cpp:188-217 | any one white space character separates the words of the line in a block |
| VpnConfigLines.DoubleSpaceRefused | src/common/vpn/vpnconfig.cpp:188-217 | two of them before the host leave it empty, and the block is refused |
| VpnConfigLines.AcceptedIff | src/common/vpn/vpnconfig.cpp:133-257 | a text is accepted if and only if every line is taken and some remote was set |
| VpnConfigLines.PlainConfigParses | src/common/vpn/vpnconfig.cpp:133-257 | a device, a protocol and a remote, each on a line of its own in any layout, are what is parsed |
| VpnConfigLines.HostAloneParses | src/common/vpn/vpnconfig.cpp:54-73 | a host on its own parses to a tap device, port 1194 and UDP |
| VpnConfigLines.GivenTextIsWritten | src/common/vpn/vpnconfig.cpp:310-324 | a configuration given as text is written as it is |
| VpnConfigLines.ValidIpIff | src/common/utils.cpp:286-291 | a valid address is four numbers below 256, without leading zeros, with dots between them |
| VpnConfigLines.ValidHostIff | src/common/utils.cpp:294-300 | said of its characters: letters, digits, hyphens and dots, with a letter or digit at both ends and on both sides of every dot |
| Routes.NetworkManager.SyncRoutes | src/mgr/networkmanager.cpp:116-127 | a sync replaces the endpoints and starts a read when none is in flight |
| Routes.NetworkManager.FinishedReadRoutes | src/mgr/networkmanager.cpp:133-145 | a finished read reconciles and frees the reader, a failed one leaves it stuck |
| Routes.NetworkManager.StopRoutes | src/mgr/networkmanager.cpp:57-66 | a stop reads and removes what StopRemoves says, unless a read is in flight or stuck |
| Routes.NetworkManager.ReadRoutesEx | src/mgr/networkmanager.cpp:163-243 | the loop over the listing gathers current routes, or removes those of the gateway, which PurgesIff names |
| Routes.NetworkManager.ReconcileRoutes | src/mgr/networkmanager.cpp:199-243 | the update step clears, deletes and adds as `Reconcile` says |
| Routes.NetworkManager.DeleteOld | src/mgr/networkmanager.cpp:199-227 | deleting from the list while going through a copy of it leaves exactly the endpoints that stay |
| Routes.NetworkManager.AddNew | src/mgr/networkmanager.cpp:228-243 | missing endpoints are added and noted once |
| RoutesProperties.ApplyReconcile | src/mgr/networkmanager.cpp:199-243 | a table that obeys the commands loses exactly the deleted routes and gains exactly the added ones |
| RoutesProperties.ConnectedInTable | src/mgr/networkmanager.cpp:199-243 | after a sync a connected address is in the table if and only if it was not before or a route to it was not one that is deleted |
| RoutesProperties.ReconcileConverges | src/mgr/networkmanager.cpp:199-243 | with distinct valid addresses one reconciliation puts every connected endpoint in the table and a second one issues no command |
| RoutesProperties.SyncConverges | src/mgr/networkmanager.cpp:116-243 | the same over two syncs and the reads they start, each over a listing that prints the table with shortened addresses |
| RoutesProperties.SharedAddressIsLost | src/mgr/networkmanager.cpp:199-243 | two definitions of one address lose the connected one's route |
| RoutesProperties.PadFills | src/mgr/networkmanager.cpp:151-161 | padding fills an address up to four parts and changes no part |
| RoutesProperties.PadUndoesAbbreviation | src/mgr/networkmanager.cpp:151-161 | padding undoes leaving away the trailing zero parts of an address |
| RoutesProperties.ReconcileRecords | src/mgr/networkmanager.cpp:199-243 | a reconciliation deletes only remembered, unconnected endpoints, and what it remembers afterwards it noted now or remembered before |
| RoutesProperties.DeletesOnlyRecorded | src/mgr/networkmanager.cpp:199-243 | over every run only endpoints noted as added since the last clear are deleted, and never one still connected |
| RoutesProperties.ReadingUpdates | src/mgr/networkmanager.cpp:116-127 | a read in flight always is one of the update operation |
| RoutesProperties.ReconcilesLastSupplied | src/mgr/networkmanager.cpp:116-145 | in every run the read that finishes reconciles against the list supplied last, also when that was while it was in flight |
| RoutesProperties.ReaderIff | src/mgr/networkmanager.cpp:116-145 | in every run the reader is stuck if and only if a read in flight has failed, and reads if and only if a sync with a gateway and an idle reader started a read that has not finished |
| RoutesProperties.FailedReadIsFinal | src/mgr/networkmanager.cpp:133-145 | once a read in flight has failed no later event issues a command, starts a read or changes what is remembered |
| RoutesProperties.SyncAfterFailure | src/mgr/networkmanager.cpp:116-145 | a read fails, and the sync after it starts none |
| RoutesProperties.StopPurges | src/mgr/networkmanager.cpp:57-66 | in every run a stop removes the routes of the gateway if and only if no read in it has failed and none is in flight |
| RoutesGateways.NetdefParses | src/mgr/networkmanager.cpp:385-404 | a plain address is a host route, one with a mask a network, one with more parts a host again, and anything invalid is none |
| RoutesGateways.PurgesIff | src/mgr/networkmanager.cpp:186-197 | a stop removes a route if and only if some row is not the default, has the stored gateway and shows that route |
| RoutesGateways.StopRemoves | src/mgr/networkmanager.cpp:57-66 | over a table with gateways, in every run: exactly the entries of the routes so listed go, unless a read failed or is in flight |
| RoutesGateways.StopClearsGateway | src/mgr/networkmanager.cpp:57-66 | over the listing of a table without double routes a stop removes every entry of the gateway and leaves all others |
| RoutesGateways.ReconcileIssues | src/mgr/networkmanager.cpp:199-243 | one reconciliation issues exactly the additions of the missing routes through the gateway in use, and the deletions of the remembered ones that left and are listed |
| RoutesGateways.RemembersIff | src/mgr/networkmanager.cpp:199-243 | exactly which endpoints are remembered after it, and which are noted anew |
| RoutesGateways.GatewaysHeld | src/mgr/networkmanager.cpp:86-114 | in every run the gateway in use is the one chosen last, as last validly set when it was chosen |
| RoutesGateways.AddsThroughGateway | src/mgr/networkmanager.cpp:116-243 | in every run the finishing read adds exactly the missing endpoints of the list supplied last, through the gateway in use |
| RoutesGateways.DisconnectedIsDeleted | src/mgr/networkmanager.cpp:199-227 | an endpoint that one sync added is deleted by the next that lacks it, if something else is connected and it is listed |
| Nuts.Dec2BinValue | scripts/macx/nuts:209-226 | the padded numeral has the value, and the width exactly when the value fits |
| Nuts.Addr2DecValue | scripts/macx/nuts:704-718 | the numeral of an address is its four octets in base 256 |
| Nuts.Dec2AddrUndoes | scripts/macx/nuts:704-742 | address to decimal and back |
| Nuts.Addr2DecUndoes | scripts/macx/nuts:704-742 | decimal to address and back, failing exactly beyond 32 bits |
| Nuts.Mask2CidrUndoes | scripts/macx/nuts:497-571 | prefix length to mask and back; beyond 32 there is no mask |
| Nuts.Cidr2MaskUndoes | scripts/macx/nuts:497-571 | mask to prefix length and back returns the mask if and only if its ones come first |
| Nuts.AndMask | scripts/macx/nuts:338-357 | masking off the low k bits leaves the largest multiple of 2^k not above |
| Nuts.Addr2NetAligns | scripts/macx/nuts:338-357 | the network of an address is the largest multiple of its block size not above it, and its block fits |
| Nuts.AddrSumIs | scripts/macx/nuts:805-821 | adding to or subtracting from an address does so to its value, failing exactly outside 32 bits |
| Nuts.AddrSumUndoes | scripts/macx/nuts:805-821 | subtracting undoes adding |
| Nuts.BcastEndsBlock | scripts/macx/nuts:586-628 | an address lies in the block of its network, which ends at the broadcast address |
| Nuts.AfterIs | scripts/macx/nuts:910-932 | adjacency is that one network starts where the other ends |
| Nuts.SuperIff | scripts/macx/nuts:951-997 | a supernet is found exactly for two networks of one size, one starting where the other ends, and starts at the lower |
| Nuts.SuperIsUnion | scripts/macx/nuts:951-997 | the interval it prints is the disjoint union of the two networks |
| Nuts.SuperAlignedIff | scripts/macx/nuts:951-997 | it is an aligned block if and only if the lower network starts at a multiple of the doubled size |
| Nuts.UnalignedSupernet | scripts/macx/nuts:951-997 | 192.168.1.0/24 and 192.168.2.0/24 pass for a supernet that is no block |
| FixRoutes.FixRoutes | scripts/macx/fix-routes-osx.sh:87-120 | the one-pass loop re-adds exactly the networks that form a supernet with a neighbour in the list, each once and in order |
| FixRoutes.FixedIs | scripts/macx/fix-routes-osx.sh:31-55 | the commands are a deletion and an interface addition for each of them, in the order of the list, and no other; none without a gateway |
| FixRoutes.FixedTable | scripts/macx/fix-routes-osx.sh:31-120 | afterwards each of them has exactly the interface route through the gateway, and every other route is as it was |
| FixRoutes.NeighboursSuffice | scripts/macx/fix-routes-osx.sh:87-120 | among networks that do not overlap looking at neighbours misses no supernet |
| SimpleCrypt.SplitKey | src/common/crypto/simplecrypt.cpp:59-70 | the nested loops split the key into its eight bytes, lowest first |
| SimpleCrypt.KeyPartsDetermineKey | src/common/crypto/simplecrypt.cpp:59-70 | no two keys split into the same bytes |
| SimpleCrypt.ChainInPlace | src/common/crypto/simplecrypt.cpp:118-127 | the loop over the buffer computes `Chain` of its old content |
| SimpleCrypt.UnchainInPlace | src/common/crypto/simplecrypt.cpp:201-211 | the undoing loop computes `Unchain` of its old content |
| SimpleCrypt.UnchainWithAnotherKey | src/common/crypto/simplecrypt.cpp:201-211 | undoing with another key leaves each byte combined with both key bytes, and nothing else |
| SimpleCrypt.UnchainUndoesChain | src/common/crypto/simplecrypt.cpp:118-211 | undoing with the same key restores the buffer |
| SimpleCrypt.OneByteChanged | src/common/crypto/simplecrypt.cpp:201-211 | a changed byte changes exactly that byte and the next of the plaintext |
| SimpleCrypt.FlagsRead | src/common/crypto/simplecrypt.cpp:89-112 | the flags byte tells each mode apart |
| SimpleCrypt.CheckedUndoesIntegrity | src/common/crypto/simplecrypt.cpp:215-244 | the integrity check takes off exactly what was put on, in every protection mode |
| SimpleCrypt.DecryptUndoesEncrypt | src/common/crypto/simplecrypt.cpp:78-251 | decryption returns the plaintext for every key, random byte and pair of modes, whatever the modes of the object that decrypts |
| SimpleCryptFrames.FrameHolds | src/common/crypto/simplecrypt.cpp:78-136 | an encrypted text is version 3, has the flags of what was done to it, and hides the random byte, the integrity code and the data, compressed always, never or when that is shorter |
| SimpleCryptFrames.OpensIff | src/common/crypto/simplecrypt.cpp:178-251 | for any bytes and key: a frame opens if and only if it is of version 3 and intact, to its data unpacked if it says so; any other names its fault |
| SimpleCryptFrames.ChecksumDecides | src/common/crypto/simplecrypt.cpp:215-231 | a frame with a checksum opens if and only if the checksum is that of its data |
| SimpleCryptFrames.KeyIsItsParts | src/common/crypto/simplecrypt.cpp:59-70 | the parts are the bytes of the key, the lowest first |
| SimpleCrypt.Crypt.SetKey | src/common/crypto/simplecrypt.cpp:53-70 | the key and its bytes are set together |
| SimpleCrypt.Crypt.Encrypt | src/common/crypto/simplecrypt.cpp:78-136 | without a key an error, otherwise the framed and chained bytes |
| SimpleCrypt.Crypt.Decrypt | src/common/crypto/simplecrypt.cpp:178-251 | the plaintext, or which of the checks failed; a short text leaves the last error alone |
| Http.ReadFieldsLoop | src/http/headers.cpp:62-83 | a later header line overrides an earlier one and malformed lines are skipped |
| Http.ChunkDecodes | src/http/headers.cpp:26-83 | a chunk with the head and some of the body decodes like the head alone, and its content is that part of the body up to a zero byte |
| Http.ContentIsBody | src/http/request.cpp:28-45 | the content of a request is its body if and only if the body has neither a line break nor a zero byte; after a head with a zero byte the body does not matter |
| Http.HttpServer.ReadyRead | src/http/server.cpp:101-142 | a chunk changes the context of its socket only and hands the message over when it is complete, or the code takes an element off an empty list |
| Http.HttpServer.Disconnected | src/http/server.cpp:144-151 | a closed socket loses its context, the others keep theirs |
| Http.MessagesFit | src/http/server.cpp:101-142 | nothing is handed over that is longer than what came in |
| Http.ReassemblesIff | src/http/server.cpp:101-142 | for every split of a message: it is handed over once and whole if and only if its first chunk decodes and the length that chunk makes expected, by HeadMakesExpected, ends in the last chunk |
| Http.Reassembles | src/http/server.cpp:101-142 | of a request whose head lies in the first chunk it is, however the rest is split; which heads declare the length is in LengthDeclared |
| Http.SplitHeadsLose | src/http/server.cpp:101-142 | a request split behind its request line is handed over in part, one split inside it is dropped in part |
| Http.LineHandedOver | src/http/headers.cpp:26-60 | any request line that comes alone is handed over as a message |
| Http.PartOfLineDropped | src/http/headers.cpp:26-60 | any first part of a request line that comes alone is dropped |
| Http.SpillGlues | src/http/server.cpp:126-138 | what the last chunk of a request brings of the next request is handed over with it |
| Http.FirstMessage | src/http/server.cpp:101-142 | the first message of a connection is a group of consecutive chunks after some that were dropped |
| Http.StreamIff | src/http/server.cpp:101-142 | however the stream of a connection is cut, the messages are the requests, each once and in order, if and only if the chunks fall into such groups, one for each request, and every request but the last is answered |
| Http.ConnectionIff | src/http/server.cpp:101-142 | when no head is cut, if and only if every request ends where a chunk ends and every one but the last is answered |
| Http.UnansweredMessageGlues | src/http/server.cpp:126-138 | an unanswered message is handed over again with the next chunk |
| HttpHeads.LengthDeclared | src/http/headers.cpp:62-93 | the last header line that names Content-Length, in any case, and holds a number declares that length |
| HttpHeads.NoLengthDeclared | src/http/headers.cpp:62-93 | a head without such a line declares none |
| HttpHeads.HeadMakesExpected | src/http/headers.cpp:26-60 | a first chunk with a whole head makes expected the length of the head and what it declares, and names method, URL and version |
| HttpHeads.DeclaredReassembles | src/http/server.cpp:101-142 | a request whose head declares the length of its body is handed over once and whole, however the body is split |
| HttpHeads.UndeclaredHeadGoes | src/http/server.cpp:101-142 | without such a line the head is handed over as soon as it is there |
| HttpHeads.PostIsWhole | src/http/server.cpp:101-142 | a POST whose head comes first and whose five bytes follow is handed over once, whole |

## Left out

- Printing and reading a double are library parameters; it is assumed that a printed double, with ".0" added where the code adds it, reads back as itself.
- JsonSerializer.SerializeValue: other variant types that the code turns into strings (dates, URLs) are not in the tree, and the four integer variant types are one integer, compared by value.
- JsonParser.ReadValue: the four integer variant types are one integer here too.
- JsonRoundTrip.RoundTrip: Qt 4 also replaces noncharacters such as U+FFFE when it reads UTF-8.
- Process, socket and timer objects are events: a process error comes from the event loop and not from within start, a detached socket emits nothing, and the validity check of a new socket (src/common/vpn/vpnmanager.cpp:116-129), whose error path jumps back to its own label, is taken to pass.
- VpnObjects.CloudObject.Dispatch: a slot's signal is delivered as its last act, what the owner does on an error that goes out is a later event, progress signals and the assigned address are not part of the state, and management lines arrive classified, so the splitting of their text and the password requests are not modelled.
- VpnSession.InvHolds: whether the fallback configuration is valid is fixed for a run, although setup may supply it while the session runs.
- Setup.BackoffOverRuns: a transition of the Qt state machine is one step, the choice whether setup is needed is fixed, and the asynchronous closing message is not modelled.
- VpnConfig.VpnConfigObject.Parse: where the code takes an element off an empty list it ends with an outcome of its own, and nothing is said of what the program does then.
- VpnConfig: writing the file (whose result test at src/common/vpn/vpnconfig.cpp:365 is inverted), the variant map, comparison and description of a configuration; the regular expressions are written out as functions.
- Routes: the text of the commands on each platform, the regular expression that picks rows from the listing, the lease renewal, and the process manager, which the constructor does not store when one is passed in.
- Nuts.AddrSumIs: a negative sum of exactly 31 binary digits, which no caller asks for, passes for 32 digits in the script and prints no address; the model has it fail like the other negative sums.
- Nuts: the text form of addresses, hexadecimal conversions, address comparison, and the validity checks, which an optimisation switch turns off.
- FixRoutes.FixRoutes: the first two passes, which convert and sort the networks, are not part of this model; NeighboursSuffice assumes the order they produce.
- SimpleCrypt: compression, checksum and hash are parameters with the one law that uncompressing undoes compressing; text and Base64 overloads only convert.
- Http.HttpServer.ReadyRead: where the code takes an element off an empty list, for a first chunk with a request line and no line break, it reports so and leaves the context alone; a byte is a character, and lower-casing is that of ASCII.
- Retry: the setter of the fixed timeout, which nothing calls on a retry.
- Retry.ScheduleIff: where a power or a product does not fit an int the language promises nothing; the model ends with an undefined delay and leaves the counter alone.
- Http.Reassembles: bodies with line breaks, whose lines the code reads as header lines, are covered by ReassemblesIff and StreamIff only.
- Core, Client, the message classes and their API, logging, cookies, proxies, watchdog, authentication, the configuration file and its merging, the Tunnelblick script and the builds: wiring, tables and defaults that add only easy members.
