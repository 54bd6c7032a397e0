# wire-probe: a verified model

wire-probe measures TCP handshake latency. A Rust probe aims at one address of its target and
moves to another after five failures in a row; it exports every cycle as one Influx or PUTVAL
line. A Rust server accepts connections and drops them at once, over io_uring or with blocking
accepts. A Python plugin does the probing inside collectd for a list of hosts.

The Dafny modules follow that division.

- `Rotation` holds the probe loop and the rotation policy, `Canonical` the sorted, repeat-free order
  the probe rotates through, `Rings` the arithmetic of going around it, and `Recovery` what the
  policy guarantees over whole runs.
- `PluginRotation` is the plugin's select-then-record machine, `PluginRecovery` says which outages it
  gets out of, `Agreement` when it chooses the same addresses as the probe, and `SortKeys` what
  that means for the keys the two sides really sort by.
- `UdsSender` follows what the reader of each Unix-socket connection receives when any write may
  stop part-way and any reconnect may fail. `Lines` and `Text` hold the two line formats with a
  decoder for each; `Exporters` holds the exporter objects and their reused buffers.
- `AcceptLoop` is the server: a ring with a submission queue, operations in flight and a
  completion queue, driven by a kernel that decides freely.
- `ReadCycle`, `Statistics`, `HostText`, `Callbacks` and `Plugin` are the plugin: the read callback
  against its deadline, the statistics it reports, the `Host` syntax, what many callbacks do to the
  selection table, and the module's state.
- `Durations` is the parsing and range checking of the probe's time arguments.

Addresses are values of any type, and each side's sort key is a strict total order on them
(`StrictTotal`); the resolver's first answer is its preferred one (section 6 of RFC 6724). What the
outside world decides (resolver answers, reachable addresses, write results, completions, clock
readings, the square root) arrives as parameters: scripts of any length and any content. Endless
loops run over such a script, so a statement about all scripts is one about every moment of every
run. Objects whose methods update fields are classes; the methods are proved equal to functions of
the old state, and the lemmas are about those functions.

The main results:

- the probe gets out of every outage within a bound that is exact (`Recovery.BoundedRecovery`,
  `Recovery.OutageBoundIsTight`), visits addresses fairly (`Recovery.FairRotation`,
  `Recovery.FairWindow`) and resolves as often as it says (`Recovery.ResolutionCount`);
- exactly when the plugin recovers (`PluginRecovery.RepeatsDecideRecovery`, and for the callback
  itself `Callbacks.CallbackRecovers`), and exactly when it agrees with the probe
  (`Agreement.PluginAgreesWithProbe`);
- exactly when the readers of the Unix socket get the acknowledged lines (`UdsSender.RecoversExactly`);
- one accept outstanding at every turn of the io_uring loop, which refines the blocking loop and keeps
  no descriptor (`AcceptLoop.RunIoUring`, `AcceptLoop.IoUringRefinesBlocking`,
  `AcceptLoop.DescriptorsAreConserved`);
- the deadline of the read callback (`ReadCycle.DeadlineBound`), what its statistics say
  (`ReadCycle.EmittedStatistics`, `ReadCycle.EmittedSpreadIsHonest`), and the exact number of label
  warnings (`Plugin.Plugin.WarnOnLabelCollisions`);
- every line decodes to what it was built from (`Lines.PutvalDecodes`, `Lines.InfluxDecodes`), and
  every `Host` text to what it means (`HostText.SplitReadsForms`).

Three promises made in the sources' own comments do not hold on every input. The code is modelled as
it is, and each has its exact condition:

- A write error on the Unix socket is meant to discard the torn frame. When the reconnect fails
  too, the stale stream stays, and a later line that goes through is glued to the fragment.
  `UdsSender.RecoversExactly` says when readers get exactly the acknowledged lines: if and only if
  no line was written whole while such a fragment was pending. `UdsSender.StaleStreamCorruptsALine`
  gives the shortest failing runs.
- Five failures are meant to move the plugin to another address. It does not drop repeats, and an
  address that the resolver lists twice is followed by itself. `PluginRotation.RotationMovesIffUnique`
  says when one rotation moves: if and only if the answer lists the selected address once.
  `PluginRecovery.RepeatsDecideRecovery` says when a whole outage is overcome: if and only if, going
  around the sorted answer from the first pick, a live address comes before any repeated dead one.
- The plugin is meant to mirror the probe (`plugin/collectd/wire_probe.py:86`). The probe sorts
  addresses by their numbers, the plugin by the text of the socket address.
  `Agreement.PluginAgreesWithProbe` says when the two make the same choices in every trace: if and
  only if one sorted list is a rotation of the other, as it always is for two addresses
  (`Agreement.TwoAddressesAgree`) and for numbers of one width (`SortKeys.EqualWidthsAgree`).
  `SortKeys.KeysPart` shows 10.0.0.2, 10.0.0.10 and 10.0.0.20, where the two part after the first
  five failures.

Where prose and code disagree, the code is followed. The repository's own README (line 130) says
that the target is resolved only once at startup; the loop resolves it again on every fifth failure.
`src/exporter/telegraf.rs:4-5` counts a 19-digit timestamp; the type allows twenty digits, which
still fit the headroom, exactly.

## Model

| member | source | states |
|---|---|---|
| Canonical.CanonicalSpec | src/main.rs:265-273 | sorting and dropping adjacent repeats gives a strictly sorted list with exactly the addresses of the answer |
| Canonical.SortedIsDeterminedBySet | src/main.rs:237-238 | two strictly sorted lists with one set of addresses are equal, so comparing lists compares sets |
| Canonical.SameSetSameOrder | src/main.rs:233-238 | two answers have one canonical order if and only if they hold the same addresses, in any order and with any repeats |
| Canonical.DistinctSortIsCanonical | plugin/collectd/wire_probe.py:102-108 | under any one key, sorting an answer without repeats already gives the canonical order of that key |
| Rotation.Adopt | src/main.rs:265-273 | nothing exactly for an empty answer, otherwise the canonical order and the resolver's first choice |
| Rotation.ApplyResolution | src/main.rs:220-260 | updates list, address and report as the function `Apply` does |
| Rotation.ApplySpec | src/main.rs:220-260 | an empty answer changes nothing; otherwise the list is the sorted set of answers, the address moves to its cyclic successor or, when it vanished, to the resolver's first choice; `moved` and `listChanged` hold exactly when the address and the set of addresses differ |
| Rotation.RotateTarget | src/main.rs:184-201 | a failed resolution changes nothing, any other is applied |
| Rotation.ProbeOnce | src/main.rs:114-133 | one probe of the address in use: success resets the countdown, the failure that exhausts it resolves again; the point carries the reading if the address answered and none otherwise |
| Rotation.EndOfCycle | src/main.rs:150-168 | sleeps out the rest of the interval or warns, once over the whole run, at the first cycle that outran it; the clock stays the sum of the cycles |
| Rotation.RunProbe | src/main.rs:37-170 | every cycle probes the address the policy prescribes and exports one point with its time stamp and, exactly when that address answered, its reading; the loop ends at the first broken pipe under Exec and never otherwise; the clock is the start plus what each completed cycle took; one overrun warning, at the first overrun |
| Rotation.Cadence | src/main.rs:149-168 | k cycles take at least k intervals, and exactly k if and only if none outran the interval and no sleep overshot |
| Rotation.CycleLasts | src/main.rs:149-168 | a cycle lasts as long as its work or the interval, whichever is longer, and only a sleep overshoots |
| Rotation.TargetInvariant | src/main.rs:52-62 | on every run the list is non-empty, strictly sorted, equal as a set to the last non-empty answer taken over, and contains the address in use; the countdown is in 1..5 |
| Rotation.ChangeReportsAreExact | src/main.rs:209-215 | on every run a re-resolution reports a changed list exactly when the set of addresses differs from the last one taken over |
| Recovery.CountdownShowsRun | src/main.rs:116-127 | at every loop head the countdown is five minus the current failure run modulo five |
| Recovery.ResolutionCount | src/main.rs:116-131 | the target was resolved floor(length / 5) times per maximal failure run of the whole history |
| Recovery.ResolutionsAreSpaced | src/main.rs:121-126 | two re-resolutions are at least five cycles apart |
| Recovery.OnlyResolutionsMove | src/main.rs:113-131 | without a re-resolution neither the list nor the address changes |
| Recovery.PointsShowOutcomes | src/main.rs:115-132 | over a run, the i-th point has a reading if and only if the i-th probe succeeded |
| Recovery.FairRotation | src/main.rs:239-254 | for a resolver that shuffles and repeats one set, the address after k moves is at position (start + k) mod n of the canonical order, whatever the failures |
| Recovery.FairWindow | src/main.rs:239-254 | in a run, any n moments with consecutive numbers of moves find each of the n addresses in use exactly once |
| Recovery.EveryAddressIsTried | src/main.rs:239-254 | after n - 1 moves every address of the set has been in use |
| Recovery.OutageBound | src/main.rs:97-133 | a run of failures with one address always reachable is never longer than 5(n-1) probes plus five per failed re-resolution, even if the others come and go |
| Recovery.StaysOnLiveAddress | src/main.rs:115-119 | an address that keeps answering is never left |
| Recovery.BoundedRecovery | src/main.rs:97-133 | from any reachable target the probe aims at a live address after at most 5(n-1) failures plus five per failed re-resolution and stays on it |
| Recovery.OutageBoundIsTight | src/main.rs:189-200 | for every set the outage lasts exactly 5(n-1) probes when only the address furthest ahead in rotation answers |
| PluginRotation.Prefer | plugin/collectd/wire_probe.py:111-122 | the pick is among the answers, keeps a selection still listed, and leaves the failure count alone |
| PluginRotation.Record | plugin/collectd/wire_probe.py:125-148 | after an outcome for a non-empty answer the failure count is below five or there is only one address |
| PluginRotation.AfterMovesIffUnique | plugin/collectd/wire_probe.py:102-143 | in a sorted answer of two or more, the successor of an address is another address if and only if it occurs once |
| PluginRotation.RotationMovesIffUnique | plugin/collectd/wire_probe.py:133-143 | the fifth failure leaves the selected address if and only if the answer lists it once |
| PluginRotation.RepeatedAddressPinsRotation | plugin/collectd/wire_probe.py:137-143 | a picked dead address listed at least twice in every answer is probed for ever, whatever else would answer |
| PluginRecovery.SortIsDetermined | plugin/collectd/wire_probe.py:102-108 | answers that list the same addresses equally often have one sorted list |
| PluginRecovery.RepeatsDecideRecovery | plugin/collectd/wire_probe.py:111-148 | over answers that list the same n addresses equally often, from any entry: if, going around the sorted answer from the first pick, a live address comes before any repeated dead one, every read from 5(n-1) on probes a live address, and otherwise none ever does |
| PluginRecovery.PluginRecovers | plugin/collectd/wire_probe.py:111-148 | without repeats the plugin probes a live address from read 5(n-1) on, from any entry |
| Agreement.StepsMirror | plugin/collectd/wire_probe.py:125-148 | one recorded outcome of the plugin and one cycle of the loop under the plugin's own key keep the two states mirror images |
| Agreement.RunsMirror | plugin/collectd/wire_probe.py:111-148 | and so does every run over one fixed answer set of two or more |
| Agreement.PluginFollowsPolicy | plugin/collectd/wire_probe.py:111-148 | in every cycle of every trace the plugin picks what the probe loop would pick under the plugin's key, and its failure count is five minus that loop's countdown |
| Agreement.BlackoutReaches | src/main.rs:116-131 | while nothing answers, the loop aims after n cycles at the floor(n / 5)-th successor of its first choice |
| Agreement.SuccessorsDecide | plugin/collectd/wire_probe.py:133-143 | the two sides agree in every cycle of every trace if and only if their sorted lists give every address the same successor |
| Agreement.PluginAgreesWithProbe | plugin/collectd/wire_probe.py:102-148 | for any two sort keys: both probe the same address in every cycle of every trace over a repeat-free answer set, with matching counts, if and only if the plugin's sorted list is a rotation of the probe's |
| Agreement.TwoAddressesAgree | plugin/collectd/wire_probe.py:102-148 | with two addresses the two sides always agree |
| Agreement.ThreeAddressesPart | plugin/collectd/wire_probe.py:102-108 | with three addresses that the keys put in different cyclic orders the two sides part after five failures |
| SortKeys.KeysAreOrders | plugin/collectd/wire_probe.py:108 | comparing numbers and comparing texts are both strict total orders on the addresses |
| SortKeys.KeysPart | plugin/collectd/wire_probe.py:102-108 | for 10.0.0.2, 10.0.0.10 and 10.0.0.20, with the first in use, five failures lead the probe to .10 and the plugin to .20 |
| SortKeys.EqualWidthsAgree | plugin/collectd/wire_probe.py:102-108 | addresses of that kind whose last numbers have equally many digits are chosen alike in every trace |
| UdsSender.WireDelivers | src/exporter/collectd.rs:117-138 | on every run the readers see each acknowledged line behind whatever torn bytes were pending on its stream, and the open stream ends in the pending bytes |
| UdsSender.WireIsSent | src/exporter/collectd.rs:117-138 | each connection holds exactly the accepted bytes of the attempts made on it, in order, and there is one more than successful reconnects |
| UdsSender.RecoversExactly | src/exporter/collectd.rs:109-138 | splitting at newlines recovers exactly the acknowledged lines, in order and once each, if and only if no line was written whole over a torn frame left by a failed reconnect |
| UdsSender.StaleStreamCorruptsALine | src/exporter/collectd.rs:122-131 | for every line and every cut: a torn write, a failed reconnect, then a successful write deliver one line with the fragment glued to its front |
| UdsSender.TearsAreLast | src/exporter/collectd.rs:110-116 | while every reconnect succeeds, what follows the last newline of any connection is a proper prefix of one failed line |
| UdsSender.NoTornFrame | src/exporter/collectd.rs:110-138 | while every reconnect succeeds, each connection carries whole lines and then at most one proper prefix, and the whole lines are the acknowledged ones |
| UdsSender.SplitIsExact | src/exporter/collectd.rs:110-116 | splitting a connection's bytes into lines and a rest loses nothing |
| AcceptLoop.PushAccept | src/server.rs:145-164 | queues one accept unless all 256 entries are taken |
| AcceptLoop.Arm | src/server.rs:138-141 | one more accept ends up in the kernel when the queue has room and the submission is taken |
| AcceptLoop.HandleCompletion | src/server.rs:107-134 | closes an accepted descriptor, or reports a non-transient error and backs off at least 50 ms, or ignores a transient one |
| AcceptLoop.HandleAll | src/server.rs:104-136 | handles every accept completion in order, asks for a re-arm exactly when there was one, and logs the time of each warning |
| AcceptLoop.Serve | src/server.rs:101-142 | drains what completed, handles it and arms the next accept exactly when an accept completed |
| AcceptLoop.Turn | src/server.rs:88-142 | one turn with one accept outstanding handles at most that accept and leaves one accept outstanding; it ends the loop as a failed wait exactly when the wait failed, as a refused submission exactly when one was due and refused, and never when it was interrupted |
| AcceptLoop.RunIoUring | src/server.rs:82-143 | at every loop head exactly one accept is in the kernel or completed and unread; the queue is never found full; the loop runs on exactly while the first submission was taken, no wait fails and every woken wait that finds a completion may submit the next accept, and otherwise ends at the first that breaks this; warnings are at least 50 ms apart |
| AcceptLoop.ReadyIsFirstSince | src/server.rs:95-106 | what a wait finds is the first completion since the last drain, kept over interrupted waits |
| AcceptLoop.TraceTellsAccepts | src/server.rs:104-134 | every descriptor handed out is accepted, in order, every error but EAGAIN is warned about once, and only then the next accept is armed |
| AcceptLoop.BlockingTellsAccepts | src/server.rs:64-80 | the blocking loop accepts every descriptor handed out, in order, and warns about every error |
| AcceptLoop.BlockingAccept | src/server.rs:66-78 | drops one connection, or warns and backs off at least 50 ms after any error |
| AcceptLoop.RunBlocking | src/server.rs:64-80 | the trace of the blocking loop, with warnings at least 50 ms apart |
| AcceptLoop.IoUringRefinesBlocking | src/server.rs:64-142 | the io_uring trace without its re-arming is the trace of the blocking loop on the same results, transient errors excepted |
| AcceptLoop.EachAcceptIsClosedOnce | src/server.rs:107-116 | every accept is followed at once by the one attempt to close its descriptor, and nothing else is closed |
| AcceptLoop.DescriptorsAreConserved | src/server.rs:107-116 | at every loop head the open descriptors are the initial ones and those the kernel kept although closing them was tried |
| AcceptLoop.NothingLeaks | src/server.rs:107-116 | and while the kernel keeps none, none accumulate |
| Text.DecRoundTrip | src/exporter/telegraf.rs:91-92 | decimal text parses back to its number |
| Text.LeadingZero | src/cli.rs:198-202 | leading zeros do not change a number |
| Text.DecLength | src/exporter/telegraf.rs:91-92 | a number has at most k digits if and only if it is below 10^k |
| Text.U64Digits | src/exporter/telegraf.rs:4-6 | an unsigned 64-bit timestamp has at most twenty digits, and the largest has twenty |
| Lines.Sanitize | src/cli.rs:184-194 | character by character, keeps letters, digits, hyphen and dot and replaces the rest by an underscore |
| Lines.SanitizeKeepsSafeNames | src/cli.rs:184-194 | a name is left alone if and only if it is already clean |
| Lines.PutvalDecodes | src/exporter/collectd.rs:85-97 | for any raw names a PUTVAL line decodes to the sanitised host and target, the interval and the value or `U` |
| Lines.PutvalIsInjective | src/exporter/collectd.rs:150-161 | so the line determines all four |
| Lines.PutvalIsOneLine | src/exporter/collectd.rs:85-97 | exactly one newline, at the end |
| Lines.PutvalFits | src/exporter/collectd.rs:5-7 | the line needs at most 25 of the 32 bytes kept free past the prefix |
| Lines.InfluxDecodes | src/exporter/telegraf.rs:60-95 | for any raw tags an Influx line decodes to the sanitised target and zone, the reading or failure, and the timestamp |
| Lines.InfluxIsInjective | src/exporter/telegraf.rs:60-95 | so the line determines all four |
| Lines.InfluxIsOneLine | src/exporter/telegraf.rs:93-94 | exactly one newline, at the end |
| Lines.InfluxFits | src/exporter/telegraf.rs:4-6 | the line fits 64 bytes past the prefix, and fills them exactly when the float text has 24 bytes and the timestamp twenty digits |
| Exporters.BuildInfluxPrefix | src/exporter/telegraf.rs:60-68 | the prefix that the decoder's format starts with |
| Exporters.BuildPutvalPrefix | src/exporter/collectd.rs:150-161 | the prefix that the decoder's format starts with |
| Exporters.FormatInflux | src/exporter/telegraf.rs:77-95 | after any history the buffer is the line of the latest arguments alone, without a reallocation when it fits |
| Exporters.TelegrafExporter.constructor | src/exporter/telegraf.rs:29-43 | sizes the buffer so that no send reallocates |
| Exporters.TelegrafExporter.Send | src/exporter/telegraf.rs:46-56 | one datagram with the line of this call, never a reallocation |
| Exporters.CollectdExporter.constructor | src/exporter/collectd.rs:52-68 | starts with one open connection, nothing written, and a buffer that no line outgrows |
| Exporters.CollectdExporter.FormatLine | src/exporter/collectd.rs:85-97 | the buffer is the line of this value alone, without a reallocation |
| Exporters.CollectdExporter.FlushLine | src/exporter/collectd.rs:99-138 | the bytes land on the connection then open; only a successful reconnect replaces it; Ok exactly when the whole line was written, and of two errors the reconnect's is returned |
| Exporters.CollectdExporter.Send | src/exporter/collectd.rs:70-79 | adds this value's line to the history, and is Ok exactly when it was written whole |
| Exporters.CollectdExporter.ReadersRecover | src/exporter/collectd.rs:99-138 | after any history of the object its readers recover exactly the acknowledged lines if and only if none was written over a torn frame |
| Statistics.MeanIsBetween | plugin/collectd/wire_probe.py:494-498 | the mean lies between the smallest and the largest sample |
| Statistics.Cauchy | plugin/collectd/wire_probe.py:499-501 | the squared sum of deviations is at most their number times the sum of their squares |
| Statistics.SampleIsNearMean | plugin/collectd/wire_probe.py:494-501 | no sample, the reported minimum included, is further from the mean than sqrt(n - 1) standard deviations |
| Statistics.VarianceBound | plugin/collectd/wire_probe.py:499-501 | the variance is at most (max - mean)(mean - min), and that at most a quarter of the squared range |
| HostText.ParsePort | plugin/collectd/wire_probe.py:272-285 | an inline port is taken if and only if it is decimal and in 1..65535 |
| HostText.EveryTextHasAForm | plugin/collectd/wire_probe.py:238-250 | every Host text is written in one of three shapes: bracketed, host and one colon, or bare |
| HostText.SplitReadsForms | plugin/collectd/wire_probe.py:238-285 | and every shape is read back as what it means, malformed ports and unbalanced brackets included |
| HostText.PlainRoundTrip | plugin/collectd/wire_probe.py:265-269 | a colon-free host, with or without a port, is read back exactly |
| HostText.BracketRoundTrip | plugin/collectd/wire_probe.py:251-259 | a bracketed host (section 3.2.2 of RFC 3986), colons and all, is read back exactly, with or without a port |
| HostText.BareLiteralIsKept | plugin/collectd/wire_probe.py:261-263 | a bare literal with two or more colons is never split |
| HostText.SplitIsSound | plugin/collectd/wire_probe.py:238-285 | whenever a port is taken from a Host value, the value is that host and the decimal text of that port, with or without brackets |
| HostText.LabelsMeet | plugin/collectd/wire_probe.py:379-385 | a target without a port of its own reports under its hostname; two targets share a label if and only if they are the same, or one has no port and its hostname spells out the other with its port |
| Durations.ParseInterval | src/cli.rs:129-135 | an interval is accepted if and only if it is a duration between 100 ms and 24 h |
| Durations.ParseTimeout | src/cli.rs:136-142 | a timeout is accepted if and only if it is a duration above zero and at most 60 s |
| Durations.ParseU64 | src/cli.rs:198-202 | a number is accepted if and only if it is decimal digits, with or without a leading plus, below 2^64 |
| Durations.DurationForms | src/cli.rs:196-204 | every number is read in the unit its suffix names, milliseconds without one |
| Durations.DurationIsOneOf | src/cli.rs:196-204 | and nothing else is accepted |
| Durations.DurationRoundTrip | src/cli.rs:196-204 | printing any unsigned 64-bit number with `ms`, `s` or no suffix and parsing it gives back that duration |
| Durations.IntervalRoundTrip | src/cli.rs:129-135 | printing an accepted interval with `ms` or no suffix and parsing it gives it back |
| Durations.SecondsRoundTrip | src/cli.rs:129-135 | and so does printing whole seconds with `s` |
| Durations.TimeoutRoundTrip | src/cli.rs:136-142 | and an accepted timeout |
| Durations.AnnouncedInterval | src/main.rs:72 | for every accepted string the announced interval is the nearest whole second, at least one and at most a day |
| ReadCycle.ReadBudget | plugin/collectd/wire_probe.py:33-40 | the budget is four fifths of a usable interval, 8 s without one |
| ReadCycle.AttemptsKeepDeadline | plugin/collectd/wire_probe.py:463-473 | every connect starts before the deadline with a positive timeout and ends by it; connects stop early only when the budget is gone |
| ReadCycle.AttemptsReportReplies | plugin/collectd/wire_probe.py:463-473 | each connect starts when the one before ended, may wait for the timeout or the rest of the budget, whichever is shorter, and reports the reading of a reply that comes in time and nothing of a later one |
| ReadCycle.VisitIsPrompt | plugin/collectd/wire_probe.py:438-473 | one host makes at most PingCount attempts, all on its picked address, and keeps the deadline apart from its resolution |
| ReadCycle.VisitAt | plugin/collectd/wire_probe.py:438-452 | hosts are visited in order, each visit starts before the deadline, and the cycle goes on exactly while hosts and budget are left |
| ReadCycle.VisitsFollow | plugin/collectd/wire_probe.py:438-473 | visits follow each other without a pause: each resolves its host, and without an address attempts nothing, otherwise what the budget allows |
| ReadCycle.DeadlineBound | plugin/collectd/wire_probe.py:436-480 | for any hosts and environment, connects end by the deadline, only the last resolution can end past it, and the callback is over by the deadline or at the end of that resolution |
| ReadCycle.VisitSettlesOneKey | plugin/collectd/wire_probe.py:459-475 | a visit moves its own key by the step of the selection machine for the addresses that would have given a sample in its budget, and no other key; a failed resolution changes nothing |
| ReadCycle.SamplesAreReadings | plugin/collectd/wire_probe.py:471-473 | the samples are the readings of the attempts that have one |
| ReadCycle.DropRateAccounting | plugin/collectd/wire_probe.py:484-513 | the three values emitted for a host are its reading, drop rate and deviation, in that order; the emitted drop rate is undefined exactly for a resolved host without an attempt, one for a failed resolution, and otherwise in [0, 1] with rate times attempts the number of failed handshakes |
| ReadCycle.ThreeValuesEach | plugin/collectd/wire_probe.py:509-513 | each visited host emits its three values next to each other, in the order of the visits |
| ReadCycle.EmittedHostsArePrefix | plugin/collectd/wire_probe.py:438-513 | the hosts emitted are a prefix of the configured list, three values each, under the host's series; each is looked up with its own port or else the default one |
| ReadCycle.EmittedStatistics | plugin/collectd/wire_probe.py:494-513 | a reading is emitted exactly when there is a sample: the smallest, or the mean; the standard deviation around the mean exactly from two samples on |
| ReadCycle.EmittedSpreadIsHonest | plugin/collectd/wire_probe.py:494-513 | the emitted standard deviation bounds the gap between the emitted minimum and the mean it replaces: its square is at most n - 1 times the square of the deviation |
| Plugin.ConfiguredIsOk | plugin/collectd/wire_probe.py:325-336 | a configuration entry keeps all hosts and their order, adds a requested host and never repeats one |
| Plugin.ConfiguredAllSpec | plugin/collectd/wire_probe.py:325-336 | after any blocks the texts listed are exactly the earlier ones and those asked for, each once, earlier ones first |
| Plugin.LabelCount | plugin/collectd/wire_probe.py:397-407 | there are as many labels as hosts if and only if no two hosts share one |
| Plugin.CheckHost | plugin/collectd/wire_probe.py:398-407 | one more host adds one label or one warning |
| Plugin.Plugin.ConfigCb | plugin/collectd/wire_probe.py:319-376 | after any blocks the hosts are those asked for, without repeats, and each setting is the last number given that was in its range |
| Plugin.SettingsAreLastAsked | plugin/collectd/wire_probe.py:338-373 | after any nodes each of the four settings is the last value asked for that was in its range, or unchanged if there was none |
| Plugin.Plugin.WarnOnLabelCollisions | plugin/collectd/wire_probe.py:388-407 | as many warnings as hosts minus distinct labels, silence if and only if all labels differ, and each warning names two different Host values with one label |
| Plugin.SpelledOutPortCollides | plugin/collectd/wire_probe.py:388-407 | hosts `name_port` and `name:port`, as `db_9999` and `db:9999`, bring one warning |
| Plugin.TwoPortsDoNotCollide | plugin/collectd/wire_probe.py:379-385 | two ports of one host, as `db:5432` and `db:6543`, bring none |
| Plugin.Plugin.PreferredAddress | plugin/collectd/wire_probe.py:111-122 | updates the key's entry as `Prefer` does and returns its selection |
| Plugin.Plugin.RecordOutcome | plugin/collectd/wire_probe.py:125-148 | updates the key's entry as `Record` does; nothing for an empty answer |
| Plugin.Plugin.TakeSamples | plugin/collectd/wire_probe.py:462-473 | makes exactly the attempts the budget allows and collects their readings |
| Plugin.Plugin.VisitHost | plugin/collectd/wire_probe.py:438-513 | resolve, pick, probe, record and report one host |
| Plugin.Plugin.VisitHosts | plugin/collectd/wire_probe.py:438-513 | visits hosts in order until the budget is gone |
| Plugin.Plugin.Report | plugin/collectd/wire_probe.py:477-513 | drop rate, aggregate and spread from the samples and the attempts counted |
| Plugin.Plugin.ReadCb | plugin/collectd/wire_probe.py:419-513 | the callback's visits, emitted values, selection table and end time are those of `Outcome`, which the `ReadCycle` lemmas are about, and it joins the object's history of callbacks |
| Plugin.Plugin.KeysStayApart | plugin/collectd/wire_probe.py:58-65 | after any configuration and any callbacks each key's entry is what the selection machine makes of that key's own reads |
| Callbacks.CallbackReads | plugin/collectd/wire_probe.py:438-475 | one callback takes each key through its own reads, in order |
| Callbacks.TableIsReadRun | plugin/collectd/wire_probe.py:58-65 | after any callbacks over any hosts each key's entry is a run of the selection machine on that key alone |
| Callbacks.CallbackRecovers | plugin/collectd/wire_probe.py:438-475 | when a key's answers hold one set of n addresses without repeats and some answer, a visit after 5(n-1) reads of the key picks a live address and gets a sample |
| Callbacks.SixthCallbackGetsASample | plugin/collectd/wire_probe.py:438-475 | with a dead address listed before a live one, every callback from the sixth on picks the live one and gets a sample |

## Left out

- Foreign calls (`getaddrinfo`, `connect`, `getsockopt`, `gethostname`, UDP and standard output): only their outcomes and durations enter, as inputs.
- The Exec destination's own write and flush (`src/exporter/collectd.rs:101-108`): a single write to a stream with no recovery; its broken pipe is an input of the probe loop.
- io_uring memory, unsafe pointers and the kernel scheduler: descriptors are numbers in a multiset, and a completion belongs to an operation in flight.
- Endless loops: each runs over a finite script of any length; that a loop never returns by itself is not stated.
- Float text: assumed to be at most 24 bytes free of delimiters, one text per value; what `ryu` prints and IEEE 754 rounding are not modelled, and statistics, times and the announced seconds are over the reals. The square root is a parameter of the object, required to be the non-negative root where a statement depends on it.
- AcceptLoop.DescriptorsAreConserved: whether the kernel releases a descriptor whose close reported an error is an input; Linux does for most errors.
- Exporters.CollectdExporter.FlushLine: covers the Unix-socket destination; the Exec destination, a single write and flush, is left out as said above.
- HostText.ParsePort: reads strict decimal ports; Python's `int` also takes signs, spaces and underscores.
- Durations.IntervalRoundTrip: whole seconds with the `s` suffix are a separate lemma, since a number of milliseconds need not be whole seconds.
- Agreement.PluginAgreesWithProbe: asks for one fixed, repeat-free answer set of two or more and for reads that reach a connect attempt; on changing answer sets the two differ anyway, since the probe resolves on the fifth failure and the plugin in every cycle.
- SortKeys.KeysPart: models the keys for addresses that differ in their last number only; families, ports and other parts of an address are equal there.
- UdsSender.NoTornFrame: asks that reconnects succeed; `UdsSender.RecoversExactly` is the exact condition.
- Rotation.RunProbe: list, address and countdown are local values passed through the helper methods rather than mutable references, and one cycle is split into `ProbeOnce` and `EndOfCycle`.
- Plugin.Plugin.ReadCb: the one body of the source is split into `VisitHosts`, `VisitHost`, `TakeSamples` and `Report`; an exception escaping from the creation of a socket is not modelled.
- Plugin.Plugin.VisitHost: nor is one here.
- Plugin.Plugin.ConfigCb: numbers arrive already parsed, as integers and reals, and the mode in lower case. The text `nan` passes the range test of `Timeout` (`plugin/collectd/wire_probe.py:351`) and is stored; no real number stands for it, so neither the contract nor `InRange` covers that setting.
- Decoding the kernel's handshake time from the `TCP_INFO` block: three guards around one number; a reading is an opaque real.
- Exporter dispatch, export destinations, argument plumbing, help and log wording: no properties beyond their text.
- The selection table's growth over removed hosts, the install scripts, the systemd unit and the configuration file.
