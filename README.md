# metricq-source-modbus in Dafny

A model of the core of `metricq-source-modbus`, the bridge that polls Modbus
devices over TCP and republishes their input registers as metricq metric
streams. It covers:

- **The configuration schema** (`config_model.dfy`). A configuration
  document is a JSON value. Parsing it accepts exactly the documents that
  describe a valid configuration:
  - metric, group and host records forbid extra fields;
  - the source record ignores extra fields;
  - addresses are non-negative, ports are positive and default to 502;
  - metric, group and host lists are non-empty;
  - intervals are positive numbers or strings.
- **Building the bridge's objects** (`construction.dfy`). This covers:
  - `combine_name` and the metric descriptions;
  - the default chunk size;
  - a group's interval, its base address and register count;
  - expanding host entries into hosts, and the errors that stop the build.
- **Declaring metadata** (`declaration.dfy`). The dictionary of metric
  metadata handed to the metricq manager, with the last occurrence of a
  name winning.
- **The polling loop of a metric group** (`scheduler.dfy`, `dedup.dfy`,
  `metric_group.dfy`). This covers:
  - the deadlines aligned to the sampling interval;
  - catching up on missed deadlines;
  - the double-sample filter;
  - the values each metric sends from the big-endian packed register buffer
    (`registers.dfy`).
- **The source controller** (`controller.dfy`). This covers:
  - reconfiguration: stop the running generation of host tasks, rebuild the
    hosts, declare their metrics, start a new generation;
  - shutdown;
  - the assertions that guard both.
- **Device strings** (`device_strings.dfy`). This covers:
  - reading a string from the device's registers;
  - the `StringReplacer` that sanitizes the strings and substitutes them
    into descriptions.

Time is an integer number of nanoseconds, as in metricq's `Timestamp` and
`Timedelta`. Parsing an interval (`Timedelta.from_s`, `from_string`) is a
parameter `resolve`. Hostlist expansion (`expand_hostlist`) is a parameter
`expand`. Both return a value or the error they raise, and the model
carries that error to where the code raises it. The clock readings and the register reads of the polling loop are
supplied as a sequence of cycles. The device's answers to string requests
are a function `reply`.

Points where the code behaves differently than one might expect:

- The default chunk size for intervals below one second is
  `1s // interval`, which rounds down. It is not rounded up.
- A host's `hosts` and `names` fields are single strings that are expanded.
  The schema has no list form, and it has no `descriptions` or `strings`
  field.
- Device strings are always read from slave 1 at register 25500. The host's
  slave id and any configured address are ignored. See
  `StringRequestIgnoresSlaveAndAddress`.
- When a new configuration fails to build, no generation is left running,
  because the old one was already stopped (`ConfigErrorLeavesNoGeneration`).
  This includes a group interval or a hostlist that cannot be parsed. A
  source interval that cannot be parsed, by contrast, raises before the stop,
  so the old generation keeps running (`UnparseableIntervalChangesNothing`).
- When declaring the metrics fails, the new hosts are kept without tasks.
  The same happens when a group with metrics has a zero interval: computing
  the rate `1 / interval.s` for the declaration raises `ZeroDivisionError`
  after the hosts were assigned. After that,
  every later valid configuration whose source interval parses, and the
  shutdown, fail the assertion in `_stop_host_tasks`
  (`FailedDeclarationBlocksReconfiguration`).
- A `metrics` object that repeats a name keeps one metric under that name,
  described by the name's last value, as the Python dict built from the
  document does (`ParseMetrics`).

## Model

| member | source | states |
|---|---|---|
| Common.FloorDiv | metricq_source_modbus/source.py:105 | Python's `//` rounds toward negative infinity: `q*b <= a < q*b + b` for a positive divisor, and the mirror image for a negative one |
| Common.MapResults | metricq_source_modbus/source.py:151-159 | building a list whose elements may raise: on success, element `i` is `f(xs[i])`; it fails exactly when some element fails |
| Common.MapResultsFirstError | metricq_source_modbus/source.py:151-159 | the error raised is that of the first element that fails |
| Common.ConcatResults | metricq_source_modbus/source.py:300-304 | `yield from` over a list whose elements may raise: fails exactly when some element fails |
| Common.ConcatResultsFirstError | metricq_source_modbus/source.py:300-304 | the error raised is that of the first element that fails |
| Common.ConcatResultsSplit | metricq_source_modbus/source.py:300-304 | what element `k` contributes sits, in order, between what the elements before and after it contribute |
| Text.TrimStart | metricq_source_modbus/source.py:57 | `lstrip`: the result is a suffix; every dropped character is in the set; the first kept character is not |
| Text.TrimEnd | metricq_source_modbus/source.py:56 | `rstrip`: the result is a prefix; every dropped character is in the set; the last kept character is not |
| Text.ReplaceAll | metricq_source_modbus/read_strings.py:32 | `str.replace`, scanning left to right over non-overlapping occurrences; ReplaceCharPointwise, ReplaceAllPattern and ReplaceAllAppend state what it produces, and ReplaceAllRemoves, ReplaceAllKeepsAbsent and ReplaceAllIdentity what it guarantees |
| Text.ReplaceCharPointwise | metricq_source_modbus/read_strings.py:32 | replacing one character by one character keeps the length; every occurrence of the character becomes the replacement and every other character stays in its place |
| Text.ReplaceAllPattern | metricq_source_modbus/read_strings.py:32 | the pattern on its own becomes the replacement |
| Text.ReplaceAllAppend | metricq_source_modbus/read_strings.py:32 | replacing in `a + b` is replacing in `a` and in `b` separately, as long as no occurrence starts in `a` and ends in `b` |
| Text.ReplaceAllMatchStep | metricq_source_modbus/read_strings.py:32 | a text that starts with the pattern has it replaced first, whatever text follows |
| Text.ReplaceAllKeepStep | metricq_source_modbus/read_strings.py:32 | a text that does not start with the pattern keeps its first character, whatever text follows, unless an occurrence begins at the start of the whole |
| Text.NoneAcrossShift | metricq_source_modbus/read_strings.py:32 | dropping characters from the front of the first part keeps the two parts free of an occurrence across them |
| Text.OccursAtShift | metricq_source_modbus/read_strings.py:32 | an occurrence in a suffix is the occurrence in the whole text, shifted by where the suffix starts |
| Text.Strip | metricq_source_modbus/read_strings.py:32 | `strip()` leaves no whitespace at either end, never lengthens the text, and is a contiguous piece of its input with only whitespace cut off before and after it |
| Text.ReplaceAllRemoves | metricq_source_modbus/read_strings.py:32 | after `replace(pat, rep)` with a 1- or 2-character pattern and a replacement sharing no character with it, the pattern occurs nowhere |
| Text.ReplaceAllKeepsAbsent | metricq_source_modbus/read_strings.py:32 | `replace` introduces no character that is absent from both the text and the replacement |
| Text.ReplaceAllIdentity | metricq_source_modbus/read_strings.py:32 | `replace` leaves text without an occurrence unchanged |
| Text.StripIsSlice | metricq_source_modbus/read_strings.py:32 | `strip()` returns a contiguous piece of its input |
| Text.TrimPiece | metricq_source_modbus/read_strings.py:32 | trimming both ends leaves a piece of the input with only dropped characters before and after it |
| Registers.Pack | metricq_source_modbus/source.py:239 | `struct.pack(">nH")`: two bytes per register, the high byte at `2i` and the low byte at `2i+1` |
| Registers.Unpack | metricq_source_modbus/source.py:239 | reading the registers back from a buffer: half as many registers as bytes, and the inverse of Pack as UnpackPack and PackUnpack state |
| Registers.UnpackPack | metricq_source_modbus/source.py:239 | packing loses nothing: unpacking the buffer gives back the registers |
| Registers.PackUnpack | metricq_source_modbus/source.py:239 | every even-length buffer is the packing of its registers |
| Registers.Window | metricq_source_modbus/source.py:137 | the four bytes `unpack_from(">f", buffer, offset)` reads are `buffer[offset..offset+4]` |
| Registers.Word | metricq_source_modbus/source.py:137 | the big-endian 32-bit pattern of four bytes is below 2^32 |
| Registers.WindowOfPack | metricq_source_modbus/source.py:135-137 | the value at register `k` is the pattern `regs[k] * 2^16 + regs[k+1]`: the high register comes first |
| Scheduler.SamplingInterval | metricq_source_modbus/source.py:186-190 | a double-sampling group polls at twice its interval; otherwise at the interval itself |
| Scheduler.FirstDeadline | metricq_source_modbus/source.py:198-201 | the first deadline is the clock rounded down to a multiple of the sampling interval: `d <= now < d + s` and `d % s == 0` |
| Scheduler.AdvanceIsMultiple | metricq_source_modbus/source.py:217 | moving the deadline by `k` intervals adds `s * k` |
| Scheduler.NextDeadline | metricq_source_modbus/source.py:205-217 | the next deadline: one interval later, or past a missed deadline the first aligned time after the clock; NextDeadlineAdvances, NextDeadlineAligned and NextDeadlineSleep state its properties |
| Scheduler.NextDeadlineAdvances | metricq_source_modbus/source.py:205-217 | each step moves the deadline forward by a whole, positive number of intervals |
| Scheduler.NextDeadlineAligned | metricq_source_modbus/source.py:205-217 | aligned deadlines stay aligned |
| Scheduler.NextDeadlineSleep | metricq_source_modbus/source.py:205-219 | the sleep is never negative; after a missed deadline it is in `(0, s]`; without a miss the deadline moves by exactly one interval |
| Scheduler.Deadlines | metricq_source_modbus/source.py:198-219 | the loop's deadlines for a run, one per clock reading |
| Scheduler.DeadlinesAligned | metricq_source_modbus/source.py:198-219 | over any run, every deadline is aligned, is at least the clock reading of its cycle, and lies at least one interval after the previous one |
| Dedup.DedupStep | metricq_source_modbus/source.py:246-251 | without double sampling, publish and leave the memory alone; with it, drop exactly a buffer equal to the remembered one and clear the memory; otherwise publish and remember the buffer |
| Dedup.MemoryAfter | metricq_source_modbus/source.py:247-251 | the filter's `_previous_buffer` after a run of buffers; MemoryIsLastPublished states what it holds |
| Dedup.Publishes | metricq_source_modbus/source.py:246-255 | one publish decision per cycle |
| Dedup.SingleSamplePublishesAll | metricq_source_modbus/source.py:246 | without double sampling every cycle publishes and the memory never changes |
| Dedup.MemoryIsLastPublished | metricq_source_modbus/source.py:247-251 | the memory holds the last buffer if it was published, and nothing if it was dropped |
| Dedup.DroppedExactlyRepeats | metricq_source_modbus/source.py:247-251 | a cycle is dropped if and only if its buffer equals the previous one and the previous one was published, so no two cycles in a row are dropped |
| Dedup.ThreeIdenticalBuffers | metricq_source_modbus/source.py:247-251 | three equal buffers in a row: publish, drop, publish |
| ConfigModel.PositiveIntOr | metricq_source_modbus/config_model.py:63 | a `PositiveInt` field with a default is positive |
| ConfigModel.LookupAt | metricq_source_modbus/source.py:349 | a record field is read from the member with its name; when a name is repeated, the last member wins, as in the Python dictionary the document becomes |
| ConfigModel.OptionalInterval | metricq_source_modbus/config_model.py:36 | an accepted interval is absent, a positive number or a string |
| ConfigModel.ParseMetric | metricq_source_modbus/config_model.py:16-27 | an accepted metric record is valid (its address is not negative) |
| ConfigModel.Store | metricq_source_modbus/config_model.py:42 | assigning to a dict: the names stay distinct, an existing name keeps its place and takes the new value, a new name is added at the end, and no other entry changes |
| ConfigModel.DictItems | metricq_source_modbus/config_model.py:42 | the members of a JSON object as the dict they are loaded into: distinct names, exactly the names of the object, each with the value of its last occurrence; without repeated names, the members themselves |
| ConfigModel.DictItemsStep | metricq_source_modbus/config_model.py:42 | storing the last member keeps the names and the last values of the members so far |
| ConfigModel.ParseMembers | metricq_source_modbus/config_model.py:42 | items are accepted exactly when every value is a valid metric; then item by item, in order, under the same names |
| ConfigModel.ParseMetrics | metricq_source_modbus/config_model.py:42 | the `metrics` object as a `dict[str, Metric]`: accepted exactly when the last value of every name is a valid metric; then each name once, exactly the names of the object, each with the metric its last value describes |
| ConfigModel.ParseMembersNames | metricq_source_modbus/config_model.py:42 | parsed items keep the item names, so they stay distinct |
| ConfigModel.MembersNames | metricq_source_modbus/config_model.py:42 | parsed items have distinct names, exactly those of the items |
| ConfigModel.ParseMetricsAccepts | metricq_source_modbus/config_model.py:42 | when the dict's items are accepted, the last value of every name is a valid metric and each parsed metric is the one its name's last value describes |
| ConfigModel.ParseMetricsRejects | metricq_source_modbus/config_model.py:42 | when the dict's items are rejected, some name's last value is not a valid metric |
| ConfigModel.LookupPresent | metricq_source_modbus/config_model.py:42 | every name of an object has a value in the dict built from it |
| ConfigModel.ParseGroup | metricq_source_modbus/config_model.py:30-57 | an accepted group is valid: a non-empty metrics table with distinct names and a valid interval |
| ConfigModel.ParseGroups | metricq_source_modbus/config_model.py:74 | a group list is accepted exactly when every element is accepted; then element by element, in order |
| ConfigModel.ParseHost | metricq_source_modbus/config_model.py:60-75 | an accepted host is valid: a positive port and a non-empty list of valid groups |
| ConfigModel.ParseHosts | metricq_source_modbus/config_model.py:86 | a host list is accepted exactly when every element is accepted; then element by element, in order |
| ConfigModel.ParseSource | metricq_source_modbus/config_model.py:79-86 | an accepted document is a valid configuration |
| ConfigModel.MetricRoundTrip | metricq_source_modbus/config_model.py:16-27 | every valid metric is accepted back from its own record |
| ConfigModel.MetricsRoundTrip | metricq_source_modbus/config_model.py:42 | every table of valid metrics with distinct names is accepted back from its own object |
| ConfigModel.MembersRoundTrip | metricq_source_modbus/config_model.py:42 | the items of a table of valid metrics are accepted back item by item |
| ConfigModel.ParseMembersCons | metricq_source_modbus/config_model.py:42 | one more accepted item in front is accepted in front |
| ConfigModel.GroupRoundTrip | metricq_source_modbus/config_model.py:30-57 | every valid group is accepted back from its own record |
| ConfigModel.GroupsRoundTrip | metricq_source_modbus/config_model.py:74 | every list of valid groups is accepted back |
| ConfigModel.HostRoundTrip | metricq_source_modbus/config_model.py:60-75 | every valid host is accepted back from its own record |
| ConfigModel.HostsRoundTrip | metricq_source_modbus/config_model.py:86 | every list of valid hosts is accepted back |
| ConfigModel.SourceRoundTrip | metricq_source_modbus/config_model.py:79-86 | every valid configuration is accepted back from its own document; with ParseSource's contract, the accepted documents are exactly the valid configurations |
| ConfigModel.MetricAddressRequired | metricq_source_modbus/config_model.py:17 | an accepted metric has an integer `address` field that is not negative |
| ConfigModel.MetricDefaults | metricq_source_modbus/config_model.py:19-23 | a metric with only an address gets an empty description, no unit and no chunk size |
| ConfigModel.StrictRecordsRejectUnknownFields | metricq_source_modbus/config_model.py:9 | a field outside the schema rejects a metric, a group and a host |
| ConfigModel.EmptyMetricsRejected | metricq_source_modbus/config_model.py:45-49 | a group with an empty `metrics` object is rejected |
| ConfigModel.EmptyGroupsRejected | metricq_source_modbus/config_model.py:74 | a host with an empty `groups` list is rejected |
| ConfigModel.EmptyHostsRejected | metricq_source_modbus/config_model.py:86 | a source with an empty `hosts` list is rejected |
| ConfigModel.HostDefaults | metricq_source_modbus/config_model.py:60-75 | a host without `port` and `description` gets port 502 and an empty description |
| ConfigModel.GroupDefaults | metricq_source_modbus/config_model.py:30-57 | a group without `interval` and `double_sample` has no interval of its own and samples once |
| ConfigModel.SourceIgnoresUnknownFields | metricq_source_modbus/config_model.py:78-79 | extra fields of the source record, such as the store's `_ref` and `_rev`, change nothing |
| ConfigModel.MinimalDocumentAccepted | tests/test_config.py:36-59 | the minimal document, for any host pattern, names, slave id, metric name and address, is accepted with the expected defaults |
| ConfigModel.MinimalHostAccepted | tests/test_config.py:36-59 | the host of the minimal document is accepted with port 502 and an empty description |
| ConfigModel.MinimalGroupAccepted | tests/test_config.py:36-59 | the group of the minimal document is accepted with no interval of its own and without double sampling |
| ConfigModel.MisspeltFieldRejected | tests/test_config.py:123-145 | a metric with the misspelt field `descryption` is rejected |
| ConfigModel.MissingOrEmptyAddressRejected | tests/test_config.py:148-162 | a metric without an address, or with the empty string as its address, is rejected |
| Construction.CombineName | metricq_source_modbus/source.py:55-62 | the name alone when the prefix is only dots; otherwise the prefix without trailing dots, one dot, then the name without leading dots |
| Construction.CombineNameIgnoresDotsAtJoin | metricq_source_modbus/source.py:55-62 | extra dots at the join point make no difference |
| Construction.ExtractInterval | metricq_source_modbus/source.py:65-80 | no interval field means no interval; otherwise the parsed duration, or the error its parsing raises |
| Construction.GroupInterval | metricq_source_modbus/source.py:166-171 | the group's own interval as parsed (or its parse error); without one the default; `missing interval` exactly when neither is set |
| Construction.MetricDescription | metricq_source_modbus/source.py:98-100 | the metric's description, preceded by the host description and a space when that is not empty |
| Construction.ChunkSize | metricq_source_modbus/source.py:102-109 | the configured chunk size wins; below one second it defaults to `1s // interval`; at one second or more there is none; a zero interval divides by zero |
| Construction.MinAddress | metricq_source_modbus/source.py:176 | `base_address`, the lowest metric address; MinAddressIsMinimum states that it is the minimum |
| Construction.EndAddress | metricq_source_modbus/source.py:177-180 | `max(address + num_registers)`; EndAddressIsMaximum states that it is the maximum |
| Construction.BuildMetric | metricq_source_modbus/source.py:88-112 | fails exactly on a name that is empty after stripping dots, or on a failed chunk size; otherwise it has the combined name, the address, the description, the unit and the chunk size |
| Construction.BuildMetrics | metricq_source_modbus/source.py:151-159 | metric `i` is the metric built from entry `i`; fails exactly when some entry fails |
| Construction.MinAddressIsMinimum | metricq_source_modbus/source.py:176 | `base_address` is the minimum address: no metric lies below it and some metric lies at it |
| Construction.EndAddressIsMaximum | metricq_source_modbus/source.py:177-180 | the end address is the maximum of `address + 2` |
| Construction.WindowsInsideBuffer | metricq_source_modbus/source.py:134-137 | every metric's offset is non-negative and its 4-byte window lies inside the group's buffer |
| Construction.BuildGroup | metricq_source_modbus/source.py:161-180 | fails with the interval's error when there is no usable interval; otherwise fails exactly when building the metrics fails, with their error; a built group is well formed, has that interval, the configured double sampling and the metrics built from its entries, and its register block runs from the lowest address to the end address |
| Construction.BuildGroups | metricq_source_modbus/source.py:274-276 | group `i` is the group built from entry `i`; fails exactly when some entry fails; all groups are well formed |
| Construction.HostOf | metricq_source_modbus/source.py:259-276 | succeeds exactly when the host's groups can be built, and otherwise raises their error; a host takes the pair's address and name, the entry's port, slave id and description, and exactly the groups built from the entry with the name as prefix |
| Construction.BuildHostPairs | metricq_source_modbus/source.py:296-297 | fails exactly when the host of some (host, name) pair fails; otherwise host `i` is the host built from pair `i`, one per pair, in order |
| Construction.ExpandHostConfig | metricq_source_modbus/source.py:286-297 | an error of expanding the hosts, then of expanding the names, is raised; expanded lists of different lengths raise `Number of names and hosts differ`; otherwise the result is one host per pair, as BuildHostPairs states, so one host per expanded address |
| Construction.BuildHosts | metricq_source_modbus/source.py:299-304 | a successful build has as many hosts as the entries expand to, all well formed |
| Construction.BuildHostsFails | metricq_source_modbus/source.py:299-304 | building fails if and only if some host entry fails on its own |
| Construction.BuildHostsIsConcat | metricq_source_modbus/source.py:300-304 | building the hosts concatenates, in order, what each host entry expands to |
| Construction.BuildHostsSplit | metricq_source_modbus/source.py:300-304 | in a successful build, the hosts of entry `k` come, in order, after those of every earlier entry and before those of every later one |
| Construction.BuildHostsFirstError | metricq_source_modbus/source.py:299-304 | the error is that of the first entry that fails |
| Declaration.MetricMetadata | metricq_source_modbus/source.py:123-132 | a metric's metadata: its description and its group's interval, and a unit only when the unit is set and not empty |
| Declaration.GroupEntries | metricq_source_modbus/source.py:182-184 | one (name, metadata) pair per metric of the group, in order |
| Declaration.HostEntries | metricq_source_modbus/source.py:306-312 | a host's pairs, group after group; HostEntriesContain states that every metric of every group is among them |
| Declaration.AllEntries | metricq_source_modbus/source.py:357-363 | the pairs of all hosts, host after host; AllEntriesContain states that every metric of every host is among them |
| Declaration.ToMap | metricq_source_modbus/source.py:357-363 | the dictionary comprehension; ToMapKeys and ToMapLastWins state its keys and that the last pair for a name wins |
| Declaration.DeclaredMetadata | metricq_source_modbus/source.py:357-363 | the dictionary passed to `declare_metrics`; EveryMetricDeclared states that every metric of every host is in it |
| Declaration.ToMapKeys | metricq_source_modbus/source.py:357-363 | the declared names are exactly the names among the pairs |
| Declaration.ToMapLastWins | metricq_source_modbus/source.py:357-363 | a name that occurs several times keeps the metadata of its last pair |
| Declaration.HostEntriesContain | metricq_source_modbus/source.py:306-312 | every metric of every group of a host has its pair in the host's metadata |
| Declaration.AllEntriesContain | metricq_source_modbus/source.py:357-363 | every metric of every host has its pair in the list that is declared |
| Declaration.EveryMetricDeclared | metricq_source_modbus/source.py:357-363 | every metric of every host is declared |
| Declaration.RatesDefinedEntries | metricq_source_modbus/source.py:123-132 | the metadata can be computed (no `1 / interval.s` with a zero interval) exactly when every pair to be declared carries a non-zero interval |
| Declaration.AllEntriesNonZero | metricq_source_modbus/source.py:357-363 | when the rates are defined, every pair to be declared carries a non-zero interval |
| Declaration.HostEntriesNonZero | metricq_source_modbus/source.py:306-312 | a host's pairs carry non-zero intervals when its groups with metrics do |
| MetricGroups.Sends | metricq_source_modbus/source.py:253-255 | one value per metric of the group, in order, named after the metric and stamped with the cycle's timestamp |
| MetricGroups.SendsDecodeRegisters | metricq_source_modbus/source.py:134-139 | each metric sends the two registers at its own address, high register first |
| MetricGroups.CycleSends | metricq_source_modbus/source.py:246-255 | what one cycle sends: the values of every metric when the filter publishes, nothing otherwise |
| MetricGroups.Run | metricq_source_modbus/source.py:198-255 | the polling loop over a run of cycles: one deadline and one send list per cycle; RunDeadlines, RunMemory and RunSends tie it to the scheduler and the filter |
| MetricGroups.RunDeadlines | metricq_source_modbus/source.py:198-219 | the loop's deadlines are the scheduler's deadlines for the cycles' clock readings |
| MetricGroups.RunMemory | metricq_source_modbus/source.py:246-251 | the loop's `_previous_buffer` is the filter's memory after the run |
| MetricGroups.RunSends | metricq_source_modbus/source.py:246-255 | each cycle sends every metric exactly when the filter publishes, and sends nothing otherwise |
| MetricGroups.MetricGroup.constructor | metricq_source_modbus/source.py:149 | a new group remembers no buffer |
| MetricGroups.MetricGroup.Update | metricq_source_modbus/source.py:230-255 | a read of the wrong length fails the assertion and changes nothing; otherwise the filter decides, the memory is updated, and the metrics send their values or nothing |
| MetricGroups.MetricGroup.Step | metricq_source_modbus/source.py:202-219 | one pass of the loop body extends the tracked run by one cycle, or stops on a failed read |
| MetricGroups.MetricGroup.Task | metricq_source_modbus/source.py:192-228 | the deadlines, sends and memory are those of `Run` over the cycles completed; it stops after the first cycle whose stop future is set, or before the first failed read |
| DeviceStrings.StringRequest | metricq_source_modbus/read_strings.py:15-17 | the request goes to slave 1 at register 25500 and asks for `size / 2` registers, which is `size` bytes for an even size |
| DeviceStrings.StringRequestIgnoresSlaveAndAddress | metricq_source_modbus/read_strings.py:14-17 | only the size decides the request; the slave id argument and the configured address do not |
| DeviceStrings.FindNul | metricq_source_modbus/read_strings.py:20 | `find(b"\x00")`: -1 exactly when there is no zero byte; otherwise the index of the first zero byte |
| DeviceStrings.TruncateAtNul | metricq_source_modbus/read_strings.py:20-21 | the result is a prefix with no zero byte; it is the whole buffer when there is no zero byte, and it is followed by a zero byte when shorter |
| DeviceStrings.DecodeAscii | metricq_source_modbus/read_strings.py:22 | `decode("ASCII", errors="ignore")` keeps only ASCII characters and never produces NUL from zero-free bytes |
| DeviceStrings.DecodeAsciiAppend | metricq_source_modbus/read_strings.py:22 | decoding works byte by byte: it distributes over concatenation |
| DeviceStrings.DecodeAsciiKeepsAscii | metricq_source_modbus/read_strings.py:22 | bytes below 0x80 are all kept, in order, as the characters with the same codes |
| DeviceStrings.DecodeAsciiDropsHigh | metricq_source_modbus/read_strings.py:22 | bytes of 0x80 and above are all dropped |
| DeviceStrings.Sanitize | metricq_source_modbus/read_strings.py:29-32 | `_sanitize_string`: quotes, backticks and `Â´` become dots, then whitespace is stripped; SanitizeText and SanitizeMojibake state what it produces, SanitizeClean, SanitizeKeepsClean and SanitizeIdempotent what it guarantees |
| DeviceStrings.QuotesReplaced | metricq_source_modbus/read_strings.py:32 | the first two replacements together turn every apostrophe and backtick into a dot and keep every other character in its place |
| DeviceStrings.NoMojibakeUnchanged | metricq_source_modbus/read_strings.py:32 | the third replacement leaves text without a `Â` unchanged |
| DeviceStrings.MojibakeBetween | metricq_source_modbus/read_strings.py:32 | one `Â´` between two pieces without a `Â` becomes one dot, and the pieces stay as they are |
| DeviceStrings.SanitizeText | metricq_source_modbus/read_strings.py:29-32 | for text without `Â´`: apostrophes and backticks become dots, every other character is kept in its place, and only the whitespace at both ends is stripped |
| DeviceStrings.SanitizeMojibake | metricq_source_modbus/read_strings.py:29-32 | one `Â´` between two pieces without one becomes a single dot, the pieces are sanitized as in SanitizeText, and the whole is stripped |
| DeviceStrings.ReadString | metricq_source_modbus/read_strings.py:14-22 | an odd size fails the first assertion, and a reply of the wrong length fails the second; otherwise the string has at most `size` ASCII characters and no NUL |
| DeviceStrings.ReadStringRoundTrip | metricq_source_modbus/read_strings.py:14-22 | an ASCII text that the device stores zero-padded to the configured size is read back unchanged |
| DeviceStrings.SanitizeClean | metricq_source_modbus/read_strings.py:29-32 | a sanitized string contains no `'`, no backtick and no `Â´`, and has no whitespace at either end |
| DeviceStrings.SanitizeKeepsClean | metricq_source_modbus/read_strings.py:29-32 | a clean string is left as it is |
| DeviceStrings.SanitizeIdempotent | metricq_source_modbus/read_strings.py:29-32 | sanitizing twice is sanitizing once |
| DeviceStrings.NewReplacer | metricq_source_modbus/read_strings.py:26-27 | the replacer keeps the same keys and stores every value sanitized |
| DeviceStrings.NewReplacerClean | metricq_source_modbus/read_strings.py:26-27 | every value a replacer holds is clean |
| DeviceStrings.Substitute | metricq_source_modbus/read_strings.py:34-37 | an empty replacer returns the description unchanged; otherwise the description goes through `safe_substitute` with the mapping |
| DeviceStrings.EmptyReplacerIsIdentity | metricq_source_modbus/read_strings.py:34-36 | the replacer built from an empty table is the identity on descriptions |
| DeviceStrings.Collect | metricq_source_modbus/read_strings.py:48-51 | the comprehension succeeds exactly when every read succeeds |
| DeviceStrings.CollectKeys | metricq_source_modbus/read_strings.py:48-51 | its keys are exactly the keys of the pairs |
| DeviceStrings.CollectHolds | metricq_source_modbus/read_strings.py:48-51 | with distinct keys, every key holds its own value |
| DeviceStrings.CollectFirstError | metricq_source_modbus/read_strings.py:48-51 | the first failing read decides the error |
| DeviceStrings.StringReads | metricq_source_modbus/read_strings.py:48-51 | pair `i` is key `i` together with the outcome of reading string `i`, with the request for that string |
| DeviceStrings.ReadStrings | metricq_source_modbus/read_strings.py:40-55 | without a table, or with an empty one, it returns the empty replacer without connecting; otherwise it connects and succeeds exactly when every string can be read |
| DeviceStrings.ReadStringsHolds | metricq_source_modbus/read_strings.py:48-55 | after success, every key of the table maps to the sanitized string read for it |
| DeviceStrings.ReadStringsKeys | metricq_source_modbus/read_strings.py:48-55 | after success, the replacer's keys are exactly the keys of the table |
| DeviceStrings.ReadStringsFirstError | metricq_source_modbus/read_strings.py:48-51 | the first string that cannot be read decides the error raised |
| Controller.OnConfigConsistent | metricq_source_modbus/source.py:344-400 | reconfiguration and shutdown keep the stop future and the host task paired, in the same generation, with hosts |
| Controller.ApplyConsistent | metricq_source_modbus/source.py:350-365 | applying a valid configuration keeps the controller consistent |
| Controller.StopTasks | metricq_source_modbus/source.py:367-378 | `_stop_host_tasks` on the controller's state: the running generation is logged as stopped and forgotten with its hosts |
| Controller.CreateTasks | metricq_source_modbus/source.py:380-385 | `_create_host_tasks` on the state: the next generation, running the current hosts, is logged as started |
| Controller.OnConfigSpec | metricq_source_modbus/source.py:344-365 | `_on_config` on the state; OnConfigConsistent, InvalidDocumentChangesNothing, UnparseableIntervalChangesNothing and OnConfigApplies state its outcomes |
| Controller.Apply | metricq_source_modbus/source.py:350-365 | the rest of `_on_config`, including the `ZeroDivisionError` of `1 / interval.s` (source.py:127) raised while the declared dictionary is built; ApplySucceeds, ConfigErrorLeavesNoGeneration and FailedDeclarationBlocksReconfiguration state its outcomes |
| Controller.ShutdownSpec | metricq_source_modbus/source.py:394-400 | `task` after the stop: ShutdownStops states its outcome |
| Controller.InvalidDocumentChangesNothing | metricq_source_modbus/source.py:349 | a document the schema rejects changes nothing and raises a validation error |
| Controller.UnparseableIntervalChangesNothing | metricq_source_modbus/source.py:349-353 | a source interval that cannot be parsed raises its error before the old generation is stopped: nothing changes and the old tasks keep running |
| Controller.ApplySucceeds | metricq_source_modbus/source.py:350-365 | success exactly when any previous hosts have running tasks, every host was built, no metric sits in a group whose interval is zero (else `1 / interval.s` at source.py:127 raises) and the declaration goes through; then the old generation is stopped, the metrics of the new hosts are declared, and only then a new generation running those hosts starts |
| Controller.ConfigErrorLeavesNoGeneration | metricq_source_modbus/source.py:352-355 | hosts that cannot be built raise their error, after the old generation has been stopped, so nothing is left running |
| Controller.FailedDeclarationBlocksReconfiguration | metricq_source_modbus/source.py:349-383 | after a failed declaration, or a metadata computation that divides by a zero interval, the new hosts are kept without tasks and the matching error is raised; every later valid configuration then fails: with its interval's parse error and no change, or the assertion of `_stop_host_tasks` with only the default interval changed; the shutdown fails its assertion too |
| Controller.OnConfigApplies | metricq_source_modbus/source.py:349-355 | a valid document whose default interval parses is applied with that interval and the hosts built from it |
| Controller.HostsWithoutTasksFail | metricq_source_modbus/source.py:352-353 | hosts without running tasks fail the assertion of `_stop_host_tasks`, and only the default interval changes |
| Controller.ShutdownStops | metricq_source_modbus/source.py:394-400 | shutdown stops the running generation and forgets the hosts, or fails the assertion when no generation is running |
| Controller.ModbusSource.constructor | metricq_source_modbus/source.py:338-342 | a new source has no default interval, no hosts and no tasks |
| Controller.ModbusSource.StopHostTasks | metricq_source_modbus/source.py:367-378 | the running generation is told to stop, and the hosts, the stop future and the task are forgotten |
| Controller.ModbusSource.CreateHostTasks | metricq_source_modbus/source.py:380-385 | a new stop future and task are created for the next generation, which runs the current hosts |
| Controller.ModbusSource.OnConfig | metricq_source_modbus/source.py:344-365 | the new fields and the raised error are those of `OnConfigSpec` on the old fields, and the controller stays consistent |
| Controller.ModbusSource.Reconfigure | metricq_source_modbus/source.py:350-365 | the new fields and the raised error (including the division by a zero interval while the metadata is computed) are those of `Apply` on the old fields with the hosts built from the entries, and the controller stays consistent |
| Controller.ModbusSource.Shutdown | metricq_source_modbus/source.py:394-400 | the new fields and the raised error are those of `ShutdownSpec` on the old fields |

## Left out

- Floating point. The value a metric sends is the 32-bit pattern of its
  window (`Registers.Word`), not the IEEE 754 single it decodes to. The
  value of the `rate` entry of the metadata (`1 / interval.s`) is also left
  out; only its division by a zero interval is modelled (`RatesDefined`).
- Concurrency. `asyncio.gather` over hosts and groups, the sleep racing the
  stop future, and task cancellation are not modelled. A group's loop is a
  sequential run over supplied cycles, and each cycle says whether the stop
  future was set during its sleep.
- Network I/O. Opening and closing connections (`_connect_and_run`, the
  connection in `read_strings`) is not modelled. Register reads are
  supplied by the caller: the cycles of `Task`, `raw` for `ReadString`, and
  `reply` for `ReadStrings`.
- `Host.task`: the retry loop that reconnects every 10 seconds after a
  connection failure is not modelled, because it loops on I/O failures.
- `_run_host_tasks` is not modelled: it only gathers the host tasks.
- `expand_hostlist`, `Timedelta.from_s` and `Timedelta.from_string` are
  parameters that return a value or an error; `precise_string` is omitted. Metadata keeps the interval
  in nanoseconds.
- `string.Template.safe_substitute` is a parameter of `Substitute`.
- Pydantic's coercion is not modelled. For example, the address `"0"`
  becomes the integer 0 in pydantic but is rejected here: fields must have
  their declared JSON type. Errors carry no messages.
- `Host._parse_hosts` accepting a list is not modelled, because the schema
  only allows strings.
- The outcome of `declare_metrics` is a parameter (`declareFails`).
- Logging is not modelled.
- `MetricGroups.MetricGroup.Task`: the source's loop never ends by itself.
  The model runs over a finite sequence of cycles and requires a positive
  interval, which the schema guarantees only for intervals it parses
  itself.
- `Construction.ExtractInterval`: resolving a string or number to a
  duration is the parameter `resolve`, so the model states how its result
  or its error is passed on, not which duration a string denotes.
- `DeviceStrings.StringConfig` is not defined in the configuration schema.
  It is modelled with an address and a size only.
- `StringReplacer` is not used by `source.py`, so the hosts built by the
  controller do not substitute device strings into their descriptions.
