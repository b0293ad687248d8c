# Seastorm core, modelled in Dafny

Seastorm runs distributed programs on Seattle vessels and visualises what they
did. Each vessel writes a log of `send`, `receive` and `log` events stamped with
its own clock. This project models the data path from those logs to the
visualizer:

- **Log parsing** (`LogParser`). Parses one log into events (`eventsFromLog`,
  `eventFromString` in trace.js). Payload decoding and `Number(...)` are parameters.
- **Trace assembly** (`Assembly`). `traceFromLogs` builds the process registry and
  concatenates the logs' events. It drops sends to unknown processes.
- **Ordering** (`Resolver`, `Linking`, `OrderingProperties`, on top of `Events` and
  `Sorting`). `orderingFromTrace` sorts events by `(time, process id)` and checks
  local timestamps. It drops receives that match no sent event, then links each
  receive to the event it matched. The proofs cover:
  - when it fails;
  - what it keeps;
  - how the links and arrivals come out;
  - that the result does not depend on the input order.
- **Seattle helpers** (`Seattle`):
  - the argument checks of `call` and its parameter object (`objectFromLists`);
  - `parseVesselStatus`, proved to read back every entry of a node report;
  - `vesselId`.
- **Functional helpers** (`Functional`). `zip` and `get`, with `get` undoing `zip`.
- **XML-RPC** (`XmlDom`, `XmlRpcSerialize`, `XmlRpcParse`, `XmlRpcProperties`):
  - the serializer over an abstract element tree;
  - the parser of responses;
  - round-trip lemmas connecting the two;
  - the fault message;
  - how the members of nested structs are read, both as written (every `member` below a value, in `ParseValueAsWritten` and `ParseResponseAsWritten`) and corrected (a struct's own members, in `ParseValue` and `ParseResponse`).
- **Program errors** (`ProgramErrors`):
  - `latestException`;
  - the `Exception` log events `addErrorsToTrace` appends for terminated programs.

Event kinds are constructors of one `Event` datatype. Failures that the source
throws are `Result` values with one error constructor per cause. JavaScript
objects whose key order matters are sequences of pairs. Those whose key order
does not matter are maps. `localeCompare` is taken as code-point order.

## Model

| member | source | states |
|---|---|---|
| LogParser.DecodeField | trace.js:143-145 | A payload field decodes exactly when the decoder accepts it, to the decoded text; otherwise the error names the field. |
| LogParser.ParseLine | trace.js:87-141 | A parsed line becomes an event of the log's process with no arrival and the `Number` of field 1 as its time. Its kind is the one the first field names. A receive has no data or title; a send or log entry has data. An unknown first field, and only that, is the unknown-type error. |
| LogParser.ParseLineFields | trace.js:86-141 | A send's recipient is field 2; with exactly five fields its title and data are the decoded fields 3 and 4, otherwise it has no title and its data is field 3. A receive's departure is the `Number` of field 2 and its sender field 3. A log entry with exactly four fields has title and data from fields 2 and 3, otherwise data from field 2 and no title. A line of a known kind with too few fields is the missing-field error, and only such a line. An undecodable-payload error names a field of the line that does not decode. |
| LogParser.ParseLinesSpec | trace.js:65 | Lines are mapped in order, one event per line. Parsing fails exactly when some line fails, with the error of the first failing line. |
| LogParser.NonEmpty | trace.js:64 | Keeps every non-empty line and no empty one. A list without empty lines is unchanged. |
| LogParser.NonEmptyAppend | trace.js:64 | Filtering a concatenation filters each part in place, so the kept lines keep their order. |
| LogParser.NonEmptyCount | trace.js:64 | Each non-empty line is kept as often as it occurs; empty lines never. |
| LogParser.ParseLog | trace.js:61-84 | `eventsFromLog`. Its contract is stated by `ParseLogSpec` and `ParseLogProcess`. |
| LogParser.Uniq | trace.js:77 | `_.uniq` keeps every value, repeats none, and never grows the list. |
| LogParser.UniqKeepsAllIffDistinct | trace.js:73-79 | Deduplication keeps the length exactly when no timestamp repeats. This is the duplicate check, both directions. |
| LogParser.LogLines | trace.js:62-64 | The lines of a trimmed log are non-empty and hold no line break. |
| LogParser.ParseLogSpec | trace.js:61-84 | A log parses exactly when every line parses and no two events share a timestamp. The result is the parsed lines. A duplicate-timestamp error carries the log. |
| LogParser.ParseLogProcess | trace.js:92-124 | Every event of a parsed log belongs to that log's process and has no arrival. |
| LogParser.BlankLogHasNoEvents | trace.js:62-64 | An empty or blank log yields no events, not an error. |
| LogParser.ParseFormatLine | trace.js:87-141 | A line written for an event parses back to that event, given an encoder the decoder inverts. |
| LogParser.ParseFormatLog | trace.js:61-84 | A log written for events with distinct timestamps parses back to exactly those events. |
| Assembly.ProcessesFromLogs | trace.js:38-44 | Without aliases the registry has exactly the logs' ids, each named after itself. |
| Assembly.EventsFromLogs | trace.js:45-51 | The parsed logs, concatenated. Its contract is stated by `EventsFromLogsSucceed`, `EventsFromLogsFirstFailure`, `EventsFromOneLog` and `EventsFromLogsAppend`. |
| Assembly.EventsFromOneLog | trace.js:48-50 | A single log contributes exactly its own parse, error included. |
| Assembly.EventsFromLogsSucceed | trace.js:46-51 | Assembly succeeds exactly when every log parses. |
| Assembly.EventsFromLogsFirstFailure | trace.js:45-51 | A failed assembly carries the error of some log whose parse fails, and every log before it parses. |
| Assembly.EventsFromLogsAppend | trace.js:48-51 | The events of two groups of logs are those of the first group followed by those of the second. |
| Assembly.KnownRecipients | trace.js:53-56 | An event is kept exactly when it is not a send or its recipient is registered. |
| Assembly.KnownRecipientsAppend | trace.js:54-56 | Filtering commutes with concatenation, so each log's events stay in order and in log order. |
| Assembly.KnownRecipientsKeepsAll | trace.js:54-56 | The filter removes nothing when every send goes to a registered process. |
| Assembly.TraceFromLogs | trace.js:12-36 | A trace is built exactly when every log parses. Its registry is the aliases or the logs' ids, and every send in it goes to a process that is a key of the registry. |
| Assembly.RegistryOfTrace | trace.js:23-27 | With aliases (even empty ones) the registry is the alias map; without, it is the ids named after themselves. |
| Assembly.TraceOfTwoParts | trace.js:46-58 | The trace's events are the filtered events of the first logs followed by those of the rest. |
| Assembly.EventsFromLogsOwners | trace.js:46-51 | Every assembled event belongs to the process of some log. |
| Assembly.AssembledProcessesRegistered | trace.js:23-58 | Without aliases, every event of the trace belongs to a registered process. |
| Events.KeyBelowTransitive | trace.js:159-167 | The comparator's strict order is transitive. |
| Events.KeyBelowTotal | trace.js:159-167 | Any two distinct `(time, process)` keys are ordered one way or the other. |
| Sorting.SortBy | trace.js:159-167 | The sorted events are a permutation of the input, in non-decreasing key order. |
| Sorting.StrictlyOrderedUnique | trace.js:159-167 | Two strictly ordered arrangements of the same events are equal, so sorting fixes one arrangement. |
| Sorting.UniqueKeysPermutation | trace.js:174-180 | Whether some `(process, time)` repeats does not depend on the order of the events. |
| Resolver.CheckLocal | trace.js:169-180 | The table check passes exactly when every event's process is registered and no two events share a process and time. Otherwise it reports one of those two errors. |
| Resolver.CheckLocalFirst | trace.js:174-180 | A failing table check reports the first event, in sorted order, whose process is unregistered or whose `(process, time)` is already in the table: unregistered process when its process is unregistered, duplicate timestamp otherwise. |
| Resolver.CheckSenders | trace.js:182-190 | The lookup at line 185 fails exactly when some receive names an unregistered sender. |
| Resolver.Kept | trace.js:182-190 | Keeps exactly the events that are not receives without a sent event at their departure, in order and still strictly ordered. |
| Resolver.Peer | trace.js:207 | The event a receive is matched with has the sender as process and the departure as time. |
| Resolver.LinkOne | trace.js:217-223 | Linking one receive changes no other event except, possibly, the arrival of the matched one. |
| Linking.LinkedStep | trace.js:207-223 | Linking a receive later than its match makes it point at the match and carry its data and title; the match's arrival names it. |
| Resolver.LinkFrom | trace.js:198-224 | The linking pass over the kept events. Its contract is stated by `Linking.LinkFromSpec` and `Linking.LinkedArrivals`. |
| Linking.LinkFromSpec | trace.js:198-224 | The linking pass succeeds exactly when every receive is strictly later than its match, and then all receives are linked. Otherwise the error is "received before sent". The unknown-sender throw is never reached. |
| Linking.LinkedArrivals | trace.js:217-218 | After linking, each event's arrival names the last receive linked to it. Other events keep their initial arrival. |
| Resolver.Resolve | trace.js:152-231 | `orderingFromTrace`. Its contract is stated by the `OrderingProperties` lemmas below. |
| OrderingProperties.ResolveKeeps | trace.js:182-190 | The events that reach linking are exactly the input events that survive the filter. They are strictly ordered when no key repeats. |
| OrderingProperties.ResolveFailsExactly | trace.js:169-215 | For process and sender ids that are not names of `Object.prototype` properties, ordering fails exactly for one of four causes: an unregistered process, a repeated `(process, time)`, an unregistered sender, or a receive not later than its match. Never with the unknown-sender error. |
| OrderingProperties.ResolveShape | trace.js:152-231 | A successful ordering keeps the registry and has one event per surviving event. Kind, process, time and payload stay the same, in strictly increasing canonical order. |
| OrderingProperties.ResolveReceives | trace.js:207-223 | Every receive is later than its match. Its departure is the match's position, or -1 when the match was dropped, and it carries the match's data and title. |
| OrderingProperties.ResolveArrivals | trace.js:192-218 | A send no receive is linked to has a null arrival. A linked event's arrival names a receive that points back at it. |
| OrderingProperties.ResolveIgnoresInputOrder | trace.js:159-167 | The result depends only on the registry and the multiset of events. |
| Seattle.SignatureOf | seattle.js:9-18 | Exactly the eight listed methods have a signature, each with its table entry's parameter names. |
| Seattle.SignaturesDistinct | seattle.js:9-18 | No signature repeats a parameter name. |
| Seattle.ObjectFromLists | seattle.js:61-72 | Fails exactly on lists of different lengths. Otherwise it maps exactly the keys, each to the value of its last occurrence. |
| Seattle.Call | seattle.js:20-35 | Only an unsupported method gives the unsupported error, and only a wrong argument count the arity error. On success each parameter name carries the argument at its position. |
| Seattle.CallAsWritten | seattle.js:20-33 | The membership test as written agrees with the table for listed methods, and gives the unsupported error exactly for names that are neither listed nor inherited. An inherited method passes exactly when the argument count equals its `length`, and its parameter object has only the key `undefined`. `__proto__` always fails the arity test. |
| Seattle.CallAcceptsInheritedName | seattle.js:21-28 | `toString` is not a supported method, yet with no arguments the checks as written accept it. |
| Seattle.StatusPosition | seattle.js:91 | Finds the leftmost place where `Status: ` is followed by a complete line, or reports there is none. |
| Seattle.ParseBlocksFails | seattle.js:89-93 | Parsing fails exactly when a block lacks a name line or a status line, with the error of the first such block. |
| Seattle.ParseBlocksKeys | seattle.js:89-93 | The result maps exactly the names of the blocks. |
| Seattle.ParseBlocksLastWins | seattle.js:89-93 | Each name maps to the status of the last block with that name. |
| Seattle.ParseVesselStatus | seattle.js:86-88 | A report without `Name: ` lists no vessels. |
| Seattle.ReadEntry | seattle.js:90-91 | A written entry yields its name and its status. |
| Seattle.ParseNodeReport | seattle.js:86-95 | A report of well-formed entries after a preamble parses to the status of every listed vessel and nothing else. |
| Functional.Get | functional.js:7-11 | Gives a value exactly when the object has the property, and that value. |
| Functional.Zip | functional.js:17-30 | `zip`. Its contract is stated by `ZipShape`, `ZipValues` and `ZipThenGet`. |
| Functional.ZipProperty | functional.js:21-27 | One list's pass stores each value under the property in the object at its index, creating objects past the end. Other objects are unchanged. |
| Functional.LongestList | functional.js:17-30 | The longest list's length bounds every list and is reached by one. |
| Functional.ZipShape | functional.js:17-30 | The zipped list is as long as the longest list. The object at an index has exactly the properties whose list reaches that index. |
| Functional.ZipValues | functional.js:17-30 | With distinct properties, every list value is found under its property at its index. |
| Functional.ZipThenGet | functional.js:17-30 | `get` of a property over the zipped objects gives back that property's list, then `undefined` past its end. |
| XmlDom.TextElement | xmlRpcSerialize.js:91 | An element whose text was set has exactly that `textContent`. |
| XmlDom.FindIsFirstOfAll | xmlRpcParse.js:78-81 | `querySelector` finds the first element `querySelectorAll` lists. |
| XmlRpcSerialize.ValueElement | xmlRpcSerialize.js:35-75 | A string becomes `<value>text</value>`, with no type element. A number becomes `<value><int>n</int></value>`, with `n` its decimal text. Objects and arrays become an unwrapped `struct`. `null` fails as `Object.keys` does, and booleans and `undefined` fail as unconvertible. |
| XmlRpcSerialize.ValueElementSucceeds | xmlRpcSerialize.js:35-60 | A value is converted exactly when it is built from strings and numbers only. |
| XmlRpcSerialize.ObjectMembersShape | xmlRpcSerialize.js:62-75 | An object becomes one `member` per key, in key order, each a `name` with the key followed by the converted value. |
| XmlRpcSerialize.ArrayMembersShape | xmlRpcSerialize.js:62-75 | An array becomes one `member` per element, named by its decimal index. |
| XmlRpcSerialize.ParamsShape | xmlRpcSerialize.js:27-33 | The params are built exactly when every argument converts, one `param` per argument, in order. |
| XmlRpcSerialize.MethodCall | xmlRpcSerialize.js:9-21 | The `methodCall` document. Its contract is stated by `MethodCallShape`. |
| XmlRpcSerialize.MethodCallShape | xmlRpcSerialize.js:9-21 | The call is built exactly when every argument converts. `methodCall` holds the `methodName` text, then `params` only when there are arguments, one per argument in order. |
| XmlRpcSerialize.ScalarCalls | tests/xmlRpcSerialize.spec.js:12-33 | A call with the one argument `"aValue"` is `<methodCall><methodName>aMethod</methodName><params><param><value>aValue</value></param></params></methodCall>`. The same call with the argument `1` has `<value><int>1</int></value>` as its parameter. |
| XmlRpcParse.ToMapLastWins | xmlRpcParse.js:79-83 | Assigning the pairs in order leaves each name with the value of the last pair that carries it. |
| XmlRpcParse.ParseScalars | xmlRpcParse.js:64-74 | A `boolean` is false exactly when the value's text is `0`. An `int` is `Number` of the text. A `string`, or a value with no type element, is the text itself. |
| XmlRpcParse.ArrayWithoutData | xmlRpcParse.js:60-62 | An array value with no `data` element below it fails with the missing-`data` error. |
| XmlRpcParse.ParseArray | xmlRpcParse.js:60-62 | Given the array value's first `data`, the array reads exactly when each element child of that `data` reads. Item `k` is child `k`'s value. Otherwise the error is that of the first child that fails. |
| XmlRpcParse.BooleanExamples | tests/xmlRpcParse.spec.js:33-46 | `<value><boolean>0</boolean></value>` reads as false and `<value><boolean>1</boolean></value>` as true. |
| XmlRpcParse.ArrayExample | tests/xmlRpcParse.spec.js:55-61 | `<value><array><data><value>aString</value></data></array></value>` reads as the one-item array `["aString"]`. |
| XmlRpcParse.ParseValueKind | xmlRpcParse.js:32-58 | An unsupported type tag is an error naming the tag. A value read has the kind its tag (or the lack of one) names. |
| XmlRpcParse.ParseStruct | xmlRpcParse.js:76-85 | A struct reads exactly when each of its members does, and otherwise fails with the error of the first member that does not. Its keys are exactly the texts of the members' first `name`, and each key holds the value read from the first `value` of the last member with that name. |
| XmlRpcParse.ParseItemsSpec | xmlRpcParse.js:60-62 | An array's items read exactly when each element child does, item `k` becoming the value read from child `k`. Otherwise the first child that fails decides the error. |
| XmlRpcParse.ParseMembersSpec | xmlRpcParse.js:78-83 | A member list reads exactly when each member does. Pair `k` is the text of member `k`'s first `name` with the value read from its first `value`. Otherwise the first member that fails decides the error. |
| XmlRpcParse.ParseValue | xmlRpcParse.js:32-85 | As `ParseValueKind`, reading a struct's own members only. |
| XmlRpcParse.ParseValueAsWritten | xmlRpcParse.js:32-85 | As `ParseValueKind`, reading every `member` below the value. |
| XmlRpcParse.ResponseWith | xmlRpcParse.js:9-30 | For either member search: a root with no element child gives no value. With a `params` first child, a document without a `value` fails with the missing-`value` error; otherwise the response returns that first `value`'s reading under the same search exactly when it reads, and fails with its error otherwise. With any other first child, the response is a fault. Its message is the `Number` of the first `int`'s text, then `": "`, then the first `string`'s text; a missing `int` or `string` is the matching missing-element error. |
| XmlRpcParse.ParseResponse | xmlRpcParse.js:19-30 | The corrected response: a `params` response returns the own-members reading (`ParseValue`) of the document's first `value` exactly when that reading succeeds. Every other response is the one the source gives (`ParseResponseAsWritten`). |
| XmlRpcParse.ParseResponseAsWritten | xmlRpcParse.js:19-30 | The response as written: a `params` response returns the reading of the document's first `value` with every `member` below it (`ParseValueAsWritten`), exactly when that reading succeeds. |
| XmlRpcProperties.ReadScalar | xmlRpcParse.js:64-74 | A written string or integer reads back as itself. |
| XmlRpcProperties.ReadWritten | xmlRpcParse.js:32-85 | A written string, integer, or flat object or array, wrapped in a `value`, reads back as the value it was written from, under either member search. An array comes back as a struct keyed by decimal indices. |
| XmlRpcProperties.ReadReturned | xmlRpcParse.js:19-30 | A response whose params hold one written flat value reads as that value returned, both as written and with own members. |
| XmlRpcProperties.NestedResponseLeaks | xmlRpcParse.js:27-30 | A response returning `{a: {b: x}}` gives `{a: {b: x}, b: x}` as written, and `{a: {b: x}}` with own members. |
| XmlRpcProperties.ReadFault | xmlRpcParse.js:87-93 | A fault document reads as a fault whose message is the code, `": "`, then the fault string. |
| XmlRpcProperties.StructKeysAreOwnMembers | xmlRpcParse.js:76-85 | With own members only, a struct's keys are exactly the names of its own members. |
| XmlRpcProperties.ReadInner | xmlRpcParse.js:76-85 | A struct with one scalar member reads as that one-key object under either member search. |
| XmlRpcProperties.NestedMembersBelow | xmlRpcParse.js:78 | `querySelectorAll('member')` on `{a: {b: x}}` lists `a`, then the nested `b`. |
| XmlRpcProperties.ReadNestedOwnMembers | xmlRpcParse.js:76-85 | With own members only, `{a: {b: x}}` reads back as written. |
| XmlRpcProperties.ReadNestedAllMembers | xmlRpcParse.js:78-83 | As written, `{a: {b: x}}` reads with an extra key `b` assigned after `a`. |
| XmlRpcProperties.NestedMembersLeak | xmlRpcParse.js:78 | As written, `{a: {b: x}}` gains a key `b` that no member of the outer struct carries. With own members it does not. |
| ProgramErrors.LatestExceptionFound | controllers/ProgramController.js:204-217 | An exception is found exactly when the log has an exception header that no start header follows. Absent headers and a later start header both give none. |
| ProgramErrors.LatestExceptionShape | controllers/ProgramController.js:211-213 | The exception is the suffix of the log from the last exception header. It holds no other exception header and no start header. |
| ProgramErrors.LastTime | controllers/ProgramController.js:176-181 | The latest time among a process's events, present exactly when the process has events. |
| ProgramErrors.ErrorTime | controllers/ProgramController.js:185 | The error event is later than every event of its process. Its time is one past the latest, or 1 when there are none. |
| ProgramErrors.ErrorEvent | controllers/ProgramController.js:172-191 | An error event is created exactly for a terminated program with an exception. It is a log event of the vessel's id, titled `Exception`, with the exception as data. |
| ProgramErrors.ErrorEventExactly | controllers/ProgramController.js:172-191 | A program gets an error event exactly when it terminated and its latest run ended with an uncaught exception. The data begins with the exception header. |
| ProgramErrors.ErrorEventsSound | controllers/ProgramController.js:170-193 | Every error event is the event of one of the programs. |
| ProgramErrors.ErrorEventsComplete | controllers/ProgramController.js:170-193 | Every program that has an error event contributes it. |
| ProgramErrors.AddErrorsToTrace | controllers/ProgramController.js:195-200 | The trace keeps its registry and its events as a prefix. The appended events are exactly the error events, in non-decreasing time. |
| ProgramErrors.ErrorEventsDistinctProcesses | controllers/ProgramController.js:170-193 | Programs on different vessels give error events of different processes. |
| ProgramErrors.AddErrorsKeepsKeysUnique | controllers/ProgramController.js:169-201 | With one program per vessel, appending the error events repeats no `(process, time)` pair of the trace. |

## Left out

- Networking, promises and the browser:
  - the HTTP half of `call` and `createUrl`;
  - `readVesselStatus`;
  - the request and XML-RPC client wrappers;
  - the monitor;
  - `DOMParser`/`XMLSerializer` and the `parsererror` check of xmlRpcParse.js:10-15.

  They are I/O. The XML code is modelled over an abstract element tree instead.
- Base64/UTF-8 payload decoding and `Number(...)` are function parameters (`Codec`, the `number` argument of the XML-RPC parser). Their failures are not modelled beyond "does not decode". Timestamps are integers: NaN, fractions and exponent forms are left out.
- The deep `copy` of trace.js:241-260 is not modelled: Dafny values are immutable.
- `invoke` (functional.js:12-16) calls a method of an object. Calling arbitrary functions is outside the model.
- `localeCompare` is taken as code-point order. Locale collation is not modelled.
- Functional.Get: sees own properties only. JavaScript's `object[property]` also finds properties inherited from `Object.prototype`.
- LogParser.ParseLine: rejects a `receive` line with fewer than four fields. The source instead builds an event whose sender or departure is `undefined`; every later lookup of that sender fails.
- LogParser.ParseLine: a `send` with fewer than four fields or a `log` with fewer than three is rejected, where the source fails decoding the missing field (`atob(undefined)` throws).
- XmlRpcParse.ParseValueWith: a type tag that is also a property of `Object.prototype` (such as `constructor`) is treated as unsupported. In the source the converter table's lookup would find an inherited function.
- Assembly.KnownRecipients: tests own keys of the registry only. trace.js:55 uses `in`, which is also true for names inherited from `Object.prototype` (`toString`, `constructor`, ...). The source keeps a send to such a recipient; the model drops it.
- Assembly.TraceFromLogs: "every send goes to a key of the registry" holds for the model. In the source a send to an inherited name also survives.
- Resolver.CheckLocal: an event whose process is an inherited name is reported as an unregistered process. At trace.js:175 the source instead finds an inherited function (or `Object.prototype` itself for `__proto__`), accepts the event and writes the time onto that shared object.
- Resolver.CheckSenders: a receive whose sender is an inherited name is reported as a failed lookup. At trace.js:185 the source finds no departure on the inherited function and silently drops the receive.
- OrderingProperties.ResolveFailsExactly: the "exactly when" holds for ids that are not inherited names. For those the source behaves as the two lines above describe.
- XmlRpcSerialize.ValueElement: numbers are integers, written in decimal. The source writes `"" + value` inside `<int>`, so fractions, `NaN`, `Infinity` and the exponent form JavaScript uses from 10^21 on go out as written. The model's text agrees with the source's only for integers below 10^21 in magnitude.
- XmlRpcSerialize.MethodCall: `params || []` is not modelled; the arguments are always a sequence.
- Seattle.ParseBlocks: a vessel named `__proto__` is stored under that key. In the source, `result[name] = status` (seattle.js:92) runs the inherited `__proto__` setter, which ignores a string, so the result has no such key. For example, `"Name: __proto__\nStatus: Fresh\n"` parses to `{}` in the source but to a map with the key `__proto__` in the model.
- Seattle.ParseBlocksKeys: "exactly the names of the blocks" holds for the model. In the source a block named `__proto__` adds no key, as the line above describes.
- Seattle.ParseBlocksLastWins: holds for every name in the model. In the source the name `__proto__` holds no status.
- Seattle.ParseNodeReport: "every listed vessel" includes one named `__proto__` in the model. The source drops it.
- XmlRpcParse.ToMap: a pair named `__proto__` is stored as a key. In the source, `object[key] = value` (xmlRpcParse.js:82) runs the inherited `__proto__` setter. It ignores a string, number or boolean, and makes an array or struct the object's prototype. Either way no own key is created.
- XmlRpcParse.ToMapLastWins: holds for every name in the model. In the source the name `__proto__` does not become a key.
- XmlRpcParse.ParseStruct: "its keys are exactly the members' names" holds for the model. In the source a member named `__proto__` adds no key, as the line above describes. The same applies to the structs read by `ParseValue` and `ParseValueAsWritten`.
- XmlRpcProperties.ReadWritten: covers scalars and one level of objects and arrays. Deeper nesting is covered only for the nested-struct case (`ReadNestedOwnMembers`).
- ProgramErrors.AddErrorsKeepsKeysUnique: assumes one program per vessel. Two terminated programs on the same vessel would both get the same error time.
- ProgramErrors.LatestException: has no contract of its own. Its meaning is stated by `LatestExceptionFound` and `LatestExceptionShape`.
- Seattle.VesselId: has no contract of its own; a vessel's id is its address. It is used, and stated, through `ProgramErrors.ErrorEvent`.
- Reading the programs' status and log from the node manager (ProgramController.js:140-160) is I/O and not modelled. The programs are a parameter of `AddErrorsToTrace`.

## Findings

| source | as written | input that shows it | evidently intended | confidence | as-written member | corrected member |
|---|---|---|---|---|---|---|
| seattle.js:21 | `methodName in signatures` also accepts names inherited from `Object.prototype` | `call(ip, port, 'toString', [])` passes both checks (`toString.length` is 0) and a request is sent | only the eight listed methods are accepted (`hasOwnProperty`) | high, not executed | Seattle.CallAcceptsInheritedName (on Seattle.CallAsWritten) | Seattle.Call |
| xmlRpcParse.js:78 | `querySelectorAll('member')` finds the members of nested structs too | a struct `{a: {b: "x"}}` reads as `{a: {b: "x"}, b: "x"}` | a struct's keys are its own members' names | high, not executed | XmlRpcProperties.NestedMembersLeak (on XmlRpcParse.ParseValueAsWritten), XmlRpcProperties.NestedResponseLeaks (on XmlRpcParse.ParseResponseAsWritten) | XmlRpcProperties.StructKeysAreOwnMembers (on XmlRpcParse.ParseValue, which XmlRpcParse.ParseResponse uses) |
