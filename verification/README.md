# Verified models of the ufleet browser client and user service

This Dafny project models the parts of the repository with the most state and arithmetic, and
proves what they are for:

- the JSON3 codec bundled with the SockJS client: printer, cycle check, lexer and parser over a
  moving index, and the calendar fields and text of a date, found with rounded quotients (`Json`, `JsonParse`,
  `JsonRoundTrip`, `JsonReparse`, `JsonStringify`, `JsonLayout`, `Doubles`, `JsonDate`, `JsonDateText`), against the
  grammar of ECMA-262 (`JsonGrammar`, `JsonDenotes`);
- the SockJS wire path: quoting, the batching sender, the line receiver, and the page and iframe
  parties with their message channels, how they open, send and close (`Escape`, `BufferedSender`, `XhrReceiver`,
  `Iframe`, `IframeSafety`, `IframeClose`, `ConnectionLife`);
- the backward path resolver of the bundled url-parse against RFC 3986 (`UrlResolve`);
- the Buffer codec bundled with swagger-ui: UTF-8 both ways and two's-complement integers of any
  width (`Utf8`, `Utf8Meaning`, `IntBytes`);
- the user service: master election, login lockout over a cache, group membership, registries over
  the store client, and the compact token codec (`Election`, `Login`, `Etcd`, `Groups`, `Registry`,
  `TokenCodec`, `Base64`).

`Wrappers` and `Texts` hold the shared result types and text types. Code that changes state is a class
or a method whose `ensures` equates the new state with a function of the old one; runs are
sequences of steps folded with these functions, and the theorems are about every run. Run
`dafny verify dfyconfig.toml`.

## What turned out to depend on a condition

Where a property fails for some inputs the model keeps the code as it is and proves exactly when
the property holds:

- `JsonRoundTrip.RoundTrip`: parsing gives the printed tree back exactly when no object has a
  `__proto__` key, as the parser assigns members to an ordinary object. Values that were parsed have none, so
  they come back whatever the text they were read from (`JsonReparse.Reparse`).
- `Utf8.DecodeOfEncode`, `Utf8.EncodeOfDecode`: the round trips hold exactly for paired surrogates and for
  well-formed UTF-8.
- `Utf8Meaning.CharactersKeptExactlyWhen`: the encoder replaces every lone surrogate by U+FFFD, but forgets the last unit of
  a text exactly when that text ends in two high surrogates.
- `IframeSafety.SafeExactlyWhenBodyReady`: an iframe can get a message before it has a facade
  exactly when the page was not ready (no body, or still loading) when the connection started. Then two connection
  attempts can wait for the load event, both connect, and the first opens the connection while messages go to the
  second (`IframeSafety.MessageWithoutFacade`).
- `Groups.ListedExactlyWhen`, `Groups.RolesKeptExactlyWhen`: the listing of the store client cuts a key at the first
  component that equals the directory's name, so a group called "user" never shows its members (`Groups.HiddenMemberIsMissed`).
- `Registry.AddProtectsExactlyPlainGroups`: for the same reason groups called "", "ufleet" or
  "registry" accept duplicate registries. `Registry.AddKeepsUniqueExactlyWhen`: in other groups
  `Add` stays unique exactly when the registry handed in does not carry the ID of a stored one that it repeats
  (`Registry.StoredTwice`, `Registry.ReusedIdBreaksAdd`).
- `Registry.CountRightExactlyInPlainGroups`: the count of a group is right in every store exactly when its name is none of
  these three. `Registry.CountTotal` has its exact value for every store, and
  `Registry.TotalRightExactlyWhen` and `Registry.TotalRightExactlyForPlainNames` say when that is the number of registries.
- `Registry.RemoveGroupRegRemoves`: removing group "team" also removes "team2", as the store
  client removes by string prefix (`Registry.TeamTakesTeam2`).
- `Login.DueIsReleased`: the periodic unlock reads the cache as it is, and lifts a lock older than 1800 seconds exactly when
  the cache shows it. After the login that locks a user it does not (`Login.LockingLoginHidesLock`), and the user
  stays locked until another operation reads the store again (`Login.StaleLockStays`, `Login.LockIsNotLifted`).
- `Login.EditSurvivesExactlyWhen`: the periodic unlock writes back cached copies, so an edit just before
  it is lost exactly when the user was locked long enough to be unlocked (`Login.EditIsLost`). `Login.LoginTimeIsLost`: a
  successful login overwrites the login time it has just stored (`Login.LoginTimeStaysZero`).
- `TokenCodec.CompactRawRebuildsExactlyWhen`: an accepted token text is rebuilt exactly when its
  signature part is canonical base64url (`TokenCodec.LooseTokenIsRewritten`).
- `Election.MasterStaysExactlyWhenTimely`: the master is safe exactly when it is less than one interval (six seconds)
  late; then the sleeping times of master and followers make it attend (`Election.TimelyMasterAttends`).
- `BufferedSender.NothingStalls`: a buffered message waits for nothing exactly right after a failed request, which
  loses one batch (`BufferedSender.FailureLosesOneBatch`).
- `JsonDateText.DateTextReads`: a date text denotes its date exactly when the year has at most six digits, as
  those of all Date values have.

## Model

| member | source | states |
|---|---|---|
| `JsonRoundTrip.RoundTrip` | cluster/wwwroot/sockjs.js:4532-4656 | for every tree of null, booleans, integers, UTF-16 strings, arrays and objects with distinct keys, and for compact and every blank indent, parsing the printed text consumes it all and gives the tree without `__proto__` members, the tree itself if and only if it has none |
| `JsonReparse.Reparse` | cluster/wwwroot/sockjs.js:4532-5003 | for every accepted text, however laid out, escaped and with whatever repeated keys, whose value holds no fraction or exponent: parsing the printed value, compact or indented, gives that value again |
| `JsonReparse.ParsedIsTidy` | cluster/wwwroot/sockjs.js:4919-4951 | no object that a parse gives repeats a key or has a `__proto__` member, at any depth |
| `JsonDenotes.ParsesExactlyWhatItDenotes` | cluster/wwwroot/sockjs.js:4718-5003 | for every source text and value: the parser returns the value if and only if the text denotes it by the JSON grammar of section 15.12.1 of ECMA-262 edition 5.1, and fails if and only if the text denotes nothing |
| `JsonDenotes.EscapeIs` | cluster/wwwroot/sockjs.js:4695-4704 | the two-character escapes are the eight of the grammar |
| `JsonDenotes.FourHexIs` | cluster/wwwroot/sockjs.js:4755-4768 | four hexadecimal digits, of either case, stand for the unit with that number |
| `JsonDenotes.AssignedIsObject` | cluster/wwwroot/sockjs.js:4919-4951 | assigning the members one by one leaves every key but `__proto__` with its last value, in the order of their first mention |
| `JsonLayout.PrintDenotes` | cluster/wwwroot/sockjs.js:4532-4656 | the printed text of a tree denotes it by the grammar |
| `JsonLayout.UnitIsPrintedAs` | cluster/wwwroot/sockjs.js:4484-4527 | the exact text of every unit in a string: seven short escapes, `\u00` and two digits in lower case for the other control characters, itself else |
| `JsonLayout.IntegerIsPrintedAs` | cluster/wwwroot/sockjs.js:4604-4607 | an integer is printed without leading zeros, with a minus sign exactly when it is negative |
| `JsonLayout.IndentedLines` | cluster/wwwroot/sockjs.js:4623-4651 | with an indent, the text is the tree's lines: one for each bracket and each scalar, indented by its depth, a comma behind every element but the last |
| `JsonLayout.CompactLines` | cluster/wwwroot/sockjs.js:4623-4651 | without an indent, the text is the same lines put together |
| `JsonRoundTrip.PrintParses` | cluster/wwwroot/sockjs.js:4876-4956 | the printed text of a tree is read as that tree wherever it stands in a source, followed by anything that ends a token |
| `JsonRoundTrip.DropProtoIdentity` | cluster/wwwroot/sockjs.js:4948 | assigning members to a plain object changes exactly the trees with a `__proto__` member |
| `JsonRoundTrip.QuotedParses` | cluster/wwwroot/sockjs.js:4739-4799 | any unit-by-unit escaping whose units are read back one by one makes JSON text for the string |
| `JsonRoundTrip.QuoteUnitReads` | cluster/wwwroot/sockjs.js:4484-4527 | every UTF-16 unit, escaped, bare or as `\u00XX`, is read back as itself |
| `JsonRoundTrip.DecimalParses` | cluster/wwwroot/sockjs.js:4802-4849 | the decimal text of every integer, negative too, is read back as that integer |
| `JsonRoundTrip.ArrayParses` | cluster/wwwroot/sockjs.js:4888-4918 | bracketed, comma-separated texts are read as the array of what each reads as, with or without line breaks |
| `JsonRoundTrip.ObjectParses` | cluster/wwwroot/sockjs.js:4919-4951 | braced members are read in order, each assigned to the object |
| `JsonParse.Parser.NextToken` | cluster/wwwroot/sockjs.js:4718-4873 | moves the index past blanks and one token, or aborts, exactly as the pure lexer says |
| `JsonParse.Parser.LexStringToken` | cluster/wwwroot/sockjs.js:4734-4799 | the string loop with its fast path for plain runs returns the string the pure lexer returns |
| `JsonParse.Parser.LexNumberToken` | cluster/wwwroot/sockjs.js:4809-4850 | the number scanner accepts and ends exactly where the pure lexer does, octal-like literals rejected |
| `JsonParse.Parser.GetValue` | cluster/wwwroot/sockjs.js:4876-4956 | reads one value from a token: strings, literals, arrays and objects; all other tokens abort |
| `JsonParse.Parser.GetArray` | cluster/wwwroot/sockjs.js:4888-4918 | the array loop with its `hasMembers` flag refines the pure reader |
| `JsonParse.Parser.GetObject` | cluster/wwwroot/sockjs.js:4919-4951 | the object loop with its `hasMembers` flag refines the pure reader |
| `JsonParse.Parser.ParseAll` | cluster/wwwroot/sockjs.js:4991-5003 | a second token after the value is an error; otherwise the value read |
| `JsonStringify.Quote` | cluster/wwwroot/sockjs.js:4508-4528 | the loop over the units builds the quoted text |
| `JsonStringify.Serializer.Serialize` | cluster/wwwroot/sockjs.js:4613-4656 | the path stack is pushed and popped in balance, and the result is the serialized text or TypeError; a date, computed with rounded quotients, is quoted as its text; it ends because the nodes not on the stack get fewer |
| `JsonStringify.Serializer.SerializeElems` | cluster/wwwroot/sockjs.js:4628-4633 | the element loop stops at the first TypeError |
| `JsonStringify.Serializer.SerializeProps` | cluster/wwwroot/sockjs.js:4639-4650 | the member loop stops at the first TypeError |
| `JsonStringify.Stringify` | cluster/wwwroot/sockjs.js:4660-4686 | a width becomes at most ten spaces; the serializer starts with an empty stack |
| `JsonStringify.GapIs` | cluster/wwwroot/sockjs.js:4673-4677 | as many spaces as the width says, none below one and at most ten |
| `JsonStringify.TypeErrorExactlyOnCycles` | cluster/wwwroot/sockjs.js:4613-4656 | over any finite heap, serialize raises TypeError if and only if a cycle can be reached from the root |
| `JsonStringify.SharedNodesPrintAsTree` | cluster/wwwroot/sockjs.js:4613-4656 | the heap unfolds to a tree if and only if no cycle is reachable, and then the output is that tree's text, shared nodes printed each time |
| `JsonStringify.StringifyThenParse` | cluster/wwwroot/sockjs.js:4660-5003 | parse of stringify, for every numeric width, gives the unfolded tree back, dates as texts that denote them, exactly when it has no `__proto__` member |
| `JsonStringify.DateComesBack` | cluster/wwwroot/sockjs.js:4539-5003 | a date stringified for any numeric width and parsed is a string in the date time format that denotes its time value, an invalid date null |
| `JsonDate.FindYear` | cluster/wwwroot/sockjs.js:4549-4550 | from an estimate less than 1/146097 off the exact quotient, the scan ends in the year that holds the day after at most two steps |
| `JsonDate.FindMonth` | cluster/wwwroot/sockjs.js:4551 | the estimate and scan end in the month that holds the day, after at most one step |
| `JsonDate.Decompose` | cluster/wwwroot/sockjs.js:4549-4563 | with any accurate arithmetic, for every integer time value, negative too: a valid Gregorian date whose day number is the floor of value by day length, and clock fields that recompose to the value modulo a day |
| `JsonDate.RoundingIsAccurate` | cluster/wwwroot/sockjs.js:4549-4562 | rounded quotients and literals, as doubles have them, are accurate for every time value a Date can have |
| `JsonDate.ExactIsAccurate` | cluster/wwwroot/sockjs.js:4549-4562 | exact quotients are accurate for every integer time value |
| `Doubles.FloorOfQuotient` | cluster/wwwroot/sockjs.js:4358-4363 | rounding does not move the floor of a quotient of integers below 2^53 |
| `JsonDate.GetDayIsGregorian` | cluster/wwwroot/sockjs.js:4358-4363 | the closed formula counts the days from 1970 by Gregorian month lengths and leap years, for every year |
| `JsonDate.FloorModulo` | cluster/wwwroot/sockjs.js:4557 | `(A % B + B) % B` with a truncating `%` is the mathematical modulo |
| `JsonDateText.DateToText` | cluster/wwwroot/sockjs.js:4545-4583 | the text of the only date and clock time with this time value, 24 units or 27 with a signed year; for every time value a Date can have, the text is read as these fields |
| `JsonDateText.FieldsExist` | cluster/wwwroot/sockjs.js:4549-4563 | every integer time value is that of a valid date and clock time |
| `JsonDateText.FieldsAreUnique` | cluster/wwwroot/sockjs.js:4549-4563 | and of only one |
| `JsonDateText.DateTextReads` | cluster/wwwroot/sockjs.js:4573-4583 | the text is in the date time format of section 15.9.1.15 of ECMA-262 edition 5.1 and denotes the same fields if and only if the year has at most six digits |
| `JsonDateText.YearSign` | cluster/wwwroot/sockjs.js:4573 | the year is signed exactly outside 1 to 9999, with a minus exactly when it is negative |
| `JsonDateText.PadReads` | cluster/wwwroot/sockjs.js:4497-4501 | a padded number is read back if and only if it fits the width |
| `JsonDateText.YearsOfTimeValues` | cluster/wwwroot/sockjs.js:4549-4552 | time values within 100 million days of the epoch have years of at most six digits |
| `JsonDate.DateIsUnique` | cluster/wwwroot/sockjs.js:4550-4552 | no other date has the same day number, so the fields found are the date |
| `Escape.QuoteParses` | cluster/wwwroot/sockjs.js:3252-3268 | the escaped quote of any string is JSON text for that string, in any context |
| `Escape.EscapedIsClean` | cluster/wwwroot/sockjs.js:3227-3246 | no unit of an escaped text is in the extra-escapable class |
| `Escape.EncodeAllCompose` | cluster/wwwroot/sockjs.js:3265-3267 | escaping the quoted text is one unit-by-unit escaping of the string |
| `Escape.UnitIsWrittenAs` | cluster/wwwroot/sockjs.js:3227-3268 | the exact text of every unit: its short escape if it has one, `\u` and four digits in lower case if it is another control character or in the class, itself else |
| `Escape.ClassCovers` | cluster/wwwroot/sockjs.js:3222-3226 | the class has all control characters, surrogates and units from U+FFF0 on, and no printable ASCII |
| `BufferedSender.Sender.Send` | cluster/wwwroot/sockjs.js:2005-2011 | buffers the message and sends at once only when nothing is outstanding |
| `BufferedSender.Sender.SendSchedule` | cluster/wwwroot/sockjs.js:2037-2054 | hands out the whole buffer as one array text, or nothing when it is empty |
| `BufferedSender.Sender.OnCompleted` | cluster/wwwroot/sockjs.js:2042-2051 | a success starts the pause; an error closes the sender |
| `BufferedSender.Sender.OnTimer` | cluster/wwwroot/sockjs.js:2030-2034 | the pause ends and the waiting buffer goes out |
| `BufferedSender.Sender.Close` | cluster/wwwroot/sockjs.js:2061-2068 | stops what is outstanding, once |
| `BufferedSender.NothingStalls` | cluster/wwwroot/sockjs.js:2005-2054 | in every run, failed requests included, at most one of request and timer is outstanding, `sendStop` is set exactly then, and a non-empty buffer waits for nothing only right after a failed request |
| `BufferedSender.EventMeans` | cluster/wwwroot/sockjs.js:2005-2054 | what each event does: when nothing is outstanding the whole buffer goes out as one array text, and else nothing does |
| `BufferedSender.CanHappen` | cluster/wwwroot/sockjs.js:2005-2054 | in every run a request can end exactly while `sendStop` aborts one, the pause while `sendStop` clears a timer, and the user can always send |
| `BufferedSender.CloseStopsEverything` | cluster/wwwroot/sockjs.js:2061-2068 | after any run, close leaves nothing outstanding, and the buffer and the payloads handed out as they were |
| `BufferedSender.PayloadParses` | cluster/wwwroot/sockjs.js:2041 | a handed-out batch parses to the array of the strings sent |
| `BufferedSender.DeliveredInOrder` | cluster/wwwroot/sockjs.js:760-773 | for every interleaving, the parsed payloads followed by the decoded buffer are exactly the strings sent, in order, and no payload holds an extra-escapable unit or line feed |
| `BufferedSender.FatesInEveryRun` | cluster/wwwroot/sockjs.js:2042-2051 | every payload has one fate, and only the last can be pending, while its request is in flight |
| `BufferedSender.FailureLosesOneBatch` | cluster/wwwroot/sockjs.js:2042-2051 | the first failed request loses exactly the strings of the last payload: those before it arrived in order, those after it are still buffered |
| `XhrReceiver.Receiver.ChunkHandler` | cluster/wwwroot/sockjs.js:2607-2611 | ignores other statuses and empty texts, else cuts the new part |
| `XhrReceiver.Receiver.CutLines` | cluster/wwwroot/sockjs.js:2613-2624 | emits the finished lines behind the position and moves the position past them; each turn leaves less text |
| `XhrReceiver.LinesCutText` | cluster/wwwroot/sockjs.js:2613-2624 | the lines and the unfinished rest are the text, cut at its line feeds |
| `XhrReceiver.LinesOfCut` | cluster/wwwroot/sockjs.js:2613-2624 | there is only one such cut |
| `XhrReceiver.EmitsEachLineOnce` | cluster/wwwroot/sockjs.js:2590-2625 | for every sequence of growing prefixes, the messages emitted are the non-empty finished lines of the last text, each once and in order |
| `Iframe.SockJS.SendData` | cluster/wwwroot/sockjs.js:760-773 | throws while connecting, ignores when closing, else posts the quoted text on the current transport |
| `Iframe.SockJS.CloseByUser` | cluster/wwwroot/sockjs.js:740-758 | throws on a code or a reason it does not accept, else closes unless already closing or closed |
| `Iframe.SockJS.Connect` | cluster/wwwroot/sockjs.js:805-838 | takes the next transport and sets its timeout, waits for the page, or gives up |
| `Iframe.SockJS.TransportClose` | cluster/wwwroot/sockjs.js:899-913 | stops listening to the current transport and connects to the next one or closes |
| `Iframe.SockJS.TransportText` | cluster/wwwroot/sockjs.js:846-897 | from the text of a frame: 'o' opens, 'c' with a parsed pair closes, all others leave the connection as it is |
| `Iframe.SockJS.TransportMessage` | cluster/wwwroot/sockjs.js:855-897 | an open frame opens, a close frame closes, the others leave the connection as it is |
| `Iframe.SockJS.OpenSocket` | cluster/wwwroot/sockjs.js:915-931 | opens once; a second open frame means a lost session and closes |
| `Iframe.SockJS.CloseSocket` | cluster/wwwroot/sockjs.js:933-969 | closes the current transport and schedules the close event; reports that it throws when closed |
| `Iframe.SockJS.CloseTransport` | cluster/wwwroot/sockjs.js:1798-1814 | posts 'c' and removes the iframe once, and drops all listeners |
| `Iframe.SockJS.OnIframeMessage` | cluster/wwwroot/sockjs.js:1816-1862 | answers 's', forwards 't', and on 'c' emits the close and closes itself; deaf once closed |
| `Iframe.SockJS.EmitCloseEvent` | cluster/wwwroot/sockjs.js:1786-1790 | the close event reaches the connection if it listens, then the transport closes |
| `Iframe.FrameScript.constructor` | cluster/wwwroot/sockjs.js:329-330 | the script announces itself, as the boot step of the system does |
| `Iframe.FrameScript.OnMessage` | cluster/wwwroot/sockjs.js:261-325 | 's' makes the facade if the versions agree, 'm' goes to the facade or throws, 'c' drops it: the handling step of the system |
| `Iframe.FrameScript.ForwardFrame` | cluster/wwwroot/sockjs.js:216-218 | the facade forwards a frame as a 't' message, as the step of the system does |
| `Iframe.FrameScript.ForwardClose` | cluster/wwwroot/sockjs.js:213-215 | the facade forwards a close as a 'c' message, as the step of the system does |
| `IframeClose.FacadeGetsAllThenIsDropped` | cluster/wwwroot/sockjs.js:933-969 | when a connection over an iframe with a facade closes, by the user or the server, the iframe is told "c" behind all else and its element removed after that; in every run that follows nothing more is sent to it, and once it has handled its queue the facade has got exactly what was sent and is dropped |
| `IframeClose.FacadeCanGetAll` | cluster/wwwroot/sockjs.js:933-969 | and such a run exists |
| `IframeClose.ClosingTells` | cluster/wwwroot/sockjs.js:933-969 | a closing step lets the iframe go, makes the close event due and touches no other transport |
| `IframeClose.StepLeaves` | cluster/wwwroot/sockjs.js:1774-1862 | no step sends anything to an iframe that has been let go |
| `IframeClose.GoneIsTold` | cluster/wwwroot/sockjs.js:1786-1814 | an iframe whose transport closes is told "c" and removed too |
| `IframeClose.FailedIsLetGo` | cluster/wwwroot/sockjs.js:1786-1814 | an iframe that fails to load is let go, once |
| `IframeClose.AnnouncedIsStarted` | cluster/wwwroot/sockjs.js:1836-1846 | an iframe that announces itself is told to start |
| `IframeClose.ReplyMeans` | cluster/wwwroot/sockjs.js:216-232 | the facade's frames and its close go to the page, in order |
| `IframeClose.HandleMeans` | cluster/wwwroot/sockjs.js:280-327 | the script takes messages in order: "s" makes the facade if the versions agree, "m" goes to it, "c" drops it |
| `IframeClose.TimerMeans` | cluster/wwwroot/sockjs.js:1798-1814 | a timer delivers its message or removes the element |
| `ConnectionLife.FrameTypes` | cluster/wwwroot/sockjs.js:846-897 | an open frame begins with "o"; a close frame is "c" and JSON text that denotes an array of two values; no other text is one |
| `ConnectionLife.MessagesMean` | cluster/wwwroot/sockjs.js:865-889 | the message events are the elements of the array that the text behind "a" denotes, or the value that the text behind "m" denotes |
| `ConnectionLife.ReadyOnlyAdvances` | cluster/wwwroot/sockjs.js:915-969 | the ready state only moves on |
| `ConnectionLife.ClosesOnce` | cluster/wwwroot/sockjs.js:740-969 | on a ready page, in every run: the connection uses one transport and listens to it alone, or it has let go of all, and one close event is due or has come |
| `ConnectionLife.AlwaysPossible` | cluster/wwwroot/sockjs.js:740-773 | the user can send and close at any time; the close event can come exactly when it is due |
| `ConnectionLife.UserCloseMeans` | cluster/wwwroot/sockjs.js:740-758 | a close by the user ends the connection while it is connecting or open, and does nothing afterwards |
| `ConnectionLife.OpensExactlyWhen` | cluster/wwwroot/sockjs.js:915-931 | the connection opens if and only if an open frame arrives while it is connecting, and its last timeout stops |
| `ConnectionLife.FailureMeans` | cluster/wwwroot/sockjs.js:899-913 | after a failure the next transport is tried if and only if the connection is connecting and the code is not 1000, 2000 or 3000 to 4999 |
| `ConnectionLife.TimeoutMeans` | cluster/wwwroot/sockjs.js:839-844 | a timeout is a failure while connecting and nothing afterwards |
| `ConnectionLife.InfoMeans` | cluster/wwwroot/sockjs.js:782-803 | the answer to the info request starts the first transport or ends the connection |
| `ConnectionLife.SendMeans` | cluster/wwwroot/sockjs.js:760-773 | a message goes to the iframe in use, quoted, behind all that was posted before |
| `ConnectionLife.AcceptedIsSent` | cluster/wwwroot/sockjs.js:760-773 | in every run each iframe has accepted what the user sent while it was in use, quoted and in order |
| `ConnectionLife.FacadeGetsWhatWasSent` | cluster/wwwroot/sockjs.js:760-773 | what the facade has got is JSON text, by the grammar, for the first strings that the user sent over it, in order |
| `IframeSafety.FacadeMeetsEveryMessage` | cluster/wwwroot/sockjs.js:207-331 | in every run over FIFO channels in which no load listener connects while a transport is in use: an iframe handles 'm' only with an active facade, the facade gets what was sent in order, nothing follows 'c', and an open connection on an iframe has an active facade |
| `IframeSafety.SafeExactlyWhenBodyReady` | cluster/wwwroot/sockjs.js:805-838 | all runs are safe if and only if the page is ready when the connection starts |
| `IframeSafety.MessageWithoutFacade` | cluster/wwwroot/sockjs.js:805-817 | the run in which two waiting attempts both connect and a message reaches an iframe without facade |
| `IframeSafety.StepKeeps` | cluster/wwwroot/sockjs.js:760-969 | every step of page and iframes keeps the link and ownership invariants |
| `IframeSafety.HandlingKeepsLink` | cluster/wwwroot/sockjs.js:288-325 | handling one message keeps the queue in line with the facade and conserves what was sent |
| `IframeSafety.TimerKeepsLink` | cluster/wwwroot/sockjs.js:3399-3435 | timers run in order: a posted message joins the inbox, or is dropped once the element is removed, and the link invariant stays |
| `Utf8.EncodeUtf8` | cluster/swagger/swagger-ui.js:7 | the loop of `W` with its pending surrogate pushes the bytes of the pure encoder |
| `Utf8.EncodeUnit` | cluster/swagger/swagger-ui.js:7 | one turn of `W`: what is pushed and which lead stays pending |
| `Utf8.DecodeUtf8` | cluster/swagger/swagger-ui.js:7 | the loop of `C` decodes the range, and each turn moves on by at least one byte |
| `Utf8.DecodeOne` | cluster/swagger/swagger-ui.js:7 | one turn of `C`: the sequence length, the continuation and overlong checks, the replacement character |
| `Utf8.FromCharCodes` | cluster/swagger/swagger-ui.js:7 | `A`: the chunks joined are the whole text |
| `Utf8.DecodedRange` | cluster/swagger/swagger-ui.js:7 | decoding a range of a buffer is decoding the bytes of the range |
| `Utf8.DecodeOfEncode` | cluster/swagger/swagger-ui.js:7 | decode of encode is the identity if and only if every surrogate is paired |
| `Utf8.EncodeOfDecode` | cluster/swagger/swagger-ui.js:7 | encode of decode is the identity if and only if the bytes are well-formed UTF-8 (section 3 of RFC 3629) |
| `Utf8Meaning.DecodedIsRead` | cluster/swagger/swagger-ui.js:7 | every buffer, well formed or not, is read in one way: the characters of section 4 of RFC 3629 where they stand, and U+FFFD for each byte where none does |
| `Utf8Meaning.DecodeMeans` | cluster/swagger/swagger-ui.js:7 | the decoded text has these characters, as UTF-16 without lone surrogates |
| `Utf8Meaning.EncodeMeans` | cluster/swagger/swagger-ui.js:7 | the bytes spell the characters of the text, U+FFFD for each lone surrogate, but for a last high surrogate behind another one |
| `Utf8Meaning.CharactersKeptExactlyWhen` | cluster/swagger/swagger-ui.js:7 | decoding what was encoded keeps every character of the text, lone surrogates replaced, if and only if the text does not end in two high surrogates |
| `IntBytes.WriteIntLE` | cluster/swagger/swagger-ui.js:7 | range errors as the source checks them, else the two's-complement bytes, low first, and nothing else changes |
| `IntBytes.WriteIntBE` | cluster/swagger/swagger-ui.js:7 | the same, high byte first |
| `IntBytes.CheckedMeans` | cluster/swagger/swagger-ui.js:7 | the value is checked first, against the signed range of the width, and then the bytes |
| `IntBytes.WriteBytesLE` | cluster/swagger/swagger-ui.js:7 | the loop with the borrow flag writes the two's-complement bytes |
| `IntBytes.WriteBytesBE` | cluster/swagger/swagger-ui.js:7 | the loop with the borrow flag writes the two's-complement bytes from the end |
| `IntBytes.ReadIntLE` | cluster/swagger/swagger-ui.js:7 | the signed value of the bytes, or an index error |
| `IntBytes.ReadIntBE` | cluster/swagger/swagger-ui.js:7 | the signed value of the bytes read from the end, or an index error |
| `IntBytes.TruncatedIsShift` | cluster/swagger/swagger-ui.js:7 | truncated division is floor division plus one exactly for negative values with a non-zero lower part |
| `IntBytes.BorrowStep` | cluster/swagger/swagger-ui.js:7 | the borrow flag is set exactly when a byte written so far is not zero |
| `IntBytes.ReadOfWrite` | cluster/swagger/swagger-ui.js:7 | for every width and every integer in its signed range, reading what was written returns it, both byte orders |
| `IntBytes.WriteOfRead` | cluster/swagger/swagger-ui.js:7 | writing what any bytes read as gives the bytes back, and it is in range |
| `UrlResolve.Resolve` | cluster/wwwroot/sockjs.js:5367-5391 | the split, scan and join compute the path the pure form defines |
| `UrlResolve.ScanBack` | cluster/wwwroot/sockjs.js:5374-5385 | the backward loop with splices keeps exactly the segments no later ".." removes, and reports a removed first one |
| `UrlResolve.ResolveIsRfc3986` | cluster/wwwroot/sockjs.js:5367-5391 | for every relative path and every base that is empty or starts with a slash, resolve is merge followed by the dot-segment loop of sections 5.2.3 and 5.2.4 of RFC 3986 |
| `UrlResolve.BackwardIsForward` | cluster/wwwroot/sockjs.js:5374-5385 | scanning backward with a counter is pushing and popping forward |
| `UrlResolve.RemoveDotsIsStack` | cluster/wwwroot/sockjs.js:5374-5390 | the text loop of section 5.2.4 is the forward stack on segments |
| `UrlResolve.ForwardIdempotent` | cluster/wwwroot/sockjs.js:5374-5390 | removing dot segments twice is removing them once |
| `Election.Node.UpdateTicket` | user/node/node.go:48-98 | one tick: the new local variables and the new record, in every branch, save failures included |
| `Election.Node.SetMaster` | user/node/node.go:104-107 | claims the record without touching the local ticket |
| `Election.Store.SaveMasterInfo` | user/node/node.go:123-136 | stores the record, or changes nothing when the store refuses |
| `Election.TicketsInEveryRun` | user/node/node.go:48-98 | in every run every local ticket is at most the stored one plus one, and one ahead means nobody wrote since |
| `Election.WritesRaiseTicket` | user/node/node.go:48-98 | the stored ticket never falls, and every write to an existing record raises it |
| `Election.TakeOverMeansSilence` | user/node/node.go:73-85 | a node takes the record over only if nobody wrote it since the node last set its ticket |
| `Election.TakeOverMeansNobodyWrote` | user/node/node.go:73-95 | before a node takes the record over there is a last tick at which it set its ticket, and nobody has written the record since |
| `Election.RecordMeans` | user/node/node.go:48-98 | the record after a tick: six more for the master, a claim a random step ahead of the ticket for who is ahead or finds no record, unchanged else |
| `Election.SetsTicketMeans` | user/node/node.go:73-95 | a tick that sets the local ticket makes it one more than the record's, and no other tick changes it |
| `Election.LocalMeans` | user/node/node.go:48-98 | the node after a tick: one ahead of the record it has written or seen, and two intervals of sleep exactly for who is not master |
| `Election.AttendingMasterStays` | user/node/node.go:41-98 | a master that completes a tick between any two ticks of each other node keeps the record |
| `Election.TimelyMasterAttends` | user/node/node.go:41-46 | as followers sleep for two intervals and the master for one, a master less than one interval late ticks between any two ticks of each other node |
| `Election.TimelyMasterStays` | user/node/node.go:41-98 | in every timed run, a master whose saves succeed and that is less than one interval late keeps the record |
| `Election.MasterStaysExactlyWhenTimely` | user/node/node.go:41-98 | all runs with a lateness bound keep the master if and only if the bound is below one interval |
| `Election.LateMasterIsReplaced` | user/node/node.go:41-98 | a run in which the master is one interval late and a follower takes over |
| `Election.FollowerIsNotAhead` | user/node/node.go:73-92 | a follower that ticks again finds its ticket not ahead of an attended record |
| `Election.StoppedMasterIsReplaced` | user/node/node.go:41-98 | once the master is silent and saves succeed, the record names another node by the time any follower has ticked twice, and never the old one again |
| `Election.StoppedMasterIsReplacedInTime` | user/node/node.go:41-98 | a follower that is never more than a bound late has replaced a silent master after four intervals and twice the bound |
| `Election.FollowerTick` | user/node/node.go:73-92 | a follower of a silent master takes over when ahead, and otherwise gets ahead |
| `Etcd.Client.ListDir` | user/util/etcdclientv3/etcdclient.go:127-152 | lists, each once, the keys under a string prefix cut after the component that follows the first one named like the directory |
| `Etcd.Client.Collect` | user/util/etcdclientv3/etcdclient.go:140-146 | the cut of one key |
| `Etcd.Client.RemoveDir` | user/util/etcdclientv3/etcdclient.go:154-160 | removes every key under the string prefix |
| `Etcd.Client.GetKV` | user/util/etcdclientv3/etcdclient.go:106-115 | the value, or an error when there is none |
| `Etcd.UnderIsStringPrefix` | user/util/etcdclientv3/etcdclient.go:129 | a key is under a directory, component by component, exactly when its joined text starts with the joined directory |
| `Groups.GroupUser.CheckSelfExistInGroup` | user/usergroup/groupuser.go:37-45 | the group exists and lists the user |
| `Groups.GroupUser.AddToGroup` | user/usergroup/groupuser.go:48-62 | stores the role unless the user is listed already or no role is set |
| `Groups.GroupUser.DeleteFromGroup` | user/usergroup/groupuser.go:82-92 | removes the user's directory if the user is listed |
| `Groups.GroupUser.GetByID` | user/usergroup/groupuser.go:153-173 | succeeds exactly when the group has details, lists the user, and the role can be read |
| `Groups.GroupUser.GetAllGroupname` | user/usergroup/groupuser.go:96-110 | the names of the groups that list the user, each once |
| `Groups.GroupUser.InGroupDir` | user/user/user.go:756-763 | one group contributes its name exactly if it lists the user |
| `Groups.Put` | user/controllers/user.go:283-387 | fails without change when a listed group is missing; else the store is the reconciled one, duplicates and all |
| `Groups.Unmatched` | user/controllers/user.go:325-347 | the diff loops give exactly the unmatched groups |
| `Groups.DeleteAll` | user/controllers/user.go:349-365 | every deletion succeeds and removes the user's role key of each group, nothing else |
| `Groups.AddAll` | user/controllers/user.go:367-383 | every group gets the default role, a repeated one only once |
| `Groups.FetchGroups` | user/controllers/user.go:283-295 | collects the details of the listed groups, or stops at a missing one |
| `Groups.CleanInAllGroup` | user/usergroup/groupuser.go:113-127 | removes the user from every group that lists it |
| `Groups.VisibleMembers` | user/usergroup/groupuser.go:18-29 | a member is listed in every group but one called "user" |
| `Groups.GroupsOfMember` | user/user/user.go:749-766 | the groups found for a user are exactly those it is a member of, but for one called "user" |
| `Groups.RemovedMember` | user/usergroup/groupuser.go:87-90 | as IDs have one length, the prefix removal removes that member only |
| `Groups.PutReconciles` | user/controllers/user.go:311-383 | after a successful update the user belongs to exactly the listed groups, keeps its role where it was a member, gets the default role elsewhere, and no other membership or role changes |
| `Groups.NewMembersGetTheirRole` | user/controllers/user.go:367-383 | in a listed group the user was not in, its role is "group_admin" if and only if it is an administrator, else "group_user" |
| `Groups.NobodyBecomesGroupAdmin` | user/controllers/user.go:367-383 | a user who is no administrator is "group_admin" afterwards exactly in the kept groups where it was before |
| `Groups.NoAdministratorIsDemoted` | user/controllers/user.go:367-383 | an administrator is "group_user" afterwards exactly in the kept groups where it was before |
| `Groups.RoleKeyText` | user/usergroup/groupuser.go:48-62 | the keys of roles and group details, as text |
| `Groups.ListedExactlyWhen` | user/controllers/user.go:311-383 | membership comes out as listed if and only if the user is in no unlisted group called "user" |
| `Groups.RolesKeptExactlyWhen` | user/controllers/user.go:367-383 | kept roles survive if and only if a kept group called "user" holds no other role |
| `Groups.HiddenMemberIsMissed` | user/controllers/user.go:311-383 | a store with a member of a group called "user": it stays in when no group is listed, and its role is overwritten when that group is listed |
| `Groups.NobodyElseLeaves` | user/usergroup/groupuser.go:113-127 | after the clean-up the user is in no group but one called "user", and nobody else has left one |
| `Registry.Registry.Repeat` | user/registry/registry.go:30-44 | finds a registry with another ID and the same address or name in the listing |
| `Registry.Registry.Add` | user/registry/registry.go:106-117 | stores the registry under the generated ID unless it repeats another |
| `Registry.Registry.Update` | user/registry/registry.go:120-151 | merges the given fields into the stored registry unless they repeat another |
| `Registry.Registry.Remove` | user/registry/registry.go:154-159 | removes the registry if it is listed |
| `Registry.Registry.RemoveGroupReg` | user/registry/registry.go:95-103 | removes the keys under the group's prefix |
| `Registry.Registry.GetGroupRegistry` | user/registry/registry.go:176-194 | the readable registries among the listed keys |
| `Registry.InitialStore` | user/registry/registry.go:14-16 | the store that `InitRegistry` leaves meets the invariant of all runs |
| `Registry.AddStores` | user/registry/registry.go:106-117 | an add that repeats nothing files every field that was handed in under the new ID, with the group and the time, and the password as standard base64 text from which it comes back; no other key changes |
| `Registry.UpdateStores` | user/registry/registry.go:120-151 | an update takes each given field that is not empty and keeps the stored ones else, and encodes the password only when one is given; no other key changes |
| `Registry.RejectedChangesNothing` | user/registry/registry.go:106-151 | what repeats, and an update of what is not there, change nothing |
| `Registry.RemoveTakes` | user/registry/registry.go:154-159 | in a plain group a removal takes exactly the registry with this ID |
| `Registry.RepeatsMeans` | user/registry/registry.go:30-44 | in a plain group the check looks at exactly the group's other registries |
| `Registry.UniqueInEveryRun` | user/registry/registry.go:95-159 | over every run of the operations with fresh IDs, no two registries of a plain group share a name or an address |
| `Registry.AddKeepsUniqueExactlyWhen` | user/registry/registry.go:106-117 | a successful add keeps the group unique if and only if the registry handed in does not carry the ID of a stored one that it repeats |
| `Registry.StoredTwice` | user/registry/registry.go:30-44 | for each group name that is not plain, a store and an add after which the same registry is stored twice |
| `Registry.ReusedIdBreaksAdd` | user/registry/registry.go:30-44 | a store and an add, with a stored ID in its body, after which two registries repeat each other |
| `Registry.UpdateKeepsUnique` | user/registry/registry.go:120-151 | an update keeps its group unique, whichever fields are given |
| `Registry.AddProtectsExactlyPlainGroups` | user/registry/registry.go:30-44 | add keeps a group unique if and only if its name is not "", "ufleet" or "registry" |
| `Registry.RemoveGroupRegRemoves` | user/registry/registry.go:95-103 | a key survives the removal of a group if and only if its group's name does not start with that name |
| `Registry.TeamTakesTeam2` | user/registry/registry.go:95-103 | a store in which removing "team" removes a registry of "team2" |
| `Registry.CountByGroup` | user/registry/registry.go:196-199 | for every group name: the number of its registries in a plain group, one or zero for "ufleet", and for "" and "registry" the number of group names with that prefix |
| `Registry.CountRightExactlyInPlainGroups` | user/registry/registry.go:196-199 | the count is the number of the group's registries in every store if and only if the group is plain |
| `Registry.CountTotal` | user/registry/registry.go:201-208 | for every store: the registries of the plain groups, plus one if "ufleet" holds anything, plus, for each of "" and "registry" that does, the number of group names that start with "registry" |
| `Registry.TotalRightExactlyWhen` | user/registry/registry.go:201-208 | the total is the number of stored registries if and only if the groups that are not plain hold as many as it puts down for them |
| `Registry.TotalRightExactlyForPlainNames` | user/registry/registry.go:201-208 | the total is right for every store with these group names if and only if they are all plain |
| `Registry.TwoCountAsOne` | user/registry/registry.go:196-199 | two registries in a group that is not plain count as one |
| `Registry.UfleetCountsOne` | user/registry/registry.go:196-199 | a group called "ufleet" counts as one, whatever it holds |
| `Login.UserService.CheckLoginFailCount` | user/user/user.go:95-120 | reads the store: unknown name, too many failures, or the stored user |
| `Login.UserService.Login` | user/user/user.go:487-504 | the state and outcome of a login for each verdict |
| `Login.UserService.Verify` | user/user/user.go:546-574 | refreshes the cache and on a match stamps and saves the cached user |
| `Login.UserService.CountLoginFailTimes` | user/user/user.go:438-445 | one more failure, and the lock at the fifth |
| `Login.UserService.ReloadUserData` | user/user/user.go:86-93 | replaces the cache once it has expired |
| `Login.UserService.Save` | user/user/user.go:448-462 | writes the user and lets the cache expire |
| `Login.UserService.Unlock` | user/user/user.go:387-391 | frees the user in the store |
| `Login.UserService.DoUnlock` | user/user/user.go:42-52 | frees and writes back every cached user whose lock is old enough |
| `Login.UnlockFrees` | user/user/user.go:387-391 | an unlock clears the lock and the count of this user, changes nothing else in the store, and the next login is not refused for failures |
| `Login.FreeUntilFiveMismatches` | user/user/user.go:387-504 | after an unlock the user is let in, and not locked, in every run with fewer than five of its mismatches |
| `Login.FiveMismatchesLock` | user/user/user.go:438-445 | five mismatches in a row lock a user at the time of the fifth, and fewer do not |
| `Login.LoginMeans` | user/user/user.go:487-504 | for each verdict: the outcome, the stored user, the cache and its expiry after a login |
| `Login.ReloadMeans` | user/user/user.go:86-93 | the cache is read again once it has expired, and then lasts ten seconds |
| `Login.EditMeans` | user/user/user.go:394-436 | an edit changes one field of one user and expires the cache |
| `Login.AddMeans` | user/user/user.go:160-176 | a new user has no failures, no lock and no login time, and the cache expires |
| `Login.DoUnlockMeans` | user/user/user.go:42-52 | the periodic unlock frees exactly those whose lock the cache shows to be 1800 seconds old |
| `Login.StartIsGood` | user/user/user.go:26-30 | a service started over any stored users with sound counters, locked ones included, meets the invariant of all runs |
| `Login.CountersInEveryRun` | user/user/user.go:438-504 | in every run nobody has more than five failures, exactly those with five are locked, an unexpired cache equals the store, and a stale one agrees on lock times |
| `Login.LockedUntilReleased` | user/user/user.go:42-120 | once locked, every login ends before the password is checked, until an unlock of that user or a periodic unlock at least 1800 seconds after the lock, however stale its cache |
| `Login.StepKeepsLock` | user/user/user.go:438-504 | no other operation lifts a lock or moves its time |
| `Login.DueIsReleased` | user/user/user.go:42-52 | the periodic unlock frees a user whose lock is old enough if and only if the cache shows the lock |
| `Login.LockingLoginHidesLock` | user/user/user.go:487-498 | after the login that locks a user the cache does not show the lock |
| `Login.StaleLockStays` | user/user/user.go:42-52 | from then on the user stays locked through any number of periodic unlocks and attempts of its own, at any time, until another operation reads the store into the cache |
| `Login.ReloadedLockIsReleased` | user/user/user.go:86-93 | once the cache has been read again, the first periodic unlock 1800 seconds after the lock frees the user |
| `Login.LockIsNotLifted` | user/user/user.go:42-52 | a run from the start: five mismatches and a periodic unlock at any later time leave the user locked |
| `Login.EditIsLost` | user/user/user.go:42-52 | a run from the start: five mismatches, an edit, and the periodic unlock that undoes the edit |
| `Login.LoginTimeStaysZero` | user/user/user.go:500-504 | a run from the start: a successful login after which the stored login time is still zero |
| `Login.EditSurvivesExactlyWhen` | user/user/user.go:42-52 | an edit survives the next periodic unlock if and only if that does not free the user |
| `Login.LoginTimeIsLost` | user/user/user.go:500-504 | after a successful login the stored user is the one read before it with no failures, so the new login time is lost |
| `TokenCodec.EncodedLength` | user/license/util.go:13-15 | the encoding has no padding, four thirds of the bytes in length, rounded up, and its length is never 1 modulo 4 |
| `Base64.EncodesAsRfc4648` | user/license/util.go:13-15 | the URL encoding with and without padding and the standard encoding write groups of 24 bits as four characters of their tables, as section 4 of RFC 4648 says |
| `Base64.PartEncodesAsRfc4648` | user/license/util.go:13-15 | the parts of a token are unpadded URL encodings of that kind |
| `Base64.PartDecodesExactly` | user/license/util.go:21-32 | for every text: a part decodes to bytes if and only if, padded and without its line breaks, it is a base64 text that holds them, whatever the unused bits are |
| `Base64.DecodesExactly` | user/license/util.go:21-32 | the library's decoder of whole groups, for every text |
| `Base64.LineBreaksGo` | user/license/util.go:21-32 | line feeds and carriage returns are dropped and nothing else is |
| `Base64.StdRoundTrip` | user/registry/registry.go:114 | the standard text of any bytes decodes to them |
| `TokenCodec.JoseRoundTrip` | user/license/util.go:13-32 | every byte string comes back from its unpadded encoding |
| `TokenCodec.ReencodesExactlyWhen` | user/license/util.go:21-32 | encoding what a text decodes to gives the text back if and only if it is canonical: no padding or line break, unused bits zero |
| `TokenCodec.JoinOfSplit` | user/license/token.go:84 | joining the split parts gives the text back |
| `TokenCodec.TokenRoundTrip` | user/license/token.go:83-130 | the token made of any three byte strings is read back as these, and written as the same text |
| `TokenCodec.LooseTokenIsRewritten` | user/license/token.go:322-324 | for every header and claims that are read, the token with the signature part `AB` is accepted and `compactRaw` writes it differently (`e30.e30.AB` for two empty objects) |
| `TokenCodec.CompactRawRebuildsExactlyWhen` | user/license/token.go:322-324 | for any accepted text, `compactRaw` gives it back if and only if its signature part is canonical |

## Left out

- JSON3: property enumeration order, `has` probing, `toJSON`, replacer and filter callbacks and delegation to
  native JSON. Numbers are integers printed in decimal, with one zero and without rounding, and `NaN` and infinities do
  not occur. A repeated key keeps its first position, as in an ordinary object.
- JsonRoundTrip.ObjectParses: does not model a `__proto__` key that is repeated after one whose value took the inherited setter away (null, or an object without it); the source then makes an own property, the model none.
- JsonParse.Parser.GetObject: the same; only texts that repeat that key in one object differ.
- JsonReparse.Reparse: does not cover values with a fraction or an exponent, which are kept as text.
- JsonParse.Parser.LexNumberToken: does not convert a literal with a fraction or an exponent to a number; it is kept as its text, because the model has no floating point.
- JsonParse.Parser.ParseAll: does not model the reviver callback, because it is the caller's code.
- JsonStringify.Stringify: does not model string-valued or fractional widths and the filter; the width is any integer.
- Doubles: doubles are real numbers with one rounding of at most 2^-53, relative, for each literal and quotient, and exact integer quotients; sums, products and remainders of integers are exact.
- BufferedSender.Sender.Close: does not model the removal of listeners, which only the owner of the sender sees, nor the callback an abort makes at once, which finds no listener and nothing to stop.
- The XHR, XDR and JSONP requests themselves, response headers, and timer durations: callbacks come in any order the model's steps allow.
- Iframe: the code and reason of close events, and heartbeat, open and error events; transports inside the iframe only emit frames and closes; the info request is one step; page unload and a reload of the iframe document are not modelled.
- Iframe.SockJS.Connect: does not model the list of transports left to try and the readiness test; any choice they allow is a parameter.
- Iframe.SockJS.OnIframeMessage: does not model origin and window-ID checks, as every message on a channel belongs to its own iframe.
- Iframe.FrameScript.OnMessage: does not model source, origin and window-ID checks, for the same reason.
- Iframe.FrameScript.ForwardClose: does not carry the reason text, which no later step looks at.
- Utf8.EncodeUtf8: does not model the byte limit that stops the encoder early, because the codec's promise is about whole strings.
- Utf8.EncodeUnit: does not model that byte limit either.
- IntBytes: the `noAssert` paths, negative offsets, and widths above 6, where doubles would round; the model's integers are unbounded.
- UrlResolve.ResolveIsRfc3986: does not cover base paths without a leading slash, which a parsed page location never has.
- Election: times are those of whole ticks; a tick is one atomic step on the shared record; a read that fails although the record exists, two ticks interleaved, 64-bit overflow of tickets and
  the rejection sampling of the random increment are not modelled.
- Election.Node.UpdateTicket: does not model a record that is no JSON; the node would claim it as it claims a missing one, and no node writes one.
- Etcd: keys are component lists; failed requests, leases and concurrent clients are not modelled.
- Login: accounts that are invalid or inactive, LDAP accounts that are created at login, tokens, and deletions of users; names are unique and the operations are atomic in one process.
- Login.UserService.Login: does not compute the verdict on name and password, which is a parameter, and leaves out the group check after the login, which changes no user.
- Login.UserService.Verify: does not compare passwords and check the account; the verdict says what they come to.
- Groups: group names and IDs contain no separator, and JSON of roles and details is kept as values.
- Groups.Put: does not model permission checks; the update of the user's own details is one outcome.
- Groups.GroupUser.GetByID: does not model a failing lookup of the user, who was found just before.
- Registry: the JSON text of stored registries; passwords are bytes.
- TokenCodec: signatures, certificates, claim checks and the JSON readers of header and claims, which are parameters of `NewToken`.
- The rest of the repository: the React, redux and lodash bundles, cluster-daemon monitors, roles, abilities, repositories and routers would add only easier variants.
