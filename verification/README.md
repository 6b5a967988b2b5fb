# Landau: models and proofs

A Dafny model of the parts of Landau that compute something hard to get right by reading, with
proofs about all inputs, all runs or all interleavings.

| files | part of Landau |
|---|---|
| `Bytes`, `Options`, `Sequences`, `Modulo`, `StringLiteral`, `Decimal`, `DateLiteral`, `Interpolate`, `SpliceProofs` | building an SQL statement from a template and arguments: the hand-grown byte buffer, escaping, number and date printing, the packet limit |
| `SqlTokens`, `TokenPreservation` | MySQL's lexical structure as a byte-wise state machine, and what it reads in a built statement |
| `WhereClause`, `WhereReading`, `WhereQuotes` | `GetWhereClause`, and what MySQL reads in its result, with backslash escapes and without |
| `ServiceMesh`, `RoundRobin`, `MeshHistory` | choosing an address of a configured service |
| `HeartbeatRegistry` | services known by the heartbeats they push |
| `AddrCache`, `AddrRuns` | the cached zookeeper address list, with its lock, its shared cursor and its evicting watchers |
| `Breaker` | the bad-connection circuit breaker |
| `Routes`, `RouteProofs` | REST route registration and resolution |
| `Bitmap` | the permission bitmap codec |
| `Cleanup` | the choice of old log files to delete |

`dafny verify dfyconfig.toml` checks everything.

How the model is built:

- Code that changes state step by step is a class or a method with the source's loop, proved against a
  specification function; what the source promises is proved about that function.
- MySQL's side is written down independently of Landau's: `StringLiteral.ReadLiteral` follows section 9.1.1
  "String Literals" of the MySQL 5.7 Reference Manual, `SqlTokens.Step` follows the lexical rules of its
  chapter 9, and `SqlTokens.LexerReadsLiteral` proves that the two agree on string literals. Both take the
  server's mode: with backslash escapes, or without them (NO_BACKSLASH_ESCAPES). A built statement is read in the
  mode its escaping is configured for; a clause is read in either.
- Go's map iteration order is an arbitrary choice in the methods, whose contracts speak of some order; the
  theorems about results hold for every order.
- Concurrency is a sequence of steps, each one atomic read, write or critical section, for any number of callers.
- Clocks, drawn random numbers, health checks, pings and fetched children are parameters.

What the proofs show the code does not do, each with the exact condition and an input:

- The builder replaces every `?`, also in quoted text and comments. It binds as many arguments as MySQL sees
  placeholders exactly when no `?` stands there (`TokenPreservation.LexedPlaceholders`); a quoted `?` is the input
  (`TokenPreservation.PlaceholderInQuotes`).
- The packet limit measures the text up to each non-nil argument, so it bounds every statement built from a template
  and printable arguments exactly when the statement ends in an argument other than nil
  (`SpliceProofs.LimitKeptExactly`); plain text passes every limit (`SpliceProofs.LimitExceeded`), and
  so does a nil argument at the end (`SpliceProofs.NilExceeds`).
- The digit tables have both parts of a year exactly for the years 0 to 9999 (`DateLiteral.YearInTables`); other
  years panic, which the model returns as `IndexOutOfRange` (`SpliceProofs.YearsThatPanic`).
- A column name that is a number or a reserved word is written without quotes. A clause over one-word names reads
  back exactly when every name that has values is read as a column (`WhereReading.ClauseReadsBack`);
  `WhereReading.NoColumn` has the inputs.
- `GetWhereClause` always escapes with backslashes. A server without backslash escapes reads the tests meant
  exactly when, besides, no text contains a quote or a backslash (`WhereQuotes.ReadsBackExactly`); one quote is the
  input (`WhereQuotes.QuoteUnread`).
- A shutdown notice sets the receive time to 0, which keeps an address out only once the clock is past the
  keep window (`HeartbeatRegistry.ChosenIffRecentlyHeard`, `HeartbeatRegistry.ChosenAfterNotice`), and it lists an
  address twice when it comes from an unlisted secondary address of a listed primary one
  (`HeartbeatRegistry.DuplicateExactly`, `HeartbeatRegistry.DistinctExactly`, `HeartbeatRegistry.ListedTwice`).
- A watcher may fire before the list it watches is stored. The cached list is watched exactly when that did not
  happen (`AddrCache.WatchedUnlessEarly`); otherwise, with no other watcher left, it stays cached for good
  (`AddrCache.UnwatchedForGood`, `AddrCache.CachedUnwatched`).
- A cleaning pass spares its own live file, and a round spares all of them exactly when no monitored name of a
  cleaned directory contains another one cleaned there (`Cleanup.LiveFilesSafeExactly`, `Cleanup.LiveFileAtRisk`).
- Route resolution depends on the map's order exactly when two matching routes have an empty parameter name
  or none (`RouteProofs.OrderDecidesExactly`, `RouteProofs.OrderCanDecide`); with non-empty names this cannot happen.

A registered path without parameters is answered when nothing in it is special to regular expressions
(`RouteProofs.RegisteredIsAnswered`); `/a+b` is registered and never answered (`RouteProofs.PlusIsNotAnswered`).

## Model

| member | source | states |
|---|---|---|
| Interpolate.MySQLInterpolate.ReserveBuffer | data/mysql_interpolate.go:46-55 | the slice grows by the requested size, keeps every earlier byte, and takes a new array, of twice the old length plus the request, only when the old one is too short |
| Interpolate.MySQLInterpolate.EscapeBytesQuotes | data/mysql_interpolate.go:57-71 | for bytes: old contents followed by the value with its quotes doubled, with all writes in bounds, reallocated or not |
| Interpolate.MySQLInterpolate.EscapeStringQuotes | data/mysql_interpolate.go:157-171 | for strings: the same result as for bytes |
| Interpolate.MySQLInterpolate.EscapeBytesBackslash | data/mysql_interpolate.go:73-112 | for bytes: old contents followed by the backslash-escaped value, with all writes in bounds, reallocated or not |
| Interpolate.MySQLInterpolate.EscapeStringBackslash | data/mysql_interpolate.go:114-155 | for strings: the same result as for bytes |
| Interpolate.PutBackslash | data/mysql_interpolate.go:117-152 | one byte is written as its one- or two-byte escape and everything before it stays |
| StringLiteral.EscapeLength | data/mysql_interpolate.go:59 | an escaped value is at least as long as the value and at most twice as long, which is what the loops reserve |
| StringLiteral.ReadEscaped | data/mysql_interpolate.go:57-171 | reading an escaped value yields exactly that value and goes on with whatever follows it, in every style |
| StringLiteral.LiteralRoundTrip | data/mysql_interpolate.go:268-287 | a written literal ends exactly at its closing quote, with the value intact, if and only if the text after it does not begin with a quote |
| StringLiteral.EscapeInjective | data/mysql_interpolate.go:57-171 | different values are written differently |
| StringLiteral.NoRawSpecials | data/mysql_interpolate.go:73-155 | the backslash escaping leaves no NUL, line end or control-Z, and no quote of either kind without a backslash before it |
| Interpolate.BuilderLeavesNothingRaw | data/mysql_interpolate.go:273-286 | so does a builder for servers with backslash escapes |
| Decimal.DigitsRoundTrip | data/mysql_interpolate.go:203-212 | the printed digits of a number without sign read back as it and have no leading zero |
| Decimal.IntRoundTrip | data/mysql_interpolate.go:203-212 | every printed integer, negative or not, reads back as itself |
| DateLiteral.TableLookup | data/mysql_interpolate.go:11-12 | for every index below 100 the two tables give the tens and the units digit |
| DateLiteral.YearInTables | data/mysql_interpolate.go:229-242 | with Go's division, both parts of a year are indices of the tables exactly for the years 0 to 9999 |
| DateLiteral.AllInTables | data/mysql_interpolate.go:229-265 | a time is printed exactly when all its indices are in the tables: no other field can fail |
| DateLiteral.PrintSeconds | data/mysql_interpolate.go:239-253 | the nineteen table-driven bytes after the opening quote are the printed fields |
| DateLiteral.PrintMicro | data/mysql_interpolate.go:255-265 | the table-driven fraction is the printed microseconds |
| DateLiteral.DateRoundTrip | data/mysql_interpolate.go:226-267 | for every wall-clock time of the years 0 to 9999 the literal reads back as its fields, to the microsecond |
| DateLiteral.DateExample | data/mysql_interpolate.go:239-253 | the literal of one moment, byte by byte |
| DateLiteral.DateLength | data/mysql_interpolate.go:255-266 | the fraction is there exactly when the microseconds are not zero |
| DateLiteral.DateOrder | data/mysql_interpolate.go:239-266 | the byte order of two date literals is the order in time of their fields |
| DateLiteral.MicrosecondRounding | data/mysql_interpolate.go:227-237 | the second and the fraction taken from a moment moved by 500ns state the moment within 500ns, carrying into the seconds |
| DateLiteral.MomentOrder | data/mysql_interpolate.go:227-266 | where the calendar gives the later of two seconds the later fields, the literals of the two moments never compare the wrong way round, and compare the right way round from a microsecond apart |
| Interpolate.MySQLInterpolate.AppendTime | data/mysql_interpolate.go:229-266 | old contents followed by the date literal of the fields, unless an index of the year is outside the tables, which happens exactly for years outside 0 to 9999 |
| Interpolate.MySQLInterpolate.AppendString | data/mysql_interpolate.go:280-287 | old contents, a quote, and text that a server in the mode of the builder's flag reads as the string, up to its closing quote |
| Interpolate.MySQLInterpolate.AppendScalar | data/mysql_interpolate.go:197-222 | the unquoted cases of the type switch: NULL, integers, floats, booleans |
| Interpolate.MySQLInterpolate.AppendBinary | data/mysql_interpolate.go:268-279 | old contents, the introducer and a quote, and text that a server in the mode of the builder's flag reads as the bytes, up to its closing quote |
| Interpolate.MySQLInterpolate.AppendArg | data/mysql_interpolate.go:202-290 | each argument's text, or the reason it has none: an unsupported type, or a year that overruns the tables |
| Interpolate.MySQLInterpolate.AppendMeasured | data/mysql_interpolate.go:197-200 | a non-nil argument fails when fewer than four bytes of the packet stay free after it; a nil argument is not measured |
| Interpolate.MySQLInterpolate.CopyText | data/mysql_interpolate.go:186-192 | the text up to the next placeholder is copied, and the state stays that of a correct prefix |
| Interpolate.MySQLInterpolate.BindNext | data/mysql_interpolate.go:194-195 | at a placeholder there always is an argument left, and a failure there is the result of the whole build |
| Interpolate.MySQLInterpolate.GetBuiltSQL | data/mysql_interpolate.go:174-299 | the result is the specified outcome for every template and arguments; the second mismatch check never fires |
| Interpolate.OutcomeOfText | data/mysql_interpolate.go:186-192 | text without a placeholder is appended as it is, and is not measured against the packet limit |
| Interpolate.FailureStays | data/mysql_interpolate.go:288-293 | the first failure decides the result whatever follows |
| SpliceProofs.OutcomeExact | data/mysql_interpolate.go:174-299 | a build succeeds exactly when each argument is printable and, unless nil, ends four bytes before the packet limit; the statement is then the template with each placeholder replaced by its argument's text; else the first argument refused decides the error |
| SpliceProofs.ArgumentInPlace | data/mysql_interpolate.go:185-195 | the placeholder with k placeholders before it takes argument k, and the text around it is spliced with the arguments around |
| SpliceProofs.OtherIsRefused | data/mysql_interpolate.go:288-289 | an argument of another type is refused as such |
| SpliceProofs.LimitKeptExactly | data/mysql_interpolate.go:185-200 | each statement built from a template and arguments leaves four bytes of its limit free exactly when it ends in an argument other than nil, or none can be built |
| SpliceProofs.LimitExceeded | data/mysql_interpolate.go:188-192 | for every limit, a longer statement of plain text is built |
| SpliceProofs.NilExceeds | data/mysql_interpolate.go:197-200 | a nil argument at the end is built whatever the limit |
| SpliceProofs.YearsThatPanic | data/mysql_interpolate.go:239-242 | the years 10000 and -1 run out of the tables |
| SqlTokens.LexerReadsLiteral | data/mysql_interpolate.go:268-287 | the byte-wise lexer and the literal reader see the same value and the same end of every string literal |
| SqlTokens.RunQuoted | data/mysql_interpolate.go:280-287 | a whole written literal is read as one string token with the original value |
| TokenPreservation.LiteralMeaning | data/mysql_interpolate.go:202-290 | the text of an argument is one literal, with its sign or introducer, whose value is the argument |
| TokenPreservation.TokensPreserved | data/mysql_interpolate.go:174-299 | if each `?` stands outside quoted text and comments and between delimiters, MySQL reads a built statement as the template's tokens with each placeholder replaced by its argument's literal |
| TokenPreservation.BuiltReadsAsMeant | data/mysql_interpolate.go:174-299 | a built statement, read in the mode of the builder's flag, has the template's tokens with each placeholder replaced by a literal that means its argument, or by the given text of a float |
| TokenPreservation.PlaceholdersExactly | data/mysql_interpolate.go:185-195 | MySQL sees at most as many placeholders as there are `?`, and as many exactly when all stand outside quoted text and comments |
| TokenPreservation.LexedPlaceholders | data/mysql_interpolate.go:175-177 | the same for the tokens of a whole template, which is when the argument count checked is the count MySQL means |
| TokenPreservation.PlaceholderInQuotes | data/mysql_interpolate.go:175-192 | a quoted `?` takes an argument, though MySQL sees no placeholder there, and the statement reads as three tokens instead of one |
| WhereClause.TwoReplacements | data/db_base.go:75-78 | replacing backslashes and then quotes puts one backslash before each of them |
| WhereClause.ItemTexts | data/db_base.go:611-631 | the printed values of a column, in order, for lists and single values of both types |
| WhereClause.GetWhereClause | data/db_base.go:608-647 | the clause is the specified one for some order of the map that visits each column once |
| WhereReading.ClauseReadsBack | data/db_base.go:608-647 | for one-word names and values plain in the server's mode, which all are with backslash escapes, MySQL reads the clause as exactly the tests meant, in the order visited, when every name with values is read as a column, and as no condition when one is not |
| WhereReading.TestsExact | data/db_base.go:612-646 | a test is there exactly when its column was visited and its values, at least one, are those asked for: each element of a text or integer list in order, or the single text or integer |
| WhereReading.ReadsAsDemanded | data/db_base.go:608-647 | with values plain in the server's mode, in every visiting order the clause reads back, as each demanded test once and no other, exactly when every name with values is read as a column |
| WhereReading.OrderDoesNotMatter | data/db_base.go:610 | with values plain in the server's mode, two visiting orders read back as the same conjunction, or neither reads back |
| WhereReading.NoColumn | data/db_base.go:632-636 | a column named by a number or a reserved word makes a clause that does not read back |
| WhereQuotes.ReadsBackExactly | data/db_base.go:608-647 | in both server modes, a clause over one-word names reads back as the tests meant exactly when every name with values is read as a column and, without backslash escapes, no text contains a quote or a backslash |
| WhereQuotes.QuoteUnread | data/db_base.go:623-626 | without backslash escapes, the clause for one quote is not even closed |
| ServiceMesh.ServiceHealthInfo.IsExisted | data/service_keepalive.go:208-215 | whether the address is listed |
| ServiceMesh.ServiceHealthInfo.AddAddresses | data/service_keepalive.go:221-226 | unknown addresses are appended once each and known ones keep their index |
| ServiceMesh.ServiceHealthInfo.constructor | data/service_keepalive.go:228-237 | a new service has the configured addresses, nothing available and the cursor at 0 |
| ServiceMesh.ServiceHealthInfo.UpdateHealthStatus | data/service_keepalive.go:583-613 | health, receive time and secondary marks of the primary address, and the availability of the address's first index, after one check |
| ServiceMesh.ServiceHealthInfo.Select | data/service_keepalive.go:481-524 | the index the specification chooses, found within as many tries as there are addresses and 0 with nothing available or one address, and the address or its secondary |
| ServiceMesh.ServiceHealthInfo.Increment | data/service_keepalive.go:578-581 | one more call for the address, and the cursor behind the index |
| ServiceMesh.ServiceHealthInfo.GetServiceAddr | data/service_keepalive.go:481-530 | one undisturbed call: the answer of the chosen index, counted unless it is empty, in which case nothing changes |
| ServiceMesh.ServiceHealthInfo.GetServiceAddrs | data/service_keepalive.go:481-530 | successive undisturbed calls answer with the indices of the call sequence the fairness results speak of |
| RoundRobin.ChooseExact | data/service_keepalive.go:497-513 | with something available and two addresses or more, the search takes the next available index from the cursor, else the first, and never falls back |
| RoundRobin.OneRound | data/service_keepalive.go:497-513 | as many calls as there are available indices go round them in order from the cursor and come back to the same position |
| RoundRobin.WindowIsFair | data/service_keepalive.go:497-513 | any such window of calls chooses each available index exactly once |
| RoundRobin.TotalsDifferByOne | data/service_keepalive.go:578-581 | over any number of calls two available indices differ by at most one, and no other index is called |
| RoundRobin.FairUnlessEmpty | data/service_keepalive.go:526-530 | calls are fair from every cursor exactly when no available index answers with an empty address or one index is available |
| MeshHistory.AlwaysSound | data/service_keepalive.go:217-240 | in every interleaving of reads, counts, checks and additions the addresses are distinct, all available and pending indices in range, and the cursor at most the length |
| MeshHistory.AddressesStay | data/service_keepalive.go:222-226 | an index names the same address in every later state |
| MeshHistory.AddedInOrder | data/service_keepalive.go:222-226 | new addresses are appended in the order given |
| MeshHistory.AvailableIffHealthy | data/service_keepalive.go:602-611 | an index is available exactly when the last check of its address since it was added said 1 |
| MeshHistory.AvailableNotEmpty | data/service_keepalive.go:624-649 | as a check of the empty address never reports 1, no available index ever answers with an empty address |
| MeshHistory.AlwaysFair | data/service_keepalive.go:497-530 | from every reachable state with something available and two addresses or more, undisturbed calls choose each available index once a round, and totals differ by at most one |
| HeartbeatRegistry.ReceiveMesh.RegisterReceiveService | data/service_keepalive.go:266-309 | the entry after a heartbeat, new or known, from a primary or a secondary address |
| HeartbeatRegistry.ReceiveMesh.RemoveReceiveService | data/service_keepalive.go:242-264 | the entry after a shutdown notice; other services and unknown services do not change |
| HeartbeatRegistry.ReceiveMesh.GetReceivedAddr | data/service_keepalive.go:531-566 | the address handed out was heard from within the window, if any was, and whether it is the primary one; it is counted unless empty |
| HeartbeatRegistry.RecentInSomeOrder | data/service_keepalive.go:537-543 | each recent address exactly once, in whatever order the map gives |
| HeartbeatRegistry.CallsGoRound | data/service_keepalive.go:535-549 | undisturbed calls that visit the recent addresses in one order go round them |
| HeartbeatRegistry.CountsAreCalls | data/service_keepalive.go:578-581 | in every run the call count of an address is how often it was handed out |
| HeartbeatRegistry.MarkedExactly | data/service_keepalive.go:277-305 | in every run a primary address is marked for failover exactly when its last heartbeat, not counting the service's first one, came from its other address |
| HeartbeatRegistry.HeardAreListed | data/service_keepalive.go:282-292 | in every run each address heard from is listed |
| HeartbeatRegistry.ListedHaveTimes | data/service_keepalive.go:275-306 | in every run each listed address has a receive time |
| HeartbeatRegistry.TimesAreNews | data/service_keepalive.go:242-309 | in every run the receive times are exactly the last news of each primary address |
| HeartbeatRegistry.ChosenIffRecentlyHeard | data/service_keepalive.go:537-549 | an address can be chosen exactly when its last news is a heartbeat within the window, or a notice while the clock is within it |
| HeartbeatRegistry.ChosenAfterNotice | data/service_keepalive.go:251 | while the clock is within the window, an address can be chosen right after its shutdown notice |
| HeartbeatRegistry.GoneStaysGone | data/service_keepalive.go:251 | once the clock is past the window, an address that announced its shutdown is not chosen until it registers again, whatever else happens |
| HeartbeatRegistry.DuplicateExactly | data/service_keepalive.go:252-261 | a notice lists an address twice exactly when it comes from an unlisted address whose primary is listed |
| HeartbeatRegistry.DistinctExactly | data/service_keepalive.go:252-306 | in every run, the list has no address twice exactly when no such notice came |
| HeartbeatRegistry.ListedTwice | data/service_keepalive.go:252-261 | a heartbeat of a primary address and a notice from its secondary one list the primary one twice |
| AddrCache.ServiceAddress.GetAddr | protocol/service_addr_helper.go:82-98 | the address at the cursor, or the first if the cursor is out of range, and the cursor each mode leaves |
| AddrCache.PollsCycle | protocol/service_addr_helper.go:91-95 | poll k of an undisturbed sequence uses index (start + k) mod n |
| AddrCache.ServiceAddress.PollTimes | protocol/service_addr_helper.go:82-98 | answer j of a sequence of undisturbed polls is address[(start + j) mod n] |
| AddrCache.AlwaysSound | protocol/service_addr_helper.go:114-185 | in every interleaving of callers and watchers the lock agrees with where the callers are, the cache stays empty while a caller fetches, the store and eviction counts are true, and each cursor is in range except while some caller is between increment and reset |
| AddrCache.CursorStep | protocol/service_addr_helper.go:91-95 | every single read or write keeps each cursor in range, except while some caller is between increment and reset |
| AddrCache.AnswersAreMembers | protocol/service_addr_helper.go:97 | in every interleaving every answer is a member of the list it came from |
| AddrRuns.LastServerIsLast | protocol/service_addr_helper.go:88-97 | however callers and watchers interleave, if all calls ask for the last server, every answer is the last address of its list |
| AddrRuns.PollingGoesRound | protocol/service_addr_helper.go:91-97 | in every polling run of one caller without evictions, answer k is address k mod n |
| AddrRuns.RandomFollowsDraws | protocol/service_addr_helper.go:88-97 | in every random run of one caller without evictions, answer k is the address of the k-th number drawn |
| AddrCache.CursorSettles | protocol/service_addr_helper.go:92-95 | whenever no caller is between its increment and its reset check, the cursor is below the length |
| AddrCache.ExclusiveCallerInRange | protocol/service_addr_helper.go:124-129 | a caller under the write lock never finds the cursor out of range |
| AddrCache.StoreNeverOverwrites | protocol/service_addr_helper.go:126-185 | a list is stored only into an empty cache, and stores minus effective evictions is 1 or 0 as the cache is full or empty |
| AddrCache.WatchedUnlessEarly | protocol/service_addr_helper.go:139-185 | in every reachable state the cached list's own watcher is live exactly when it did not fire between fetch and store |
| AddrCache.UnwatchedForGood | protocol/service_addr_helper.go:114-185 | a list cached while no watcher is left stays cached in every continuation |
| AddrCache.CachedUnwatched | protocol/service_addr_helper.go:139-185 | a run of one caller that caches a list with no watcher |
| AddrCache.AloneIsSequential | protocol/service_addr_helper.go:82-98 | the single steps, undisturbed, do what the sequential method does |
| Breaker.OptimizeConnections.constructor | data/db_conn_optimize.go:57-66 | thresholds below 3 and intervals below 1 are refused |
| Breaker.OptimizeConnections.DbConnectionError | data/db_conn_optimize.go:88-117 | one more error in the history; a block event exactly when it is the one that reaches the threshold |
| Breaker.OptimizeConnections.IsListed | data/db_conn_optimize.go:70-72 | a connection is listed exactly when it has errors since its removal |
| Breaker.OptimizeConnections.Resume | data/db_conn_optimize.go:73-77 | the entry is removed, whatever it has become |
| Breaker.OptimizeConnections.SkipDbAccess | data/db_conn_optimize.go:119-129 | access is skipped exactly when the errors since the last removal reach the threshold |
| Breaker.OptimizeConnections.PingBegin | data/db_conn_optimize.go:152-161 | exactly the connections whose last ping is an interval old are stamped and pinged |
| Breaker.OptimizeConnections.PingEnd | data/db_conn_optimize.go:163-174 | exactly the connections that answered are removed |
| Breaker.OptimizeConnections.Disable | data/db_conn_optimize.go:46-50 | switching off removes every entry |
| Breaker.BlockRate | data/db_conn_optimize.go:93-105 | in every run, threshold times the block events of a connection is at most its errors |
| Breaker.BlockedOncePerEntry | data/db_conn_optimize.go:95-96 | between two block events of a connection it was removed |
| Routes.Router.AddRESTFulAPIHttpHandle4 | api/restful_api.go:53-75 | the registered entry: its segments, its last parameter's name, its pattern, its method with ASCII letters in upper case |
| Routes.Router.IsExistRESTFul | api/restful_api.go:82-109 | the answer of the walk over the map in some order that visits each entry once, an entry for the request's method or for all; with at most one immediate match, that match, else the only match, else none |
| Routes.JoinSplit | api/restful_api.go:54 | joining the segments of a path gives the path |
| Routes.AnswerHasMethod | api/restful_api.go:86 | in every order, what is answered is registered for the request's method or for all |
| Routes.UpperExactly | api/restful_api.go:72 | the registered method has each small ASCII letter replaced by its capital |
| Routes.LastNameIs | api/restful_api.go:56-61 | the name kept is that of the last parameter |
| RouteProofs.CompileRoute | api/restful_api.go:54-71 | the pattern text built for a plain route compiles to its segments' atoms |
| RouteProofs.MatchersAgree | api/restful_api.go:86-93 | for plain routes the pattern matches a path exactly when the segment counts agree and every segment that is not a parameter is equal |
| RouteProofs.RegisteredIsAnswered | api/restful_api.go:53-98 | with non-empty parameter names, a request for a plain registered path without parameters is answered with its entry in every order |
| RouteProofs.AnsweredExactly | api/restful_api.go:82-109 | for plain routes, every order answers with a route exactly when it is for the request, by method, segment count and segments, and has no parameters or is the only one |
| RouteProofs.PostIsAnswered | api/restful_api.go:72-86 | a route registered with `post` answers POST requests and no others |
| RouteProofs.PlusIsNotAnswered | api/restful_api.go:71-86 | the pattern of `/a+b` does not match that path, so the entry is never answered |
| Routes.WalkResolves | api/restful_api.go:84-108 | in every order: the immediate match if there is one, else the only match, else none |
| RouteProofs.OrderDecidesExactly | api/restful_api.go:85-98 | the answer is the same in all orders exactly when at most one matching entry has no parameter name |
| RouteProofs.OrderCanDecide | api/restful_api.go:53-98 | with `/:` and `/a` registered, a request for `/a` is answered with either, as the order has it |
| RouteProofs.OrderNeverDecides | api/restful_api.go:53-109 | with non-empty parameter names only the entry of the very path asked for is immediate, so no order decides |
| Bitmap.AppendBinaryString | protocol/bitmap.go:65-80 | the eight digits of a byte, by shifting left and back |
| Bitmap.ConvertBimapByte2String | protocol/bitmap.go:28-36 | the digits of all bytes in order |
| Bitmap.ConvertBitmapString2Byte | protocol/bitmap.go:39-63 | the bytes whose digits are the padded text's |
| Bitmap.NoOverflow | protocol/bitmap.go:51-61 | the wrapping accumulator always is the value of the digits since the last byte, which stays below 256 |
| Bitmap.BytesRoundTrip | protocol/bitmap.go:28-63 | bytes turned to text and back are unchanged |
| Bitmap.TextRoundTrip | protocol/bitmap.go:28-63 | text turned to bytes and back is the text padded with zeros, all but ones read as zeros |
| Bitmap.FirstDigitWeighsMost | protocol/bitmap.go:44-61 | the text of a single one is the byte 128 |
| Bitmap.LastDigitWeighsLeast | protocol/bitmap.go:65-80 | the byte 1 is seven zeros and a one |
| Cleanup.LessIsStrictWeakOrder | log/log_file_monitor.go:52-57 | the order is irreflexive and transitive, and so is being unordered; not to come after is to be older, or as old and not smaller |
| Cleanup.CleanPath | log/log_file_monitor.go:189-216 | the candidates are sorted, and a prefix of them that stops by the 64-bit running total is deleted |
| Cleanup.DeletesOldestEnough | log/log_file_monitor.go:195-216 | the live file is never deleted, every deleted file is older than every kept one or as old and not smaller, and the deleted ones are the shortest non-empty prefix that reaches the target, or all, as long as the sizes fit 64 bits |
| Cleanup.ContainsExactly | log/log_file_monitor.go:195 | a name contains another exactly when that stands at some place in it |
| Cleanup.CandidatesExactly | log/log_file_monitor.go:192-203 | the candidates are exactly the files that contain the live name and have another one |
| Cleanup.MatchPaths | log/log_file_monitor.go:169-183 | the passes of a round: each monitored name with the last too full directory it is monitored in |
| Cleanup.PassesExactly | log/log_file_monitor.go:171-183 | a pass is made exactly for the last log of each name that is monitored in a full directory |
| Cleanup.LiveFilesSafeExactly | log/log_file_monitor.go:187-203 | whatever the directories hold, no monitored live file is a candidate of any pass exactly when no monitored name of a cleaned directory contains another one cleaned there |
| Cleanup.LiveFileAtRisk | log/log_file_monitor.go:195 | the pass for `a` may delete the live file `ab` |

## Left out

- TokensPreserved: a float's tokens are those its given text makes; strconv.AppendFloat is not modelled, and `/*! */` comments are read as comments.
- LiteralMeaning: floats have no value in the model, as the text strconv.AppendFloat prints for them is a given.
- GetBuiltSQL: arguments are values; the array behind a `[]byte` argument is not modelled.
- MicrosecondRounding: time zones and the calendar are a given function from seconds to local fields.
- MomentOrder: where local clocks are put back between two moments, their literals may compare the other way round.
- ClauseReadsBack: names of more than one word (qualified, quoted or computed columns) are left out, and the server's reserved words are a parameter.
- GetServiceAddr: when it has no address, the source goes on to the heartbeat registry, then to the address last traced; the steps are modelled one by one, without the last one and without the `http://` in front.
- AvailableNotEmpty: that a health check of an empty address fails is taken from the URL it builds (data/service_keepalive.go:629), not proved of the HTTP client.
- AddRESTFulAPIHttpHandle4: upper-casing covers ASCII letters only.
- Select: the map from service names to services is not modelled, only one service at a time; the steps of concurrent callers are in MeshHistory.
- AvailableIffHealthy: configured lists are taken to be free of duplicates and already sorted, so that the in-place sort of data/service_keepalive.go:126-146 changes nothing.
- AddrCache: all callers of a key share one mutex, which creating two helpers at once does not guarantee (protocol/service_addr_helper.go:76-78), and each read or write of the cursor is atomic.
- Breaker: entries are values in the map instead of pointers, the threshold does not change during a run, and the enable and running flags, which the source reads outside the lock, are not modelled.
- MatchersAgree: literal segments with characters special to regular expressions; their pattern is an arbitrary predicate in the resolution theorems.
- CleanPath: sorting is by insertion, as any sorted rearrangement may come from the library; the daily mode, the disk usage and the target's own arithmetic are parameters or left out.
- Failover to secondary addresses is modelled as the source does it; over runs, only the marks of the heartbeat registry are characterised.
- The clients of HTTP, gRPC, Redis, Mongo, Elasticsearch, AMQP and zookeeper, and the gin handlers, are thin wrappers over libraries.
- Binding and scanning by reflection (api/mapping.go, data/json.go, config/config.go) depends on Go's reflection, not on logic of its own.
- The singleton claim of util/cron_job.go checks and sets in two critical sections, so there is no exclusion to prove.
- Log parsing, rotation, metrics, version output, cookies and option setters would only add easy members.
