# FlatHub in Dafny

FlatHub keeps houses, flats and users in PostgreSQL and moderates flats: anybody logged in may create a flat, a
moderator takes it and then approves or declines it. Sessions speak a line protocol over TCP; a second interface speaks
HTTP and is guarded by JSON web tokens. This project models the parts on which that rests and proves how they behave for
every input, every run and every interleaving.

| file | part |
|---|---|
| `Strings.dfy` | byte strings, machine integers, `find` |
| `Base64.dfy` | base64url as `src/auth/jwt_utils.cpp` builds it around OpenSSL's filter (RFC 4648, sections 4 and 5) |
| `Decimal.dfy` | decimal text and `std::stoi` |
| `Json.dfy` | the flat objects inside a token, printed and parsed (RFC 8259, section 7; RFC 3629 for UTF-8) |
| `Jwt.dfy` | generating and validating tokens (RFC 7515, section 7.1; RFC 7518, section 3.2) |
| `Wire.dfy` | fields of a line, lines of a stream |
| `Readings.dfy` | what a session can make of a stream, over all ways the network cuts it up |
| `Clients.dfy`, `Tokens.dfy` | the text client: what it sends for a typed command and how that is read, and which token it holds after what it reads |
| `Transactions.dfy` | takes and decisions as overlapping transactions, and why every interleaving is serial |
| `Lifecycle.dfy` | what a serial log does to the flats: statuses, counts, successes |
| `Tables.dfy`, `Database.dfy` | the three tables as values, and the repositories as an object that updates them |
| `Sessions.dfy` | the session object |
| `Commands.dfy` | command constructors and `execute` |
| `Protocol.dfy` | the text protocol line by line: which line is which command, and what each does |
| `Service.dfy`, `Runs.dfy` | all sessions together, and what every run keeps to |
| `Gate.dfy` | from what a text client's user types to the effect: which guarded commands get past the token check |
| `Http.dfy` | HTTP routing and token gates |

Conventions. A `std::string` is a sequence of characters below 256. Where the source updates an object or a local buffer
in a loop, the model is a class or a method with loops, proved equal to a function; the properties are proved about the
function. Surroundings that the code does not decide are parameters, and every theorem holds for all their values: the
clock, whether a database call goes through (`up`), the order in which the database visits rows (`scan`), and `Library`
(HMAC-SHA256 under the secret key as any function to 32 bytes, OpenSSL's answer on texts that are not base64, and what
the JSON library reads from texts outside the grammar of `Json.dfy`).

## Findings

Where the code does less than its documentation promises, the model follows the code and the exact condition is proved.

- Decoding reads at most 511 bytes, so a token whose payload is longer is generated but never validates again, at any
  time (`Jwt.TokenRoundTrip` has the exact condition, `Jwt.LongLoginNeverValidates` an instance).
- `LoginCommand` issues a token but never stores it in the session, whose own token therefore stays empty in every run
  (`Runs.SessionsMatchUsers`). So a guarded command passes only when it presents the empty token, by a second space
  after its name (`Gate.GuardedLineExactly`). What the server reads from a client that presents the token it was given
  is refused without effect, with one exception: a typed text that contains "/login" or "/register" anywhere goes out as
  typed, and passes just when it has that second space itself and session and role suffice
  (`Gate.ClientCommandPassesExactly`). A moderator who types `/take_flat  5/login` starts the take of flat 5
  (`Gate.UnsplicedTakeIsStarted`); one carriage return at the end of a typed text is dropped before the text is parsed
  (`Gate.CarriageReturnIsDropped`). A client that holds nothing passes wherever session and role suffice.
- The client takes the token out of a single read, from behind its first space. The two replies to a login are written
  back to back; the client holds the issued token just when the read that has the whole of "TOKEN: " starts behind the
  last space of the greeting and ends with the token message or just before its newline. Read apart the replies leave
  the token, read together never (`Gate.IssuedTokenArrives`). A client that read them together holds the end of the
  greeting, a newline, and the token message, and a guarded command sent with that arrives as several lines. None of
  them has any effect if the role has no newline; otherwise just those pieces of the role have that are lines a session
  may act on (`Gate.CombinedReadIsRefused`), and such roles exist (`Gate.QuitInRole`).
- `do_read` erases one byte too many after a line, so framing is exact just when no chunk carries a byte past a newline
  (`Wire.FramingExact`, `Wire.PipelinedByteIsLost`). A line of one byte can thereby be read as empty, and an empty line
  be lost (`Readings.LostByteMakesEmpty`).
- Reading a negative column as `size_t` throws and empties the whole listing, so the user view is the approved part of
  the moderator view only under the condition of `Tables.UserViewIsFilteredView` (`Tables.ViewsDisagree`).
- `generateToken` yields an empty string just when login or role is not UTF-8 (`Jwt.EmptyTokenExactly`), for instance
  for the login that is the single byte 255 (`Jwt.NotUtf8IsEmpty`). Only a direct call passes such a login: JSON bodies
  are parsed as UTF-8, and a database with UTF-8 encoding rejects the row.

## Model

| member | source | states |
|---|---|---|
| Base64.BioWrite | src/auth/jwt_utils.cpp:20-29 | the three-bytes-at-a-time loop produces the standard padded encoding |
| Base64.EncodeUrl | src/auth/jwt_utils.cpp:16-39 | encode, substitute in place and strip every trailing `=`: the result is the base64url text |
| Base64.DecodeUrl | src/auth/jwt_utils.cpp:42-67 | substitute back, re-pad in a loop and read at most 511 bytes; on texts that are not base64 the filter's answer is a parameter |
| Base64.DecodeEncode | src/auth/jwt_utils.cpp:20-29 | base64 decoding inverts base64 encoding on every byte string |
| Base64.UrlEncodeForm | src/auth/jwt_utils.cpp:32-36 | n bytes give ceil(4n/3) characters of the url alphabet, never 1 modulo 4 |
| Base64.PadRestores | src/auth/jwt_utils.cpp:45-52 | substituting back and re-padding rebuilds the standard encoding, with at most two `=` added |
| Base64.UrlRoundTrip | src/auth/jwt_utils.cpp:16-67 | decoding an encoding gives exactly the first 511 bytes of the input |
| Base64.UrlRoundTripExact | src/auth/jwt_utils.cpp:55-66 | the round trip is lossless if and only if the input has at most 511 bytes |
| Base64.AlphabetIs | src/auth/jwt_utils.cpp:20-33 | the two alphabets of RFC 4648, letter by letter |
| Base64.GroupIsBits | src/auth/jwt_utils.cpp:20-29 | four symbols are the 24 bits of three bytes, six at a time |
| Base64.TestVectors | src/auth/jwt_utils.cpp:20-29 | the seven test vectors of RFC 4648, section 10 |
| Decimal.StoiPrint | src/patterns/FlatCommand.cpp:13-16 | `stoi` reads back every 32-bit integer from its decimal text, negatives included |
| Decimal.StoiExactly | src/patterns/FlatCommand.cpp:13-16 | for every text: white space, sign and digits are read, the rest is ignored, and it fails if and only if there is no digit or the value does not fit 32 bits |
| Json.ParseDump | src/auth/jwt_utils.cpp:104-105 | parsing the dump of any object of UTF-8 strings and 64-bit integers gives the object, through all string escapes |
| Json.EscapesAre | src/auth/jwt_utils.cpp:104-105 | how each ASCII character is escaped |
| Json.TrailingIsOutside | src/auth/jwt_utils.cpp:148-148 | a text with anything behind its object is not one of the fragment |
| Json.CutDumpIsTruncated | src/auth/jwt_utils.cpp:142-148 | no proper prefix of a dumped object parses: the input always ends inside the object |
| Json.MembersStable | src/auth/jwt_utils.cpp:148-148 | what the member loop decides on a text it decides on every longer text |
| Jwt.HeaderText | src/auth/jwt_utils.cpp:92-94 | the header text, byte for byte |
| Jwt.PayloadTextIs | src/auth/jwt_utils.cpp:96-105 | the payload text, byte for byte: exp, iat, login, role, user_id in this order |
| Jwt.GeneratedParts | src/auth/jwt_utils.cpp:104-109 | an issued token is three dot-free parts that decode to the header text, the payload text and the HMAC of the first two |
| Jwt.PayloadObject | src/auth/jwt_utils.cpp:96-105 | the payload text denotes exactly the five claims: exp is clock plus lifetime, iat the clock, then login, role and user id |
| Jwt.SignatureHasNoDot | src/auth/jwt_utils.cpp:70-80 | a signature is 43 characters and never contains a dot |
| Jwt.ExactAcceptance | src/auth/jwt_utils.cpp:122-172 | a token is accepted with claims p if and only if it is three dot-free parts, the last is the base64url text of the HMAC of the first two and their dot, the middle one decodes to a text that has the claims of p under their names, and the clock has not passed exp |
| Jwt.AcceptedIsAuthentic | src/auth/jwt_utils.cpp:136-139 | the third part of any accepted token decodes to the HMAC of exactly its first two parts |
| Jwt.MovedSignatureIsRejected | src/auth/jwt_utils.cpp:136-139 | the signature of an accepted token does not validate another payload whose message has another HMAC |
| Jwt.TokenRoundTrip | src/auth/jwt_utils.cpp:89-172 | validating a generated token returns user id, login, role and exp unchanged if login and role are UTF-8, the payload has at most 511 bytes and the clock is at most exp, and nothing otherwise |
| Jwt.LongLoginNeverValidates | src/auth/jwt_utils.cpp:55-66 | a token for a plain login of 508 bytes or more is rejected at every time |
| Jwt.EmptyTokenExactly | src/auth/jwt_utils.cpp:104-118 | nothing is issued if and only if login or role is not UTF-8 |
| Jwt.NotUtf8IsEmpty | src/auth/jwt_utils.cpp:114-117 | nothing is issued for the login that is the single byte 255 |
| Jwt.RejectionIsFinal | src/auth/jwt_utils.cpp:150-155 | what is rejected stays rejected at every later clock, and what is accepted later was accepted before with the same claims |
| Jwt.TokenShape | src/auth/jwt_utils.cpp:104-109 | a token has 81 characters plus four thirds of its payload, at most 763 for a usable one, all from the url alphabet or dots |
| Wire.Parse | src/service/session.cpp:73-102 | the accumulating loop splits at every space and drops only an empty last field |
| Wire.JoinSplit | src/service/session.cpp:83-94 | fields never hold a space and, joined by single spaces, give the line back |
| Wire.ParseInvertsJoin | src/service/session.cpp:73-102 | parsing a joined list of space-free fields gives the list back if and only if its last field is not empty |
| Clients.Client.Write | src/service/client.cpp:15-50 | nothing is sent for a single word other than `/quit` and `/commands`; what is sent parses into the typed fields, with the fields of the held token behind the first of them unless the text names a login or a registration; it holds a newline just when such a token does |
| Clients.OutgoingExactly | src/service/client.cpp:15-50 | what goes out for every typed text, written out |
| Clients.FirstDispatched | src/service/client.cpp:21-44 | for every held token and every way to cut up what is sent: the first line the server reads has the name, its space, and a second space just when the text as typed has it or, if the token is spliced in, the token starts empty; it is the only line unless a spliced token spans lines |
| Clients.OutgoingIsOneLine | src/service/client.cpp:21-44 | a sent text without a newline is read as one line, without one carriage return at its end, however it is cut up |
| Clients.LateTokenLines | src/service/client.cpp:40-44 | what is sent with a token that spans lines, as a read of greeting and token message together leaves it, is read as at least two lines: the last starts with "TOKEN:" or "OKEN:", those between are pieces of the greeting |
| Clients.Client.Read | src/service/client.cpp:91-105 | the token the client holds after one read |
| Clients.SpliceThenParse | src/service/client.cpp:40-44 | a spliced command parses into its name, the fields of the token (the token itself when it has no space), and the fields of the text after the name |
| Tokens.TokenArrivesExactly | src/service/client.cpp:74-105 | whatever precedes and follows the token message and however reads cut the stream: the read that has the whole prefix leaves the token if and only if it starts behind the last space before the message and ends with the message or just before its newline; if nothing later looks like a token message, that is what is held in the end, and if no read has the whole prefix, the held token stays |
| Readings.ReadingsExactly | src/service/session.cpp:5-30 | the lines a session can read from a stream, over all ways to cut it up, are exactly its readings: every line, with the byte behind it possibly missing from the next |
| Readings.EmptyTextExactly | src/service/session.cpp:15-19 | an empty text is dispatched if and only if a line was read empty, and when no chunk carries a byte past a newline, if and only if the peer sent an empty line |
| Readings.LostByteMakesEmpty | src/service/session.cpp:20-20 | otherwise not: a line of one byte is read as empty after its byte was lost, and an empty line behind another is not read at all |
| Wire.LinesKeepAll | src/service/session.cpp:7-19 | the reference cut: every piece ends at its only newline, the tail has none, and no byte is lost |
| Wire.DrainWellPaced | src/service/session.cpp:15-20 | with nothing past the newline, an arrival completes at most one line and then the buffer is empty |
| Wire.ReceiveWellPaced | src/service/session.cpp:5-30 | under any such chunking the lines are those of the whole stream, in order |
| Wire.FramingExact | src/service/session.cpp:5-30 | the lines read are the lines sent, and no byte is lost, if and only if no chunk carries a byte past a newline |
| Wire.PipelinedByteIsLost | src/service/session.cpp:20-20 | two commands in one chunk: the second loses its first byte |
| Sessions.Session.TakeLine | src/service/session.cpp:15-20 | one completion: the line without its end, and the buffer after the erase |
| Sessions.Session.Arrive | src/service/session.cpp:5-30 | all completions that an arrival causes, in order, and the buffer they leave |
| Sessions.Session.Autorize | src/service/session.cpp:104-112 | the whole new identity; the token is left alone and the flag is ignored |
| Sessions.Session.Logout | src/service/session.cpp:114-127 | no identity field remains |
| Transactions.StepSound | src/repository/FlatRepository.cpp:89-157 | each step of the concurrent machine keeps held rows matching their WHERE clause with one holder, and changes the table only as the indivisible call does |
| Transactions.TakeIs | src/repository/FlatRepository.cpp:99-115 | a take moves a flat from created to on_moderation, and nothing else |
| Transactions.DecideIs | src/repository/FlatRepository.cpp:134-150 | a decision moves a flat from on_moderation to the given status, and nothing else |
| Transactions.Serializable | src/repository/FlatRepository.cpp:89-157 | every interleaving of any number of calls, split into UPDATE, wait, commit, abort and return, has the answers and the table of the same calls run one after another in the order in which they took effect: at the commit or abort, or when the WHERE clause was found to match nothing, always between call and return |
| Transactions.EveryCallIsSettledOnce | src/repository/FlatRepository.cpp:103-121 | every call takes effect exactly once, in the order its caller made them |
| Transactions.EveryCallIsAnsweredOnce | src/repository/FlatRepository.cpp:103-121 | what the calls of a caller return is what was settled for them, in order and each once |
| Transactions.WaitingIsFor | src/repository/FlatRepository.cpp:99-109 | a waiting call can go on, or another call holds its row and can commit |
| Transactions.EveryCallCanReturn | src/repository/FlatRepository.cpp:89-157 | no deadlock: from every state some order of the remaining steps answers every open call without aborting one |
| Lifecycle.SuccessesMatchStatus | src/repository/FlatRepository.cpp:99-134 | a flat's status tells exactly how many takes and decisions on it returned true, so never more than one of each |
| Lifecycle.Conservation | src/repository/FlatRepository.cpp:7-157 | counts per status are the insertions, takes and decisions that succeeded, and add up to the insertions |
| Tables.SaveThenFind | src/repository/UserRepository.cpp:7-57 | logins stay unique, registering an existing login changes no row, and a new user is found with its role trimmed |
| Tables.UserViewIsFilteredView | src/repository/FlatRepository.cpp:29-87 | the user listing is the moderator listing filtered to approved if and only if no row of the house has a negative column, or an approved one has, or none is approved |
| Tables.ViewsDisagree | src/repository/FlatRepository.cpp:65-69 | a house for which it is not |
| Tables.ListingShows | src/repository/FlatRepository.cpp:39-87 | the whole listing: nothing for other roles, a failing call or a negative column; otherwise each row of exactly that house, for users only if approved, once, in scan order, with its own number, price, rooms and status |
| Database.Postgres.SaveUser | src/repository/UserRepository.cpp:7-27 | the new tables, with the unique login |
| Database.Postgres.FindUserByLogin | src/repository/UserRepository.cpp:29-69 | the row with that login, its role without one newline and then one carriage return |
| Database.Postgres.SaveFlat | src/repository/FlatRepository.cpp:7-27 | one new row with the default status, or none when the house does not exist |
| Database.Postgres.TakeFlat | src/repository/FlatRepository.cpp:89-122 | the compare-and-set from created to on_moderation |
| Database.Postgres.UpdateFlatStatus | src/repository/FlatRepository.cpp:124-157 | the compare-and-set from on_moderation to the given status |
| Database.Postgres.GetFlatForHouseID | src/repository/FlatRepository.cpp:29-87 | the loop over the selected rows, abandoned with an empty result at the first negative column |
| Commands.ExecuteLogin | src/patterns/LoginCommand.cpp:19-54 | identity taken from the stored row, and the replies in order with the issued token |
| Commands.ExecuteCreateFlat | src/patterns/FlatCommand.cpp:19-36 | one insertion behind the session guard |
| Commands.ExecuteTakeFlat | src/patterns/TakeFlatCommand.cpp:17-41 | one take behind the moderator guard |
| Commands.ExecuteUpdateFlatStatus | src/patterns/UpdateFlatStatusCommand.cpp:26-50 | one decision behind the moderator guard |
| Commands.ExecuteGetFlats | src/patterns/GetFlatsCommand.cpp:18-60 | the listing for the session's role behind the session guard |
| Commands.ExecuteCommand | src/service/session.cpp:47-71 | parse, construct, execute: session, tables and reply after one line |
| Commands.OnlyWhitelistedDecisions | src/patterns/UpdateFlatStatusCommand.cpp:16-23 | a line never becomes a decision with another status than approved or declined |
| Protocol.ReadExactly | src/service/session.cpp:47-56 | a line is read as a command if and only if its fields are the name and arguments of that command, each in its place |
| Protocol.RegisterLine | src/patterns/RegisterCommand.cpp:14-23 | "/register login password role" adds exactly that row, or none when the login exists |
| Protocol.LoginLine | src/patterns/LoginCommand.cpp:15-53 | "/login login password" against a stored row: with its password the session is that user and the second reply brings a token that validates to id, login and trimmed role for a day, exactly when these are UTF-8 and fit; with any other password nothing changes |
| Protocol.UnknownLoginLine | src/patterns/LoginCommand.cpp:25-32 | an unknown login changes nothing |
| Protocol.RegisterThenLogin | src/patterns/RegisterCommand.cpp:14-23 | who registers can log in with exactly the typed password and gets the typed role |
| Protocol.GetFlatsLine | src/patterns/GetFlatsCommand.cpp:14-24 | "/get_flats token house" lists the typed house for the session's role |
| Protocol.CreateHouseLine | src/patterns/HouseCommand.cpp:13-30 | a moderator's "/create_house" adds the next id |
| Protocol.TakeFlatLine | src/patterns/TakeFlatCommand.cpp:13-33 | a moderator's "/take_flat token flat" moves exactly that flat, if it is created |
| Protocol.UpdateFlatStatusLine | src/patterns/UpdateFlatStatusCommand.cpp:13-42 | a moderator's "/update_flat_status token flat status" decides exactly that flat, if it is on moderation |
| Commands.CreateFlatEndToEnd | src/patterns/FlatCommand.cpp:12-27 | four typed 32-bit integers travel through splice, parse, `stoi`, widening and narrowing into the matching columns of one new row |
| Gate.CreateFlatFromKeyboard | src/patterns/FlatCommand.cpp:12-27 | the same in every reachable state, from what a client that holds no token sends, cut up anywhere, to the new state of the whole service |
| Service.CommandTables | src/patterns/RegisterCommand.cpp:19-24 | all that commands outside transactions do to the tables: which user row a registration adds and when, which house or flat is added, which serial values are used up; logins stay unique |
| Service.OutsideEvents | src/service/http_session.cpp:120-131 | a registration over HTTP adds exactly the given row; a new connection starts a session without identity |
| Service.EventIsAction | src/service/session.cpp:54-61 | every event touches the flats by exactly one store action or none |
| Service.OpenIsModerated | src/patterns/TakeFlatCommand.cpp:19-21 | only a moderator session opens a transaction, and only with an allowed decision |
| Service.InvAlways | src/service/session.cpp:104-127 | unique logins, sessions backed by stored rows, empty session tokens, moderated calls and existing houses hold in every reachable state |
| Runs.RunIsSerial | src/repository/FlatRepository.cpp:89-157 | every run of all sessions together is explained by its calls and insertions one after another, in the order in which they took effect |
| Runs.RunBalances | src/repository/FlatRepository.cpp:7-157 | conservation and at most one successful take and decision per flat, for every run |
| Runs.SessionsMatchUsers | src/patterns/LoginCommand.cpp:23-47 | in every run an authorised session matches exactly one stored user, any other holds nothing, and no session holds a token |
| Runs.TraceIsLifecycle | migrations/001_init.sql:15-15 | over every run each flat's statuses are a prefix of created, on_moderation, then approved or declined |
| Runs.Provenance | src/patterns/UpdateFlatStatusCommand.cpp:26-30 | every final flat was taken and later decided so, each by a session then authorised as moderator from a stored row |
| Runs.CallsAreCommanded | src/patterns/TakeFlatCommand.cpp:19-21 | every open call was started by a command whose guard held, with the session's own token |
| Runs.RowsStay | src/repository/FlatRepository.cpp:14-134 | rows stay, their house, number, price and rooms never change, statuses only advance and final ones are fixed |
| Runs.ListedStaysListed | src/repository/FlatRepository.cpp:39-42 | a flat in a user listing is in every later user listing of the house that does not fail |
| Runs.UndisturbedCall | src/repository/FlatRepository.cpp:89-122 | the split steps of a lone call equal the one-step execution of its line, when the database answers and when the call fails before or after its UPDATE |
| Runs.EverySessionCanGoOn | src/repository/FlatRepository.cpp:89-157 | in every state the calls in progress can all be answered, without a failure and without new input, so that every session can take its next line |
| Gate.RefusedExactly | src/patterns/TakeFlatCommand.cpp:19-38 | a guarded command is refused, with no effect, if and only if session, token or role do not suffice |
| Gate.LineExactly | src/service/session.cpp:47-71 | any line at all is refused, without effect, if and only if it cannot be read or is a guarded command that is not allowed |
| Gate.GuardedLineExactly | src/service/session.cpp:148-151 | in every reachable state a line with a guarded command is accepted if and only if it can be read, presents the empty token by a second space, and session and role suffice |
| Gate.ClientCommandPassesExactly | src/service/client.cpp:25-44 | for every typed guarded command, every held token and every way to cut up what is sent: the first line the server reads passes if and only if it can be read, session and role suffice, and the typed text has the second space itself (when it names a login or registration) or the client has nothing to present; otherwise it is refused without effect, and it is the only line unless a spliced token spans lines |
| Gate.UnsplicedTakeIsStarted | src/service/client.cpp:25-31 | a typed text that passes: a moderator's `/take_flat  5/login` |
| Gate.CarriageReturnIsDropped | src/service/session.cpp:17-19 | a typed text that passes only because the server drops its carriage return: it cannot be read as typed, and opens a decision as dispatched |
| Gate.IssuedTokenArrives | src/patterns/LoginCommand.cpp:48-52 | which token the client holds after the two replies to a login, for every way its reads can cut them |
| Gate.LoggedInClientIsRefused | src/patterns/LoginCommand.cpp:45-53 | after a login whose token came through, the one line the server reads from any guarded command of the client is without effect at any later point of any run, unless the text goes out as typed and passes with the empty token |
| Gate.LateReadLines | src/service/client.cpp:91-105 | the lines read from a client that read part of a greeting together with the token message: the last never acts, the first only after two spaces in a row, any others are pieces of the greeting |
| Gate.CombinedReadKeeps | src/service/client.cpp:91-105 | what a client holds after it read both replies to a login at once |
| Gate.CombinedReadIsRefused | src/service/client.cpp:40-44 | the lines the server reads from such a client's guarded command: each is refused, without effect, exactly if it does not act; first and last never act; those between are pieces of the role, and there are none when the role has no newline |
| Gate.QuitInRole | src/service/client.cpp:40-44 | a role whose piece acts: the command arrives as three lines, the second of them `/quit` |
| Gate.QuitLogsOut | src/service/session.cpp:114-127 | that line logs the session out |
| Gate.UsableTokenFitsOneRead | src/service/client.cpp:74-91 | the message of a token that validates fits one 1024-byte read |
| Http.ValidateToken | src/service/http_session.cpp:577-595 | true exactly when the token is non-empty and accepted, and then with its role |
| Http.ProcessRequest | src/service/http_session.cpp:96-234 | which handler or error answers a request, the router's own failures included |
| Http.RoutesAre | src/service/http_session.cpp:104-226 | each path and method, written out, with the handler or the error it leads to |
| Http.FlatGate | src/service/http_session.cpp:143-162 | `POST /api/flat` is handled if and only if the header is "Bearer " and a token that validates, and is unauthorized otherwise |
| Http.InternalErrorExactly | src/service/http_session.cpp:115-124 | the router fails if and only if the body of a registration cannot be read, or the endpoint is unknown and its path is not UTF-8 |
| Http.ModeratorGate | src/service/http_session.cpp:172-221 | a moderator handler runs if and only if path and method match and the header is "Bearer " and a token that validates with role moderator |
| Http.GeneratedTokenAtGate | src/service/http_session.cpp:179-186 | a generated token passes if and only if its role is moderator, its login is UTF-8, its payload fits and it has not expired |
| Http.LoginTokenSays | src/service/http_session.cpp:297-299 | what the token of the HTTP login validates to, and when |
| Http.HttpLoginNeverModerates | src/service/http_session.cpp:297-299 | no token issued by the HTTP login opens a moderator endpoint |
| Http.RefusalIsFinal | src/service/http_session.cpp:540-595 | a request refused now is refused at every later time |

## Left out

- Sockets, accept loops, callbacks, threads and sleeps: only the bytes, their order and the order of events are kept. A
  closed connection is a session that sends no more lines.
- The inside of HMAC-SHA256 and any claim that signatures cannot be forged; OpenSSL on malformed base64.
- JSON beyond flat objects of strings and 64-bit integers without white space; what the library does with other texts is
  a parameter. Request bodies and response texts of the HTTP handlers, which do not touch the stored data.
- A commit whose outcome is unknown to the caller; overflow of the serial columns; the 255-character limit of the text
  columns beyond "the call may fail".
- The columns of houses other than their ids, the creation timestamp, and the wording of replies other than login's.
- `setToken`, which no command calls; the logger; passwords beyond their comparison.
- Sessions.Session.Arrive: hands over all the lines that one arrival completes before the first of them is executed, while
  the source executes each line before it looks for the next; neither the buffer nor the lines depend on that order.
- Service.InvAlways: a command other than a take or a decision is one step, since its single statement is atomic in the
  database.
- Clients.Client.Write: one round of the loop; the loop itself, which ends on `/quit` or a send error, is not modelled.
- Service.Apply: an empty line changes nothing here. The source takes the first of no fields there
  (`src/service/session.cpp:51`), which C++ leaves undefined. When an empty line is dispatched is stated by
  `Readings.EmptyTextExactly`; the shown client causes none as long as its token does not span lines
  (`Clients.FirstDispatched`).
- Http.ProcessRequest: how a registration body is read is a parameter (`registers`); the handlers behind the router
  catch their own exceptions and their replies are not modelled.
- Replies arrive as they were written, one after another; that an asynchronous write refers to a text the caller may
  already have dropped is not modelled.
