# chatserver in Dafny

A model of the core of `chatserver`, a line-oriented TCP chat relay. Clients
connect and get a guest nickname (`GUEST001`, `GUEST002`, …). Every line they
send is broadcast to all other online sessions, prefixed with the sender's
nickname and `": "`. Two in-band commands exist:
- `/nick <name>` renames the issuer;
- `/register <name> <password>` reserves a nickname in a password-protected
  directory, or claims one already reserved.

The model is functional. The relay's state is a `ChatServer.Server` value
with three parts:
- the session registry: uid → session, `Registry.UserSyncMap`;
- the nickname directory: nickname → record, `Directory.RegMap`;
- the accept counter.

Each environment event is one atomic `ChatServer.Step`: accept a connection,
receive a line on a session, or reach end-of-stream on a session. A step
yields either the next state and the lines written to each session
(`Registry.Line`), or a crash of the whole process (`Panic`). `ChatServer.Run`
folds a sequence of events.

Every `char` of the model stands for one byte. The relay works on byte
slices and Go strings, and all its constants are ASCII, so `|s|` is Go's
`len(s)`.

Modules:
- `Options`: the optional-value type.
- `Text`: the standard-library helpers the relay relies on, which are
  `bytes.TrimRight`, `strings.Split`, `strings.Join` and the `%03d` of the
  guest name.
- `Protocol`: the constants of `chatserver.go`.
- `Bcrypt`: an idealised password hash. Like bcrypt, it keys on 72 bytes
  made of the password followed by a NUL byte, repeated cyclically. Apart
  from what that key loses, it is collision-free.
- `Directory`: `reginfo.go`.
- `Registry`: `userinfo.go`.
- `ChatServer`: `chatserver.go`, meaning ingress, routing, the command
  interpreter and the session lifecycle.
- `Relay`: the properties that relate several operations or several steps,
  including a replay of the repository's end-to-end test session.

Behaviours of the code worth knowing:
- A command of two or more bytes from a session that is no longer in the
  registry crashes the process. The type assertion at `chatserver.go:133`
  runs on a nil interface before the online check at line 135 can return.
  The model yields `Panic(NilTypeAssertion)`.
- Registering a fresh nickname evicts every online holder of it, and the
  issuer is one of them when it already uses that name. This is exactly the
  end-to-end test's session: `/nick frank`, then `/register frank frank123`.
  The evicted issuer is still sent the rename confirmation, because
  `updateNickname` runs on its detached record, but it is no longer online
  (`Relay.RegisterOwnNameStep`, `Relay.TestSessionReplay`).
- The eviction notice reads "The server has disconnected you. Another user
  has registered this nickname.".
- The directory is never consulted when a connection is accepted. A new
  guest can therefore receive a guest name that someone has already
  registered, and it keeps that name without a password. This is unlike
  every other way of taking a registered name
  (`Relay.GuestMayHoldRegisteredName`, against
  `Relay.RegisteredNameNeedsPassword`).
- bcrypt ignores password bytes past the 72nd. A registered nickname whose
  password is 72 bytes or longer can be claimed with any password that
  shares those first 72 bytes (`Bcrypt.LongPasswordTailIgnored`).
- Short passwords collide too, through the NUL byte that ends them in the
  key. "ab" and "ab", NUL, "ab" have the same key
  (`Bcrypt.NulRepeatCollides`), and so do a 71-byte password and the same
  password followed by NUL (`Bcrypt.TrailingNulCollides`). Only among
  NUL-free passwords does a short password's hash accept no other
  (`Bcrypt.ShortPasswordOnlyItself`).
- The end-to-end test writes its commands through a buffered writer that it
  never flushes. The replay models the session as though the bytes arrived.

## Model

| member | source | states |
|---|---|---|
| Text.TrimRight | chatserver.go:109-110 | the trimmed line is a prefix of the read bytes, does not end in CR or LF, and only CR and LF bytes were removed |
| Text.TrimRightUnique | chatserver.go:110 | those three properties single out the trimmed line: any prefix meeting them is the trim |
| Text.TrimRightAppended | chatserver.go:110 | a text that does not end in CR or LF comes back unchanged after any run of CR and LF bytes is appended and trimmed |
| Text.TrimRightIdempotent | chatserver.go:110 | trimming an already trimmed line changes nothing |
| Text.Split | chatserver.go:140 | a payload splits into one more token than it has spaces, and no token contains a space |
| Text.JoinSplit | chatserver.go:140 | re-joining the tokens with single spaces gives back the payload, so splitting loses no byte |
| Text.SplitJoin | chatserver.go:140 | splitting a space-joined list of space-free tokens gives back exactly those tokens |
| Text.JoinCount | userinfo.go:74 | comma-joining k comma-free nicknames puts exactly k - 1 commas between them |
| Text.SplitNoSep | chatserver.go:140 | a payload without a space is a single token |
| Text.SplitHead | chatserver.go:140 | a space-free head followed by a space splits off as the first token |
| Text.Decimal | userinfo.go:58 | `%d` of a uid is a non-empty digit string that has no leading zero unless the uid is 0 |
| Text.DecimalRoundTrip | userinfo.go:58 | reading back the printed digits gives the uid |
| Text.LeadingZeros | userinfo.go:58 | zero padding does not change the value the digits denote |
| Text.Pad3 | userinfo.go:58 | `%03d` gives at least three digits that denote the uid, padded only up to three |
| Bcrypt.GenerateFromPassword | reginfo.go:40-49 | hashing succeeds exactly when the random source does, at the requested cost, and a produced hash accepts the password it was made from |
| Bcrypt.Key | reginfo.go:18-20 | the key is 72 bytes: the first 72 bytes of a long password; for a short one, the password and a NUL byte, after which every byte repeats the byte one password-plus-NUL length earlier |
| Bcrypt.AcceptsSameKey | reginfo.go:18-20 | a hash accepts a password if and only if its 72-byte key equals the hashed password's key |
| Bcrypt.CyclePeriodic | reginfo.go:18-20 | past its first round, every byte of a cycle read repeats the byte one period earlier |
| Bcrypt.CycleDouble | reginfo.go:18-20 | reading a cycle written out twice gives the same bytes as reading it once |
| Bcrypt.NulRepeatCollides | reginfo.go:18-20 | a password followed by NUL and itself again has the same key as the password alone, so each one's hash accepts the other |
| Bcrypt.TrailingNulCollides | reginfo.go:18-20 | a 71-byte password and the same password followed by NUL have the same key |
| Bcrypt.FirstNulEndsPassword | reginfo.go:18-20 | in the key of a short NUL-free password, the first NUL byte comes right after the password |
| Bcrypt.ShortPasswordOnlyItself | reginfo.go:18-20 | among NUL-free passwords, the hash of one shorter than 72 bytes accepts no other |
| Bcrypt.LongPasswordTailIgnored | reginfo.go:18-20 | the hash of a password of 72 bytes or more also accepts that password with anything appended |
| Directory.HashAndSalt | reginfo.go:40-49 | the minimum-cost hash exists exactly when hashing succeeds and then accepts the password |
| Directory.CreateNewReg | reginfo.go:22-33 | on a hashing failure nothing is stored and no record is returned; otherwise a record for the name is stored and returned that accepts the password, the name is the only key added, and other records keep their values |
| Directory.CreatedRecordAcceptsSameKey | reginfo.go:18-33 | a newly created record accepts a password if and only if its 72-byte bcrypt key equals the registered password's key |
| Directory.CreateNewRegKeepsKeying | reginfo.go:22-33 | after a registration every directory record is still stored under its own nickname |
| Registry.Wire | userinfo.go:29-45 | the bytes written for a line are its text followed by CR and LF |
| Registry.WireTrimRoundTrip | userinfo.go:29-45 | a written line whose text does not end in CR or LF is read back by a peer's ingress trim as exactly its text |
| Registry.UpdateNickname | userinfo.go:47-51 | the session keeps its uid, takes the new name, has a display prefix of name plus ": ", and is sent "Your nickname has been changed to <name>" |
| Relay.InvalidNicknameIff | userinfo.go:113-115 | with the right number of arguments, `/nick` and `/register` answer "Invalid Nickname." and change nothing if and only if the name is shorter than four bytes |
| Registry.GuestName | userinfo.go:58 | a guest name is "GUEST" followed by digits that denote the uid, padded to three digits and no further |
| Registry.FirstGuestName | userinfo.go:58 | session 1's guest name is "GUEST001" |
| Registry.GuestNameInjective | userinfo.go:58 | two sessions with different uids never get the same guest name |
| Registry.GuestNameValid | userinfo.go:58 | every guest name is an acceptable nickname |
| Registry.CreateNewUser | userinfo.go:53-63 | the new session is stored under its uid with its guest name and a matching prefix, and is told its name; no other session changes |
| Registry.RangeOrder | userinfo.go:69 | the enumeration lists every session key exactly once |
| Registry.OnlineUserList | userinfo.go:65-75 | the summary is "ONLINE NOW: " followed by the nicknames of one enumeration of all sessions, joined by commas |
| Registry.OnlineUserListNamesEverySession | userinfo.go:65-75 | every session's nickname is one of the entries joined into the summary |
| Registry.OnlineUserListSingle | userinfo.go:65-75 | with one session online, the summary is "ONLINE NOW: " followed by that session's nickname |
| Registry.OnlineUserListExact | userinfo.go:65-75 | when no nickname contains a comma, the summary has exactly one entry per session, and every entry is the nickname of a session |
| Registry.DisconnectUsersWithNickname | userinfo.go:77-94 | the sessions kept are exactly those not holding the name, and they are unchanged; a line is queued if and only if it is the disconnect notice to a holder of the name, one per holder |
| Registry.DispatchUserMessage | userinfo.go:96-111 | an unknown sender sends nothing; otherwise a line is sent if and only if it goes to another online session and reads the sender's prefix plus the message, once per recipient |
| Registry.BroadcastFromSender | userinfo.go:96-111 | in a consistent registry every broadcast line reads "<sender nickname>: <message>", and the sender never gets a copy |
| ChatServer.Initial | chatserver.go:30-36 | the relay starts with no sessions, no registrations and the connection counter at 0, and the invariant holds |
| ChatServer.ReadLines | chatserver.go:102-107 | the stream is cut into lines that each end at their first line feed; together they form a prefix of the stream; an unterminated tail is dropped at end-of-stream |
| ChatServer.ReadLineIsOneLine | chatserver.go:102-107 | a line that ends in its only line feed is read as exactly that one line |
| ChatServer.Ingress | chatserver.go:109-115 | a line made only of CR and LF bytes yields no event; otherwise the event carries the session's uid and the non-empty line with its CR and LF tail removed |
| ChatServer.OutputHandler | chatserver.go:61-76 | a payload is a command exactly when it is non-empty and starts with "/"; a non-command line changes no state, is dropped when its sender is offline, and otherwise reaches every other online session exactly once as the sender's prefix plus the line; a command crashes the relay exactly when it is longer than "/" and comes from an offline session, and otherwise goes to the interpreter |
| ChatServer.ProcessCommand | chatserver.go:119-210 | the relay crashes if and only if the payload is empty or it is a command from an offline session; otherwise only `/nick` and `/register` can change state; they change only the issuer's session, remove sessions and add records, and never alter an existing record; the invariant is preserved |
| ChatServer.Tokens | chatserver.go:129-140 | the tokens contain no space, there is at least one, and the sigil followed by the tokens joined with single spaces is the payload |
| ChatServer.StoreIfPresent | chatserver.go:195 | renaming the issuer after an eviction updates its session only if it is still online; an evicted issuer stays evicted and no other session changes |
| ChatServer.Nick | chatserver.go:141-162 | the issuer's session changes only when exactly one argument is given, it is long enough and it is not registered; nothing else changes |
| ChatServer.Register | chatserver.go:164-204 | only the named nickname can be added to the directory, and only when exactly two arguments are given; existing records are untouched; sessions can only leave; no session other than the issuer changes |
| ChatServer.Claim | chatserver.go:178-186 | claiming a registered name either renames the issuer, which needs the right password, or changes nothing and sends nothing |
| ChatServer.RegisterNew | chatserver.go:187-203 | a hashing failure does nothing; otherwise the name is added with a record that accepts the password, and the sessions left are exactly those not holding the name |
| ChatServer.Greeting | chatserver.go:92-93 | a new session is sent the online list and then "Welcome! Your nickname is: <name>" |
| ChatServer.AcceptConnection | chatserver.go:53-57 | a new connection takes the next uid, which is not yet online, and its guest name; it is sent "Your nickname has been changed to <guest name>", then the online list, then "Welcome! Your nickname is: <guest name>"; nobody else changes; the invariant is preserved |
| ChatServer.FirstConnection | chatserver.go:36-57 | the first client of a fresh relay becomes session 1 and is sent "Your nickname has been changed to GUEST001", "ONLINE NOW: GUEST001" and "Welcome! Your nickname is: GUEST001" |
| ChatServer.AdmitKeepsValid | chatserver.go:53-57 | storing the new guest session keeps the invariant, and its uid is fresh |
| ChatServer.Hangup | chatserver.go:81-90 | end-of-stream removes exactly that session, if present, and leaves the rest as it was |
| ChatServer.Step | chatserver.go:48-117 | each event preserves the invariant and never alters a registered record; a crash needs a line from an offline session; new sessions get uids above the counter; only a `/nick` or `/register` line from a session changes that session |
| ChatServer.Run | chatserver.go:48-117 | a run of events preserves the invariant and never alters a registered record |
| Relay.TokensOfCommandLine | chatserver.go:140 | a command written from space-free tokens is read back by the interpreter as exactly those tokens |
| Relay.DoubledSpaceAddsToken | chatserver.go:140-145 | `/nick` with two spaces before the name has three tokens, so it is ignored without a reply and changes nothing |
| Relay.BlankLineIgnored | chatserver.go:110-115 | a line of only CR and LF bytes changes nothing and sends nothing |
| Relay.BroadcastDelivery | chatserver.go:69-73 | a non-command line changes no state and reaches every other online session once, as "<nickname>: <line>", and never the sender |
| Relay.BroadcastFromOfflineSender | userinfo.go:98-102 | a line from a session no longer online is dropped |
| Relay.SigilAloneIgnored | chatserver.go:126-128 | the bare "/" changes nothing and sends nothing |
| Relay.OfflineCommandPanics | chatserver.go:132-138 | a command from a session no longer online crashes the relay |
| Relay.UnknownKeyword | chatserver.go:206-208 | an unknown keyword is answered with "Invalid Command." and changes nothing |
| Relay.NickWrongArity | chatserver.go:142-145 | `/nick` with other than one argument is silent and changes nothing |
| Relay.NickTooShort | chatserver.go:149-153 | `/nick` with a name shorter than four bytes is answered with "Invalid Nickname." and changes nothing |
| Relay.NickReserved | chatserver.go:155-159 | `/nick` with a registered name is answered with the reserved notice and changes nothing |
| Relay.NickReservedIff | reginfo.go:35-38 | with a long enough name, `/nick` is refused as reserved if and only if the directory holds the name |
| Relay.NickRenames | chatserver.go:161-162 | otherwise `/nick` renames the issuer, updates its prefix and confirms; nothing else changes |
| Relay.RegisterWrongArity | chatserver.go:165-168 | `/register` with other than two arguments is silent and changes nothing |
| Relay.RegisterTooShort | chatserver.go:171-175 | `/register` with a name shorter than four bytes is answered with "Invalid Nickname." and changes nothing |
| Relay.ClaimAccepted | chatserver.go:178-183 | the right password for a registered name renames the issuer and confirms, and the directory and other sessions are unchanged |
| Relay.ClaimRejectedSilently | chatserver.go:184-186 | a wrong password for a registered name is silent and changes nothing |
| Relay.ClaimIffPassword | reginfo.go:18-20 | claiming a registered name the issuer does not hold renames it if and only if the record accepts the password |
| Relay.RegisterHashFailure | chatserver.go:201-203 | a fresh registration whose hashing fails is silent and changes nothing |
| Relay.RegisterFreshName | chatserver.go:187-203 | a fresh registration adds exactly that name, with a record accepting the password, and keeps older records; every holder of the name is removed, the issuer included; the issuer otherwise takes the name; the lines sent are exactly the holders' notices and the issuer's confirmation |
| Relay.SecondRegistrationOnlyClaims | chatserver.go:178-189 | after a name is registered, a second `/register` of it adds nothing; it renames its issuer if and only if the issuer presents a password with the same 72-byte bcrypt key as the first, or already holds the name |
| Relay.RegisteredNameNeedsPassword | chatserver.go:141-204 | a command that moves a session onto a registered nickname is that session's own `/register` of the name with the right password |
| Relay.StaysAway | chatserver.go:53-57 | a session that has left never returns during any later run of events, because accepted uids are always fresh |
| Relay.NicknameKeptWithoutRename | chatserver.go:119-210 | a session that never sends `/nick` or `/register` keeps its nickname for as long as it stays online |
| Relay.GuestUntilRenamed | userinfo.go:53-63 | an accepted client keeps its guest name until it renames itself |
| Relay.TypedLine | chatserver_test.go:35 | a typed line without a line feed, terminated with CR LF, is read as one line and reaches the router as exactly the typed text |
| Relay.NickLineRead | chatserver_test.go:35 | `/nick <n>` is read as one line and reaches the interpreter as the tokens "nick" and n |
| Relay.RegisterLineRead | chatserver_test.go:50 | `/register <n> <p>` is read as one line and reaches the interpreter as the tokens "register", n and p |
| Relay.NickStep | chatserver_test.go:33-47 | the test's `/nick` renames the client and sends exactly the confirmation |
| Relay.RegisterOwnNameStep | chatserver_test.go:49-62 | registering the name the client already holds records the name with the password, and evicts the client itself, which is still sent the notice and the confirmation |
| Relay.NickFromEvicted | chatserver.go:132-138 | a further command from the evicted client crashes the relay |
| Relay.TestSessionReplay | chatserver_test.go:10-63 | the test's whole session, as lines the reader can deliver: connect, `/nick n`, `/register n p`; after it the client is offline, the name is registered, and one more command crashes the relay |
| Relay.NewcomerSeesItselfOnline | chatserver.go:92 | the online list a new client is sent names the client's own guest name |
| Relay.RegisterFreshStep | chatserver.go:187-203 | a client's `/register` line for a free name records the name with a record accepting the password, keeps the invariant and leaves the accept counter alone |
| Relay.GuestMayHoldRegisteredName | chatserver.go:53-57 | once a session registers the guest name the next connection will get, the next connection holds that registered name without a password |

## Left out

- The TCP listener, the accept loop's error exit and `main.go`'s flag parsing. An accepted connection is the `Accept` event.
- Goroutines and the message channel. Each event is one atomic step. Commands really run concurrently with each other and with broadcasts, so interleavings inside a command are not modelled.
- The detached goroutine that writes the disconnect notice and closes the transport two seconds later. The notice is a line of the step that evicts, and the close is not modelled.
- bcrypt's algorithm, cost and encoding. A digest records the 72-byte key that bcrypt derives from its password, so two passwords collide exactly when their keys agree. The `None` random source stands for any hashing failure. That includes the error recent versions of the bcrypt package return for a password longer than 72 bytes; versions that truncate such a password instead are the ones modelled.
- Logging, `ToString`, and the TCP no-delay option.
- Write errors in `writeln`. Every queued line is taken as written.
- A read error other than end-of-stream, on which the source's loop keeps reading. Lines are taken as whole.
- ChatServer.Step: it does not bound the accept counter to 64 bits, because overflow needs 2^63 connections.
- Registry.RangeOrder: `sync.Map.Range` order is unspecified, and the model fixes ascending uid. The contracts on the online list, broadcast and eviction state which lines are produced, not their order.
- ChatServer.RegisterNew: it does not order the eviction notices relative to the issuer's confirmation, because those writes run on different goroutines.
- ChatServer.Step: takes any string as a received line, while the reader only ever delivers lines that satisfy `IsReadLine`. Properties of whole runs do not assume that framing. The lemmas about typed lines prove their lines are framed (`Relay.TypedLine`).
- A session's transport is identified with its registry key. `Registry.Consistent` states that every session sits under its own uid.
- `MsgInfo` is modelled as the sender's uid and the line's bytes (`Registry.MsgInfo`).
