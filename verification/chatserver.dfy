/**
 The relay's event processing (chatserver.go): ingress framing, routing,
 the command interpreter, and the step function that applies one event to
 the registry and the directory and yields the lines to write.

 Every event is one atomic step. The lines a step yields are grouped by
 event; within a step, lines to different sessions carry no order.
 */
module ChatServer {
  import opened Options
  import opened Protocol
  import opened Text
  import opened Registry
  import opened Directory

  /** The relay's shared state: who is online, which nicknames are
      registered, and how many transports have been accepted. */
  datatype Server = Server(allUsers: UserSyncMap, registeredNicks: RegMap, ctr: nat)

  /** Why a step crashed the process instead of completing. */
  datatype PanicReason =
    | IndexOutOfRange     // first byte of an empty payload
    | NilTypeAssertion    // command from a sender no longer in the registry

  /** The result of one step: the new state and the lines to write, or a
      crash of the whole process. */
  datatype Outcome = Next(server: Server, out: seq<Line>) | Panic(reason: PanicReason)

  /** What the environment can do next. `salt` is what the random source
      would yield if the line makes the relay hash a password (`None`: the
      hashing fails). */
  datatype Event =
    | Accept
    | Received(uid: Uid, raw: string, salt: Option<nat>)
    | Eof(uid: Uid)

  const InvalidNicknameText: string := "Invalid Nickname."
  const ReservedText: string := "Nickname not changed because it is reserved."
  const InvalidCommandText: string := "Invalid Command."
  const WelcomeText: string := "Welcome! Your nickname is: "

  /** What the relay keeps true between events. */
  predicate Valid(s: Server) {
    && Consistent(s.allUsers)
    && (forall k :: k in s.allUsers ==> 1 <= k <= s.ctr && IsValidNickname(s.allUsers[k].nickname))
    && KeyedByNickname(s.registeredNicks)
  }

  /** `after` keeps every record of `before` untouched. */
  predicate DirectoryExtends(before: RegMap, after: RegMap) {
    forall n :: n in before ==> n in after && after[n] == before[n]
  }

  /** The empty relay, before anything is accepted. */
  function Initial(): (s: Server)
    ensures Valid(s) && s.allUsers == map[] && s.registeredNicks == map[] && s.ctr == 0
  {
    Server(map[], map[], 0)
  }

  /* ---------------------------------------------------------------------
     Ingress
     --------------------------------------------------------------------- */

  /** Position of the first `c` in `s`, if any. */
  function FirstIndex(s: string, c: char): (r: Option<nat>)
    ensures r.None? ==> c !in s
    ensures r.Some? ==> r.value < |s| && s[r.value] == c && c !in s[..r.value]
    decreases |s|
  {
    if |s| == 0 then None
    else if s[0] == c then Some(0)
    else
      match FirstIndex(s[1..], c)
      case None => None
      case Some(i) => Some(i + 1)
  }

  function Concat(ls: seq<string>): string
    decreases |ls|
  {
    if |ls| == 0 then "" else ls[0] + Concat(ls[1..])
  }

  /** A line as the reader delivers it: it ends in a line feed and holds
      no earlier one. */
  predicate IsReadLine(raw: string) {
    |raw| > 0 && raw[|raw| - 1] == MsgDelimiter && MsgDelimiter !in raw[..|raw| - 1]
  }

  /** The lines a transport's byte stream is cut into: each one runs up to
      and including a line feed. Bytes after the last line feed end in
      end-of-stream and are dropped. */
  function ReadLines(stream: string): (ls: seq<string>)
    ensures forall i :: 0 <= i < |ls| ==> IsReadLine(ls[i])
    ensures Concat(ls) <= stream && MsgDelimiter !in stream[|Concat(ls)|..]
    decreases |stream|
  {
    match FirstIndex(stream, MsgDelimiter)
    case None => []
    case Some(i) =>
      var rest := ReadLines(stream[i + 1..]);
      assert stream[..i + 1][..i] == stream[..i];
      assert stream == stream[..i + 1] + stream[i + 1..];
      [stream[..i + 1]] + rest
  }

  /** A stream that is one read line is read as exactly that line. */
  lemma ReadLineIsOneLine(raw: string)
    requires IsReadLine(raw)
    ensures ReadLines(raw) == [raw]
  {
    var i := FirstIndex(raw, MsgDelimiter).value;
    assert i == |raw| - 1;
    assert raw[i + 1..] == [];
    assert raw[..i + 1] == raw;
  }

  /** One line read from session `uid`: trailing CR and LF bytes are
      stripped, and only a non-empty remainder becomes an event. */
  function Ingress(uid: Uid, raw: string): (e: Option<MsgInfo>)
    ensures e.None? <==> forall i :: 0 <= i < |raw| ==> raw[i] in OutputLineTerm
    ensures e.Some? ==>
      && e.value.uid == uid
      && |e.value.msg| > 0 && e.value.msg <= raw
      && e.value.msg[|e.value.msg| - 1] !in OutputLineTerm
      && forall i :: |e.value.msg| <= i < |raw| ==> raw[i] in OutputLineTerm
  {
    var message := TrimRight(raw, OutputLineTerm);
    if |message| > 0 then Some(MsgInfo(uid, message)) else None
  }

  /* ---------------------------------------------------------------------
     Routing
     --------------------------------------------------------------------- */

  /** A payload is a command when its first byte is the command sigil. */
  predicate IsCommand(msg: string) {
    |msg| > 0 && msg[0] == CmdSpecifier
  }

  /** Sends a command to the interpreter and anything else to broadcast.
      A broadcast changes no state and reaches every other online session
      once, prefixed with the sender's display prefix; a command crashes
      the relay exactly when it comes from a session no longer online. */
  function OutputHandler(s: Server, m: MsgInfo, salt: Option<nat>): (r: Outcome)
    ensures !IsCommand(m.msg) ==> r.Next? && r.server == s
    ensures !IsCommand(m.msg) && m.uid !in s.allUsers ==> r.out == []
    ensures !IsCommand(m.msg) && m.uid in s.allUsers ==>
      && |r.out| == |s.allUsers| - 1
      && forall l :: l in r.out <==>
           l.to in s.allUsers && l.to != m.uid && l.text == s.allUsers[m.uid].bnickname + m.msg
    ensures IsCommand(m.msg) ==> (r.Panic? <==> |m.msg| > 1 && m.uid !in s.allUsers)
    ensures IsCommand(m.msg) ==> r == ProcessCommand(s, m, salt)
  {
    if |m.msg| > 0 && m.msg[0] == CmdSpecifier then ProcessCommand(s, m, salt)
    else Next(s, DispatchUserMessage(s.allUsers, m))
  }

  /* ---------------------------------------------------------------------
     Command interpreter
     --------------------------------------------------------------------- */

  /** Replaces the session stored under `key` when it is still there; a
      session already removed stays removed. */
  function StoreIfPresent(m: UserSyncMap, key: Uid, u: UserInfo): (r: UserSyncMap)
    ensures r.Keys == m.Keys
    ensures key in m ==> r[key] == u
    ensures forall k :: k in m && k != key ==> r[k] == m[k]
  {
    if key in m then m[key := u] else m
  }

  /** The tokens of a command payload: everything after the sigil, split at
      every single space. */
  function Tokens(msg: string): (v: seq<string>)
    requires |msg| > 0
    ensures |v| >= 1
    ensures forall i :: 0 <= i < |v| ==> ' ' !in v[i]
    ensures [msg[0]] + Join(v, ' ') == msg
  {
    JoinSplit(msg[1..], ' ');
    Split(msg[1..], ' ')
  }

  /** `processCommand`. A payload of one byte, or one that does not start
      with the sigil, does nothing; a command from a session that is no
      longer registered crashes the process at the type assertion that
      precedes the online check. */
  function ProcessCommand(s: Server, m: MsgInfo, salt: Option<nat>): (r: Outcome)
    ensures r.Panic? <==> |m.msg| == 0 || (IsCommand(m.msg) && |m.msg| > 1 && m.uid !in s.allUsers)
    ensures r.Next? ==> r.server.ctr == s.ctr
    ensures r.Next? ==> DirectoryExtends(s.registeredNicks, r.server.registeredNicks)
    ensures r.Next? ==> r.server.allUsers.Keys <= s.allUsers.Keys
    ensures r.Next? ==> forall k :: k in r.server.allUsers && k != m.uid ==>
      r.server.allUsers[k] == s.allUsers[k]
    ensures r.Next? && Valid(s) ==> Valid(r.server)
    ensures r.Next? && !(|m.msg| > 1 && IsCommand(m.msg) && Tokens(m.msg)[0] in {"nick", "register"}) ==>
      r.server == s
  {
    if |m.msg| == 0 then Panic(IndexOutOfRange)
    else if m.msg[0] != CmdSpecifier || |m.msg| <= 1 then Next(s, [])
    else if m.uid !in s.allUsers then Panic(NilTypeAssertion)
    else
      var user := s.allUsers[m.uid];
      var v := Tokens(m.msg);
      if v[0] == "nick" then Nick(s, m.uid, v)
      else if v[0] == "register" then Register(s, m.uid, v, salt)
      else Next(s, [Line(user.uid, InvalidCommandText)])
  }

  /** `/nick <name>`. */
  function Nick(s: Server, key: Uid, v: seq<string>): (r: Outcome)
    requires key in s.allUsers && |v| >= 1
    ensures r.Next? && r.server.ctr == s.ctr
    ensures r.server.registeredNicks == s.registeredNicks
    ensures r.server.allUsers.Keys == s.allUsers.Keys
    ensures forall k :: k in s.allUsers && k != key ==> r.server.allUsers[k] == s.allUsers[k]
    ensures r.server.allUsers[key] != s.allUsers[key] ==>
      |v| == 2 && IsValidNickname(v[1]) && v[1] !in s.registeredNicks
    ensures Valid(s) ==> Valid(r.server)
  {
    var user := s.allUsers[key];
    if |v| != 2 then Next(s, [])
    else
      var newNick := v[1];
      if !IsValidNickname(newNick) then Next(s, [Line(user.uid, InvalidNicknameText)])
      else if IsAlreadyRegistered(s.registeredNicks, newNick) then Next(s, [Line(user.uid, ReservedText)])
      else
        var (u, l) := UpdateNickname(user, newNick);
        Next(s.(allUsers := s.allUsers[key := u]), [l])
  }

  /** `/register <name> <password>`. */
  function Register(s: Server, key: Uid, v: seq<string>, salt: Option<nat>): (r: Outcome)
    requires key in s.allUsers && |v| >= 1
    ensures r.Next? && r.server.ctr == s.ctr
    ensures DirectoryExtends(s.registeredNicks, r.server.registeredNicks)
    ensures r.server.registeredNicks.Keys <= s.registeredNicks.Keys + (if |v| == 3 then {v[1]} else {})
    ensures r.server.allUsers.Keys <= s.allUsers.Keys
    ensures forall k :: k in r.server.allUsers && k != key ==> r.server.allUsers[k] == s.allUsers[k]
    ensures Valid(s) ==> Valid(r.server)
  {
    var user := s.allUsers[key];
    if |v| != 3 then Next(s, [])
    else
      var newNick := v[1];
      if !IsValidNickname(newNick) then Next(s, [Line(user.uid, InvalidNicknameText)])
      else if newNick in s.registeredNicks then Claim(s, key, newNick, v[2])
      else RegisterNew(s, key, newNick, v[2], salt)
  }

  /** Claim of a registered nickname: the password decides, and a wrong
      one is answered with silence. */
  function Claim(s: Server, key: Uid, n: string, password: string): (r: Outcome)
    requires key in s.allUsers && n in s.registeredNicks && IsValidNickname(n)
    ensures r.Next? && r.server.ctr == s.ctr
    ensures r.server.registeredNicks == s.registeredNicks
    ensures r.server.allUsers.Keys == s.allUsers.Keys
    ensures forall k :: k in s.allUsers && k != key ==> r.server.allUsers[k] == s.allUsers[k]
    ensures r.server.allUsers[key].nickname == n || r == Next(s, [])
    ensures r.server.allUsers[key].nickname == n && s.allUsers[key].nickname != n ==>
      CheckPassword(s.registeredNicks[n], password)
    ensures Valid(s) ==> Valid(r.server)
  {
    if CheckPassword(s.registeredNicks[n], password) then
      var (u, l) := UpdateNickname(s.allUsers[key], n);
      Next(s.(allUsers := s.allUsers[key := u]), [l])
    else Next(s, [])
  }

  /** First registration of `n`: record it, evict every session holding
      it, then rename the issuer, which stays evicted if it was one of
      them. A hashing failure does nothing. */
  function RegisterNew(s: Server, key: Uid, n: string, password: string, salt: Option<nat>): (r: Outcome)
    requires key in s.allUsers && n !in s.registeredNicks && IsValidNickname(n)
    ensures r.Next? && r.server.ctr == s.ctr
    ensures salt.None? ==> r == Next(s, [])
    ensures salt.Some? ==>
      && r.server.registeredNicks.Keys == s.registeredNicks.Keys + {n}
      && CheckPassword(r.server.registeredNicks[n], password)
      && (forall k :: k in r.server.allUsers <==> k in s.allUsers && s.allUsers[k].nickname != n)
    ensures DirectoryExtends(s.registeredNicks, r.server.registeredNicks)
    ensures forall k :: k in r.server.allUsers && k != key ==> r.server.allUsers[k] == s.allUsers[k]
    ensures Valid(s) ==> Valid(r.server)
  {
    var (regs, reg) := CreateNewReg(s.registeredNicks, n, password, salt);
    match reg
    case None => Next(s, [])
    case Some(rec) =>
      var (users, notices) := DisconnectUsersWithNickname(s.allUsers, n);
      var (u, l) := UpdateNickname(s.allUsers[key], rec.nickname);
      var r := Next(Server(StoreIfPresent(users, key, u), regs, s.ctr), notices + [l]);
      assert Valid(s) ==> Valid(r.server) by {
        if Valid(s) {
          CreateNewRegKeepsKeying(s.registeredNicks, n, password, salt);
        }
      }
      r
  }

  /* ---------------------------------------------------------------------
     Session lifecycle
     --------------------------------------------------------------------- */

  /** The two lines a new session reads first: who is online (itself
      included), and its own nickname. */
  function Greeting(users: UserSyncMap, user: UserInfo): (r: seq<Line>)
    ensures |r| == 2
    ensures r[0] == Line(user.uid, OnlineUserList(users))
    ensures r[1] == Line(user.uid, WelcomeText + user.nickname)
  {
    [Line(user.uid, OnlineUserList(users)), Line(user.uid, WelcomeText + user.nickname)]
  }

  /** A new transport: the next id, a guest session, and the three lines it
      is sent (the rename notice from creating it, the online list, the
      welcome). */
  function AcceptConnection(s: Server): (r: (Server, seq<Line>))
    ensures r.0.ctr == s.ctr + 1 && r.0.registeredNicks == s.registeredNicks
    ensures r.0.allUsers.Keys == s.allUsers.Keys + {r.0.ctr}
    ensures r.0.allUsers[r.0.ctr].nickname == GuestName(r.0.ctr)
    ensures forall k :: k in s.allUsers && k != r.0.ctr ==> r.0.allUsers[k] == s.allUsers[k]
    ensures |r.1| == 3
    ensures r.1[0] == Line(r.0.ctr, NicknameChangedText + GuestName(r.0.ctr))
    ensures r.1[1] == Line(r.0.ctr, OnlineUserList(r.0.allUsers))
    ensures r.1[2] == Line(r.0.ctr, WelcomeText + GuestName(r.0.ctr))
    ensures Valid(s) ==> Valid(r.0) && r.0.ctr !in s.allUsers
  {
    var uid := s.ctr + 1;
    var c := CreateNewUser(s.allUsers, uid);
    var greeting := Greeting(c.0, c.1);
    AdmitKeepsValid(s);
    (Server(c.0, s.registeredNicks, uid), c.2 + greeting)
  }

  /** The first client of a fresh server becomes session 1 under
      "GUEST001", is told so, sees itself as the only one online and is
      welcomed under that name. */
  lemma FirstConnection()
    ensures var r := AcceptConnection(Initial());
      && r.0.ctr == 1 && r.0.allUsers.Keys == {1}
      && r.1 == [ Line(1, NicknameChangedText + "GUEST001"),
                  Line(1, OnlineNowText + "GUEST001"),
                  Line(1, WelcomeText + "GUEST001") ]
  {
    var r := AcceptConnection(Initial());
    FirstGuestName();
    OnlineUserListSingle(r.0.allUsers, 1);
  }

  lemma AdmitKeepsValid(s: Server)
    ensures var c := CreateNewUser(s.allUsers, s.ctr + 1);
      Valid(s) ==> Valid(Server(c.0, s.registeredNicks, s.ctr + 1)) && s.ctr + 1 !in s.allUsers
  {
    GuestNameValid(s.ctr + 1);
  }

  /** End of stream on a transport: its session leaves the registry, if it
      is still there. */
  function Hangup(s: Server, uid: Uid): (r: Server)
    ensures r.allUsers.Keys == s.allUsers.Keys - {uid}
    ensures forall k :: k in r.allUsers ==> r.allUsers[k] == s.allUsers[k]
    ensures r.registeredNicks == s.registeredNicks && r.ctr == s.ctr
    ensures Valid(s) ==> Valid(r)
  {
    s.(allUsers := s.allUsers - {uid})
  }

  /** Whether `e` is a line from `k` that the interpreter reads as a
      `/nick` or `/register` command. */
  predicate RenameAttempt(e: Event, k: Uid) {
    && e.Received? && e.uid == k
    && var msg := TrimRight(e.raw, OutputLineTerm);
      |msg| > 1 && IsCommand(msg) && Tokens(msg)[0] in {"nick", "register"}
  }

  /** Applies one event. */
  function Step(s: Server, e: Event): (r: Outcome)
    ensures r.Next? && Valid(s) ==> Valid(r.server)
    ensures r.Next? ==> DirectoryExtends(s.registeredNicks, r.server.registeredNicks)
    ensures r.Panic? ==> e.Received? && e.uid !in s.allUsers
    ensures r.Next? ==> r.server.ctr >= s.ctr
    ensures r.Next? ==> forall k :: k in r.server.allUsers && k !in s.allUsers ==> s.ctr < k
    ensures r.Next? && Valid(s) ==> forall k :: k in r.server.allUsers && k in s.allUsers && !RenameAttempt(e, k) ==>
      r.server.allUsers[k] == s.allUsers[k]
  {
    match e
    case Accept =>
      var (s', out) := AcceptConnection(s);
      Next(s', out)
    case Received(uid, raw, salt) =>
      (match Ingress(uid, raw)
       case None => Next(s, [])
       case Some(mi) => OutputHandler(s, mi, salt))
    case Eof(uid) => Next(Hangup(s, uid), [])
  }

  /** Applies the events in order, collecting every line written; a crash
      ends the run. */
  function Run(s: Server, es: seq<Event>): (r: Outcome)
    ensures r.Next? && Valid(s) ==> Valid(r.server)
    ensures r.Next? ==> DirectoryExtends(s.registeredNicks, r.server.registeredNicks)
    decreases |es|
  {
    if |es| == 0 then Next(s, [])
    else
      match Step(s, es[0])
      case Panic(why) => Panic(why)
      case Next(s1, out1) =>
        match Run(s1, es[1..])
        case Panic(why) => Panic(why)
        case Next(s2, out2) => Next(s2, out1 + out2)
  }
}
