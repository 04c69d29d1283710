/**
 Properties of the relay: what each command branch does, what a broadcast
 delivers, what holds across a whole run of events, and the client session
 replayed from the repository's end-to-end test.
 */
module Relay {
  import opened Options
  import opened Protocol
  import opened Text
  import opened Registry
  import opened Directory
  import opened ChatServer
  import Bcrypt

  /* ---------------------------------------------------------------------
     Command lines
     --------------------------------------------------------------------- */

  /** The command line a client types for the given tokens. */
  function CommandLine(ts: seq<string>): string
  {
    [CmdSpecifier] + Join(ts, ' ')
  }

  /** The interpreter reads back exactly the tokens a command line was
      written with, provided no token contains a space. */
  lemma TokensOfCommandLine(ts: seq<string>)
    requires |ts| >= 1
    requires forall i :: 0 <= i < |ts| ==> ' ' !in ts[i]
    ensures |CommandLine(ts)| > 0 && Tokens(CommandLine(ts)) == ts
  {
    assert CommandLine(ts)[1..] == Join(ts, ' ');
    SplitJoin(ts, ' ');
  }

  /** `/nick` with a doubled space before the name is three tokens, not
      two, so the command is malformed: it is ignored without a reply. */
  lemma DoubledSpaceAddsToken(s: Server, uid: Uid, n: string, salt: Option<nat>)
    requires uid in s.allUsers && ' ' !in n
    ensures Tokens("/nick  " + n) == ["nick", "", n]
    ensures ProcessCommand(s, MsgInfo(uid, "/nick  " + n), salt) == Next(s, [])
  {
    var ts := ["nick", "", n];
    assert CommandLine(ts) == "/nick  " + n by {
      assert ts[1..][1..] == [n];
      assert Join(ts[1..], ' ') == [' '] + n;
    }
    TokensOfCommandLine(ts);
  }

  /** `m` is a command from an online session whose keyword is `keyword`. */
  predicate Issued(s: Server, m: MsgInfo, keyword: string) {
    && m.uid in s.allUsers
    && |m.msg| > 1 && IsCommand(m.msg)
    && Tokens(m.msg)[0] == keyword
  }

  /* ---------------------------------------------------------------------
     Routing and ingress
     --------------------------------------------------------------------- */

  /** A line made only of CR and LF bytes is no event at all. */
  lemma BlankLineIgnored(s: Server, uid: Uid, raw: string, salt: Option<nat>)
    requires forall i :: 0 <= i < |raw| ==> raw[i] in OutputLineTerm
    ensures Step(s, Received(uid, raw, salt)) == Next(s, [])
  {
  }

  /** A line that does not start with the sigil is broadcast and changes no
      state: every other online session receives the sender's current
      nickname, ": " and the line, once; the sender receives nothing. */
  lemma BroadcastDelivery(s: Server, m: MsgInfo, salt: Option<nat>)
    requires Valid(s) && m.uid in s.allUsers && |m.msg| > 0 && m.msg[0] != CmdSpecifier
    ensures var r := OutputHandler(s, m, salt);
      && r.Next? && r.server == s
      && |r.out| == |s.allUsers| - 1
      && forall l :: l in r.out <==>
           l.to in s.allUsers && l.to != m.uid && l.text == s.allUsers[m.uid].nickname + ": " + m.msg
  {
    BroadcastFromSender(s.allUsers, m);
  }

  /** A broadcast from a sender that is no longer online sends nothing. */
  lemma BroadcastFromOfflineSender(s: Server, m: MsgInfo, salt: Option<nat>)
    requires m.uid !in s.allUsers && !IsCommand(m.msg)
    ensures OutputHandler(s, m, salt) == Next(s, [])
  {
  }

  /* ---------------------------------------------------------------------
     Command interpreter: guards
     --------------------------------------------------------------------- */

  /** The bare sigil is ignored. */
  lemma SigilAloneIgnored(s: Server, uid: Uid, salt: Option<nat>)
    ensures ProcessCommand(s, MsgInfo(uid, [CmdSpecifier]), salt) == Next(s, [])
  {
  }

  /** A command from a session that is no longer in the registry crashes
      the relay at the type assertion, before the online check can log and
      return. */
  lemma OfflineCommandPanics(s: Server, m: MsgInfo, salt: Option<nat>)
    requires |m.msg| > 1 && IsCommand(m.msg) && m.uid !in s.allUsers
    ensures ProcessCommand(s, m, salt) == Panic(NilTypeAssertion)
  {
  }

  /** An unknown keyword is answered with "Invalid Command." and changes
      nothing. */
  lemma UnknownKeyword(s: Server, m: MsgInfo, salt: Option<nat>)
    requires Valid(s) && m.uid in s.allUsers && |m.msg| > 1 && IsCommand(m.msg)
    requires Tokens(m.msg)[0] != "nick" && Tokens(m.msg)[0] != "register"
    ensures ProcessCommand(s, m, salt) == Next(s, [Line(m.uid, InvalidCommandText)])
  {
  }

  /* ---------------------------------------------------------------------
     /nick
     --------------------------------------------------------------------- */

  /** `/nick` with other than one argument is silent and changes nothing. */
  lemma NickWrongArity(s: Server, m: MsgInfo, salt: Option<nat>)
    requires Issued(s, m, "nick") && |Tokens(m.msg)| != 2
    ensures ProcessCommand(s, m, salt) == Next(s, [])
  {
  }

  /** A name shorter than four bytes is refused with "Invalid Nickname.". */
  lemma NickTooShort(s: Server, m: MsgInfo, salt: Option<nat>)
    requires Valid(s) && Issued(s, m, "nick") && |Tokens(m.msg)| == 2
    requires |Tokens(m.msg)[1]| < MinNickLen
    ensures ProcessCommand(s, m, salt) == Next(s, [Line(m.uid, InvalidNicknameText)])
  {
  }

  /** A registered name is refused as reserved. */
  lemma NickReserved(s: Server, m: MsgInfo, salt: Option<nat>)
    requires Valid(s) && Issued(s, m, "nick") && |Tokens(m.msg)| == 2
    requires |Tokens(m.msg)[1]| >= MinNickLen && Tokens(m.msg)[1] in s.registeredNicks
    ensures ProcessCommand(s, m, salt) == Next(s, [Line(m.uid, ReservedText)])
  {
  }

  /** A rename confirmation never reads like the reserved refusal. */
  lemma ConfirmationIsNotRefusal(n: string)
    ensures NicknameChangedText + n != ReservedText
  {
    assert (NicknameChangedText + n)[0] == 'Y';
  }

  /** With a long enough name, `/nick` is refused as reserved exactly when
      the directory holds the name. */
  lemma NickReservedIff(s: Server, m: MsgInfo, salt: Option<nat>)
    requires Valid(s) && Issued(s, m, "nick") && |Tokens(m.msg)| == 2 && IsValidNickname(Tokens(m.msg)[1])
    ensures ProcessCommand(s, m, salt) == Next(s, [Line(m.uid, ReservedText)])
      <==> IsAlreadyRegistered(s.registeredNicks, Tokens(m.msg)[1])
  {
    var n := Tokens(m.msg)[1];
    if n !in s.registeredNicks {
      NickRenames(s, m, salt);
      ConfirmationIsNotRefusal(n);
    }
  }

  /** Otherwise the issuer takes the name: its prefix follows, it is told,
      and nothing else changes. */
  lemma NickRenames(s: Server, m: MsgInfo, salt: Option<nat>)
    requires Valid(s) && Issued(s, m, "nick") && |Tokens(m.msg)| == 2
    requires |Tokens(m.msg)[1]| >= MinNickLen && Tokens(m.msg)[1] !in s.registeredNicks
    ensures var n := Tokens(m.msg)[1];
      var r := ProcessCommand(s, m, salt);
      && r.Next?
      && r.server.registeredNicks == s.registeredNicks
      && r.server.allUsers.Keys == s.allUsers.Keys
      && r.server.allUsers[m.uid].nickname == n
      && r.server.allUsers[m.uid].bnickname == n + ": "
      && (forall k :: k in s.allUsers && k != m.uid ==> r.server.allUsers[k] == s.allUsers[k])
      && r.out == [Line(m.uid, NicknameChangedText + n)]
  {
  }

  /* ---------------------------------------------------------------------
     /register
     --------------------------------------------------------------------- */

  /** `/register` with other than two arguments is silent and changes
      nothing. */
  lemma RegisterWrongArity(s: Server, m: MsgInfo, salt: Option<nat>)
    requires Issued(s, m, "register") && |Tokens(m.msg)| != 3
    ensures ProcessCommand(s, m, salt) == Next(s, [])
  {
  }

  /** A name shorter than four bytes is refused with "Invalid Nickname.". */
  lemma RegisterTooShort(s: Server, m: MsgInfo, salt: Option<nat>)
    requires Valid(s) && Issued(s, m, "register") && |Tokens(m.msg)| == 3
    requires |Tokens(m.msg)[1]| < MinNickLen
    ensures ProcessCommand(s, m, salt) == Next(s, [Line(m.uid, InvalidNicknameText)])
  {
  }

  /** With the right number of arguments, `/nick` and `/register` answer
      "Invalid Nickname." and change nothing exactly when the name is
      shorter than four bytes. */
  lemma InvalidNicknameIff(s: Server, m: MsgInfo, salt: Option<nat>)
    requires Valid(s) && m.uid in s.allUsers && |m.msg| > 1 && IsCommand(m.msg)
    requires var v := Tokens(m.msg);
      (v[0] == "nick" && |v| == 2) || (v[0] == "register" && |v| == 3)
    ensures ProcessCommand(s, m, salt) == Next(s, [Line(m.uid, InvalidNicknameText)])
      <==> !IsValidNickname(Tokens(m.msg)[1])
  {
  }

  /** Claiming a registered name with its password renames the issuer and
      leaves the directory as it is. */
  lemma ClaimAccepted(s: Server, m: MsgInfo, salt: Option<nat>)
    requires Valid(s) && Issued(s, m, "register") && |Tokens(m.msg)| == 3
    requires var n := Tokens(m.msg)[1];
      |n| >= MinNickLen && n in s.registeredNicks && CheckPassword(s.registeredNicks[n], Tokens(m.msg)[2])
    ensures var n := Tokens(m.msg)[1];
      var r := ProcessCommand(s, m, salt);
      && r.Next?
      && r.server.registeredNicks == s.registeredNicks
      && r.server.allUsers.Keys == s.allUsers.Keys
      && r.server.allUsers[m.uid].nickname == n
      && r.server.allUsers[m.uid].bnickname == n + ": "
      && (forall k :: k in s.allUsers && k != m.uid ==> r.server.allUsers[k] == s.allUsers[k])
      && r.out == [Line(m.uid, NicknameChangedText + n)]
  {
  }

  /** Claiming a registered name with a wrong password is silent and
      changes nothing. */
  lemma ClaimRejectedSilently(s: Server, m: MsgInfo, salt: Option<nat>)
    requires Issued(s, m, "register") && |Tokens(m.msg)| == 3
    requires var n := Tokens(m.msg)[1];
      |n| >= MinNickLen && n in s.registeredNicks && !CheckPassword(s.registeredNicks[n], Tokens(m.msg)[2])
    ensures ProcessCommand(s, m, salt) == Next(s, [])
  {
  }

  /** Claiming a registered name the issuer does not hold renames the
      issuer exactly when the directory's record accepts the password. */
  lemma ClaimIffPassword(s: Server, m: MsgInfo, salt: Option<nat>)
    requires Valid(s) && Issued(s, m, "register") && |Tokens(m.msg)| == 3
    requires var n := Tokens(m.msg)[1];
      IsValidNickname(n) && n in s.registeredNicks && s.allUsers[m.uid].nickname != n
    ensures var r := ProcessCommand(s, m, salt);
      && r.Next? && m.uid in r.server.allUsers
      && (r.server.allUsers[m.uid].nickname == Tokens(m.msg)[1]
          <==> CheckPassword(s.registeredNicks[Tokens(m.msg)[1]], Tokens(m.msg)[2]))
  {
  }

  /** Registering a new name when hashing fails is silent and changes
      nothing. */
  lemma RegisterHashFailure(s: Server, m: MsgInfo)
    requires Issued(s, m, "register") && |Tokens(m.msg)| == 3
    requires |Tokens(m.msg)[1]| >= MinNickLen && Tokens(m.msg)[1] !in s.registeredNicks
    ensures ProcessCommand(s, m, None) == Next(s, [])
  {
  }

  /** Registering a new name: the directory gains a record for it that
      accepts the password and keeps every older record; every session
      holding the name is removed and told why, the issuer included; the
      issuer, unless so removed, takes the name; nobody else changes, and
      the issuer is told of the new name. */
  lemma RegisterFreshName(s: Server, m: MsgInfo, salt: nat)
    requires Valid(s) && Issued(s, m, "register") && |Tokens(m.msg)| == 3
    requires |Tokens(m.msg)[1]| >= MinNickLen && Tokens(m.msg)[1] !in s.registeredNicks
    ensures var n := Tokens(m.msg)[1];
      var p := Tokens(m.msg)[2];
      var r := ProcessCommand(s, m, Some(salt));
      && r.Next?
      && r.server.registeredNicks.Keys == s.registeredNicks.Keys + {n}
      && r.server.registeredNicks[n].nickname == n
      && CheckPassword(r.server.registeredNicks[n], p)
      && DirectoryExtends(s.registeredNicks, r.server.registeredNicks)
      && (forall k :: k in r.server.allUsers <==> k in s.allUsers && s.allUsers[k].nickname != n)
      && (m.uid in r.server.allUsers ==> r.server.allUsers[m.uid].nickname == n)
      && (forall k :: k in r.server.allUsers && k != m.uid ==> r.server.allUsers[k] == s.allUsers[k])
      && (forall l :: l in r.out <==>
            || (l.to in s.allUsers && s.allUsers[l.to].nickname == n
                && l.text == DisconnectNotice(RegisteredByAnotherText))
            || l == Line(m.uid, NicknameChangedText + n))
  {
  }

  /* ---------------------------------------------------------------------
     The directory across commands
     --------------------------------------------------------------------- */

  /** Two registrations of the same free name, one after the other: only
      the first creates a record; the second leaves the directory alone and
      renames its issuer exactly when it presents a password whose 72-byte
      bcrypt key (`Bcrypt.Key`) equals the first one's (or the issuer holds
      the name already). */
  lemma SecondRegistrationOnlyClaims(s: Server, m1: MsgInfo, salt1: nat, m2: MsgInfo, salt2: Option<nat>)
    requires Valid(s) && Issued(s, m1, "register") && |Tokens(m1.msg)| == 3
    requires |Tokens(m1.msg)[1]| >= MinNickLen && Tokens(m1.msg)[1] !in s.registeredNicks
    requires var s1 := ProcessCommand(s, m1, Some(salt1)).server;
      Issued(s1, m2, "register") && |Tokens(m2.msg)| == 3 && Tokens(m2.msg)[1] == Tokens(m1.msg)[1]
    ensures var s1 := ProcessCommand(s, m1, Some(salt1)).server;
      var r := ProcessCommand(s1, m2, salt2);
      && r.Next?
      && r.server.registeredNicks == s1.registeredNicks
      && (r.server.allUsers[m2.uid].nickname == Tokens(m1.msg)[1] <==>
          Bcrypt.Key(Tokens(m2.msg)[2]) == Bcrypt.Key(Tokens(m1.msg)[2])
          || s1.allUsers[m2.uid].nickname == Tokens(m1.msg)[1])
  {
    var n := Tokens(m1.msg)[1];
    var p1 := Tokens(m1.msg)[2];
    var s1 := ProcessCommand(s, m1, Some(salt1)).server;
    RegisterFreshName(s, m1, salt1);
    var rec := s1.registeredNicks[n];
    assert rec == RegInfo(n, Bcrypt.Digest(Bcrypt.MinCost, salt1, Bcrypt.Key(p1)));
    var p2 := Tokens(m2.msg)[2];
    Bcrypt.AcceptsSameKey(p1, Bcrypt.MinCost, salt1, p2);
  }

  /** Only a presenter of the right password can move a session onto a
      registered nickname: any other command that changes a session's
      nickname to a registered one is impossible. */
  lemma RegisteredNameNeedsPassword(s: Server, m: MsgInfo, salt: Option<nat>, k: Uid)
    requires Valid(s)
    requires var r := ProcessCommand(s, m, salt);
      && r.Next? && k in s.allUsers && k in r.server.allUsers
      && r.server.allUsers[k].nickname != s.allUsers[k].nickname
      && r.server.allUsers[k].nickname in s.registeredNicks
    ensures k == m.uid && Issued(s, m, "register") && |Tokens(m.msg)| == 3
    ensures var n := Tokens(m.msg)[1];
      n == ProcessCommand(s, m, salt).server.allUsers[k].nickname
      && CheckPassword(s.registeredNicks[n], Tokens(m.msg)[2])
  {
    var v := Tokens(m.msg);
    if v[0] == "nick" {
      assert false;
    }
    assert v[0] == "register";
  }

  /* ---------------------------------------------------------------------
     Runs of events
     --------------------------------------------------------------------- */

  /** A session that has left the registry never comes back: new sessions
      always get a fresh id. */
  lemma {:induction false} StaysAway(s: Server, es: seq<Event>, k: Uid)
    requires Valid(s) && k <= s.ctr && k !in s.allUsers
    ensures Run(s, es).Next? ==> k !in Run(s, es).server.allUsers
    decreases |es|
  {
    if |es| > 0 {
      var r := Step(s, es[0]);
      if r.Next? {
        StaysAway(r.server, es[1..], k);
      }
    }
  }

  /** A session that never issues `/nick` or `/register` keeps the
      nickname it has for as long as it stays online. */
  lemma {:induction false} NicknameKeptWithoutRename(s: Server, es: seq<Event>, k: Uid)
    requires Valid(s) && k in s.allUsers
    requires forall i :: 0 <= i < |es| ==> !RenameAttempt(es[i], k)
    ensures var r := Run(s, es);
      r.Next? && k in r.server.allUsers ==> r.server.allUsers[k] == s.allUsers[k]
    decreases |es|
  {
    if |es| > 0 {
      var r := Step(s, es[0]);
      if r.Next? {
        assert !RenameAttempt(es[0], k);
        if k in r.server.allUsers {
          NicknameKeptWithoutRename(r.server, es[1..], k);
        } else {
          StaysAway(r.server, es[1..], k);
        }
      }
    }
  }

  /** So a client, once accepted, displays as its guest name for as long
      as it stays online without renaming itself. */
  lemma GuestUntilRenamed(s: Server, es: seq<Event>)
    requires Valid(s)
    requires forall i :: 0 <= i < |es| ==> !RenameAttempt(es[i], s.ctr + 1)
    ensures var s1 := AcceptConnection(s).0;
      var r := Run(s1, es);
      r.Next? && s1.ctr in r.server.allUsers ==> r.server.allUsers[s1.ctr].nickname == GuestName(s1.ctr)
  {
    var s1 := AcceptConnection(s).0;
    NicknameKeptWithoutRename(s1, es, s1.ctr);
  }

  /* ---------------------------------------------------------------------
     The repository's end-to-end test, replayed
     --------------------------------------------------------------------- */

  /** A line typed by a client arrives with the terminator its writer
      added, and ingress hands the router exactly the typed text. */
  lemma TypedLine(uid: Uid, text: string)
    requires |text| > 0 && MsgDelimiter !in text && text[|text| - 1] !in OutputLineTerm
    ensures IsReadLine(text + OutputLineTerm)
    ensures ReadLines(text + OutputLineTerm) == [text + OutputLineTerm]
    ensures Ingress(uid, text + OutputLineTerm) == Some(MsgInfo(uid, text))
  {
    var raw := text + OutputLineTerm;
    assert raw[..|raw| - 1] == text + ['\r'];
    ReadLineIsOneLine(raw);
    TrimRightAppended(text, OutputLineTerm, OutputLineTerm);
  }

  /** A word a client can type as one token of one line. */
  predicate Word(w: string) {
    |w| > 0 && ' ' !in w && MsgDelimiter !in w && w[|w| - 1] !in OutputLineTerm
  }

  /** `/nick <n>` as a client writes it, terminator included. */
  function NickLine(n: string): string {
    "/nick " + n + OutputLineTerm
  }

  /** `/register <n> <p>` as a client writes it, terminator included. */
  function RegisterLine(n: string, p: string): string {
    "/register " + n + " " + p + OutputLineTerm
  }

  /** What the router makes of a `/nick` line. */
  lemma NickLineRead(k: Uid, n: string)
    requires Word(n)
    ensures IsReadLine(NickLine(n)) && ReadLines(NickLine(n)) == [NickLine(n)]
    ensures Ingress(k, NickLine(n)) == Some(MsgInfo(k, "/nick " + n))
    ensures Tokens("/nick " + n) == ["nick", n]
  {
    var text := "/nick " + n;
    assert NickLine(n) == text + OutputLineTerm;
    TypedLine(k, text);
    var ts := ["nick", n];
    assert CommandLine(ts) == text by {
      assert ts[1..] == [n];
      assert Join(ts, ' ') == "nick" + " " + n;
    }
    TokensOfCommandLine(ts);
  }

  /** The tokens of `/register <n> <p>`. */
  lemma RegisterTokens(n: string, p: string)
    requires ' ' !in n && ' ' !in p
    ensures Tokens("/register " + n + " " + p) == ["register", n, p]
  {
    var ts := ["register", n, p];
    assert CommandLine(ts) == "/register " + n + " " + p by {
      assert ts[1..][1..] == [p];
      assert Join(ts[1..], ' ') == n + " " + p;
      assert Join(ts, ' ') == "register" + " " + n + " " + p;
    }
    TokensOfCommandLine(ts);
  }

  /** What the router makes of a `/register` line. */
  lemma RegisterLineRead(k: Uid, n: string, p: string)
    requires Word(n) && Word(p)
    ensures IsReadLine(RegisterLine(n, p)) && ReadLines(RegisterLine(n, p)) == [RegisterLine(n, p)]
    ensures Ingress(k, RegisterLine(n, p)) == Some(MsgInfo(k, "/register " + n + " " + p))
    ensures Tokens("/register " + n + " " + p) == ["register", n, p]
  {
    var text := "/register " + n + " " + p;
    assert RegisterLine(n, p) == text + OutputLineTerm;
    assert text[|text| - 1] == p[|p| - 1];
    assert MsgDelimiter !in text by {
      assert text == "/register " + (n + " " + p);
      assert MsgDelimiter !in n + " " + p;
    }
    TypedLine(k, text);
    RegisterTokens(n, p);
  }

  /** `/nick <n>` from an online client when `n` is acceptable and free. */
  lemma NickStep(s: Server, k: Uid, n: string, salt: Option<nat>)
    requires Valid(s) && k in s.allUsers && Word(n) && IsValidNickname(n) && n !in s.registeredNicks
    ensures IsReadLine(NickLine(n))
    ensures var r := Step(s, Received(k, NickLine(n), salt));
      && r.Next? && Valid(r.server)
      && r.out == [Line(k, NicknameChangedText + n)]
      && k in r.server.allUsers && r.server.allUsers[k].nickname == n
      && r.server.registeredNicks == s.registeredNicks
  {
    var m := MsgInfo(k, "/nick " + n);
    NickLineRead(k, n);
    assert Step(s, Received(k, NickLine(n), salt)) == ProcessCommand(s, m, salt);
    NickRenames(s, m, salt);
  }

  /** `/register <n> <p>` from the client that holds the free name `n`. */
  lemma RegisterOwnNameStep(s: Server, k: Uid, n: string, p: string, salt: nat)
    requires Valid(s) && k in s.allUsers && s.allUsers[k].nickname == n
    requires Word(n) && Word(p) && IsValidNickname(n) && n !in s.registeredNicks
    ensures IsReadLine(RegisterLine(n, p))
    ensures var r := Step(s, Received(k, RegisterLine(n, p), Some(salt)));
      && r.Next?
      && k !in r.server.allUsers
      && n in r.server.registeredNicks && CheckPassword(r.server.registeredNicks[n], p)
      && Line(k, DisconnectNotice(RegisteredByAnotherText)) in r.out
      && Line(k, NicknameChangedText + n) in r.out
  {
    var m := MsgInfo(k, "/register " + n + " " + p);
    RegisterLineRead(k, n, p);
    assert Step(s, Received(k, RegisterLine(n, p), Some(salt))) == ProcessCommand(s, m, Some(salt));
    RegisterFreshName(s, m, salt);
  }

  /** Any command from a client that is no longer online. */
  lemma NickFromEvicted(s: Server, k: Uid, n: string, salt: Option<nat>)
    requires k !in s.allUsers && Word(n)
    ensures IsReadLine(NickLine(n))
    ensures Step(s, Received(k, NickLine(n), salt)) == Panic(NilTypeAssertion)
  {
    NickLineRead(k, n);
    OfflineCommandPanics(s, MsgInfo(k, "/nick " + n), salt);
  }

  /** The end-to-end test's session (there `n` is "frank" and `p` is
      "frank123"): a client connects, renames itself `n`, then registers
      `n`. The registration evicts every holder of `n`, the issuer itself
      included: it is sent both the disconnect notice and the rename
      confirmation, it is no longer online, and the directory now holds
      `n`. Any further command it sends before its transport closes crashes
      the relay. */
  lemma TestSessionReplay(s: Server, n: string, p: string, salt: nat, later: string)
    requires Valid(s) && Word(n) && Word(p) && Word(later) && IsValidNickname(n) && n !in s.registeredNicks
    ensures var a := AcceptConnection(s).0;
      var k := a.ctr;
      var r1 := Step(a, Received(k, NickLine(n), None));
      && r1.Next?
      && r1.out == [Line(k, NicknameChangedText + n)]
      && var r2 := Step(r1.server, Received(k, RegisterLine(n, p), Some(salt)));
      && r2.Next?
      && k !in r2.server.allUsers
      && n in r2.server.registeredNicks
      && Line(k, DisconnectNotice(RegisteredByAnotherText)) in r2.out
      && Line(k, NicknameChangedText + n) in r2.out
      && Step(r2.server, Received(k, NickLine(later), None)) == Panic(NilTypeAssertion)
    ensures IsReadLine(NickLine(n)) && IsReadLine(RegisterLine(n, p)) && IsReadLine(NickLine(later))
  {
    var a := AcceptConnection(s).0;
    var k := a.ctr;
    NickStep(a, k, n, None);
    var s1 := Step(a, Received(k, NickLine(n), None)).server;
    RegisterOwnNameStep(s1, k, n, p, salt);
    var s2 := Step(s1, Received(k, RegisterLine(n, p), Some(salt))).server;
    NickFromEvicted(s2, k, later, None);
  }

  /* ---------------------------------------------------------------------
     Accepting a connection
     --------------------------------------------------------------------- */

  /** The online list a new client is sent names the client itself. */
  lemma NewcomerSeesItselfOnline(s: Server)
    ensures var (s1, out) := AcceptConnection(s);
      exists ks :: && Enumerates(ks, s1.allUsers)
                   && out[1].text == OnlineNowText + Join(NicknamesAt(s1.allUsers, ks), ',')
                   && GuestName(s1.ctr) in NicknamesAt(s1.allUsers, ks)
  {
    var s1 := AcceptConnection(s).0;
    OnlineUserListNamesEverySession(s1.allUsers, s1.ctr);
  }

  /** A guest name can be typed as one word. */
  lemma GuestNameIsWord(uid: Uid)
    ensures Word(GuestName(uid))
  {
    var g := GuestName(uid);
    forall i | 0 <= i < |g|
      ensures g[i] != ' ' && g[i] != MsgDelimiter && g[i] != '\r'
    {
      if i < 5 {
        assert g[i] == g[..5][i];
      } else {
        assert g[i] == g[5..][i - 5];
      }
    }
  }

  /** `/register <n> <p>` of a free name from an online client records the
      name and keeps the accept counter. */
  lemma RegisterFreshStep(s: Server, k: Uid, n: string, p: string, salt: nat)
    requires Valid(s) && k in s.allUsers
    requires Word(n) && Word(p) && IsValidNickname(n) && n !in s.registeredNicks
    ensures var r := Step(s, Received(k, RegisterLine(n, p), Some(salt)));
      && r.Next? && Valid(r.server) && r.server.ctr == s.ctr
      && n in r.server.registeredNicks && CheckPassword(r.server.registeredNicks[n], p)
  {
    var m := MsgInfo(k, "/register " + n + " " + p);
    RegisterLineRead(k, n, p);
    assert Step(s, Received(k, RegisterLine(n, p), Some(salt))) == ProcessCommand(s, m, Some(salt));
    RegisterFreshName(s, m, salt);
  }

  /** The directory is not consulted when a connection is accepted: once a
      session registers the guest name the next connection will be given,
      that connection holds a registered nickname without presenting any
      password. */
  lemma GuestMayHoldRegisteredName(s: Server, k: Uid, p: string, salt: nat)
    requires Valid(s) && k in s.allUsers && Word(p)
    requires GuestName(s.ctr + 1) !in s.registeredNicks
    ensures var r1 := Step(s, Received(k, RegisterLine(GuestName(s.ctr + 1), p), Some(salt)));
      && r1.Next?
      && var r2 := Step(r1.server, Accept);
      && r2.Next?
      && var g := r2.server.ctr;
      && g in r2.server.allUsers && g !in r1.server.allUsers
      && r2.server.allUsers[g].nickname in r2.server.registeredNicks
  {
    var n := GuestName(s.ctr + 1);
    GuestNameIsWord(s.ctr + 1);
    GuestNameValid(s.ctr + 1);
    RegisterFreshStep(s, k, n, p, salt);
  }
}
