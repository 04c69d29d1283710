/**
 The session registry (userinfo.go): connected sessions keyed by uid, their
 nicknames and display prefixes, and the lines the registry operations send.

 A session's transport is identified with its registry key: `createNewUser`
 stores every session under its own uid, so writing to a session, deleting
 it and comparing it with a sender all go by that key (see `Consistent`).
 */
module Registry {
  import opened Protocol
  import opened Text

  /** A session id; the accept counter starts at 1 and only grows. */
  type Uid = nat

  /** One event for the router: a sender and the line it sent, after the
      line terminator has been stripped. */
  datatype MsgInfo = MsgInfo(uid: Uid, msg: string)

  /** A connected session: its id, its nickname and the cached display
      prefix put in front of every line it broadcasts. */
  datatype UserInfo = UserInfo(uid: Uid, nickname: string, bnickname: string)

  /** The registry, keyed by uid. */
  type UserSyncMap = map<Uid, UserInfo>

  /** One line queued for writing to the transport of session `to`. */
  datatype Line = Line(to: Uid, text: string)

  const NicknameChangedText: string := "Your nickname has been changed to "
  const OnlineNowText: string := "ONLINE NOW: "
  const DisconnectedText: string := "The server has disconnected you. "
  const RegisteredByAnotherText: string := "Another user has registered this nickname."

  /** The display prefix is the nickname followed by ": ". */
  predicate WellFormed(u: UserInfo) {
    u.bnickname == u.nickname + NickMsgDelimiter
  }

  /** Every session sits under its own uid and has an up-to-date prefix. */
  predicate Consistent(m: UserSyncMap) {
    forall k :: k in m ==> m[k].uid == k && WellFormed(m[k])
  }

  /** The bytes `writeln` puts on the transport for one line. */
  function Wire(l: Line): (w: string)
    ensures |w| == |l.text| + 2 && w[..|l.text|] == l.text
    ensures w[|l.text|..] == OutputLineTerm && w[|w| - 2] == '\r' && w[|w| - 1] == MsgDelimiter
  {
    l.text + OutputLineTerm
  }

  /** A line that does not itself end in CR or LF comes back unchanged
      through the ingress trimming of the transport's peer. */
  lemma WireTrimRoundTrip(l: Line)
    requires l.text == [] || l.text[|l.text| - 1] !in OutputLineTerm
    ensures TrimRight(Wire(l), OutputLineTerm) == l.text
  {
    TrimRightAppended(l.text, OutputLineTerm, OutputLineTerm);
  }

  /* ---------------------------------------------------------------------
     Nicknames
     --------------------------------------------------------------------- */

  /** Sets the nickname, recomputes the prefix, and tells the session. */
  function UpdateNickname(u: UserInfo, n: string): (r: (UserInfo, Line))
    ensures r.0.uid == u.uid && r.0.nickname == n && WellFormed(r.0)
    ensures r.1 == Line(u.uid, NicknameChangedText + n)
  {
    (u.(nickname := n, bnickname := n + NickMsgDelimiter), Line(u.uid, NicknameChangedText + n))
  }

  /** A nickname is acceptable when it has at least `MinNickLen` bytes. */
  function IsValidNickname(n: string): (ok: bool)
    ensures ok <==> |n| >= MinNickLen
  {
    |n| >= MinNickLen
  }

  /** The default nickname of session `uid`: "GUEST" and the uid in decimal,
      zero-padded to at least three digits. */
  function GuestName(uid: Uid): (r: string)
    ensures |r| >= 8 && r[..5] == "GUEST"
    ensures AllDigits(r[5..]) && DecimalValue(r[5..]) == uid
    ensures |r| == 8 || r[5] != '0'
  {
    var r := "GUEST" + Pad3(uid);
    assert r[5..] == Pad3(uid);
    r
  }

  /** Different sessions get different default nicknames. */
  lemma GuestNameInjective(a: Uid, b: Uid)
    requires GuestName(a) == GuestName(b)
    ensures a == b
  {
    assert GuestName(a)[5..] == GuestName(b)[5..];
  }

  /** The first session accepted is "GUEST001". */
  lemma FirstGuestName()
    ensures GuestName(1) == "GUEST001"
  {
  }

  /** Every default nickname is an acceptable one. */
  lemma GuestNameValid(uid: Uid)
    ensures IsValidNickname(GuestName(uid))
  {
  }

  /* ---------------------------------------------------------------------
     Sessions
     --------------------------------------------------------------------- */

  /** Builds the session for a newly accepted transport under the default
      nickname, stores it, and returns it with the lines sent to it. */
  function CreateNewUser(m: UserSyncMap, uid: Uid): (r: (UserSyncMap, UserInfo, seq<Line>))
    ensures r.1.uid == uid && r.1.nickname == GuestName(uid) && WellFormed(r.1)
    ensures r.0.Keys == m.Keys + {uid} && r.0[uid] == r.1
    ensures forall k :: k in m && k != uid ==> r.0[k] == m[k]
    ensures r.2 == [Line(uid, NicknameChangedText + GuestName(uid))]
  {
    var (user, notice) := UpdateNickname(UserInfo(uid, "", ""), GuestName(uid));
    (m[uid := user], user, [notice])
  }

  /* ---------------------------------------------------------------------
     Enumeration. The registry is walked in an order of its own choosing;
     the model fixes ascending uid order, and every contract below speaks
     about which lines are produced, never about their order.
     --------------------------------------------------------------------- */

  /** `ks` lists each key of `m` exactly once. */
  ghost predicate Enumerates(ks: seq<Uid>, m: UserSyncMap) {
    && (forall i, j :: 0 <= i < j < |ks| ==> ks[i] != ks[j])
    && (forall k :: k in m <==> k in ks)
  }

  /** A non-empty set of keys has a least element. */
  lemma MinExists(s: set<Uid>)
    requires s != {}
    ensures exists x :: x in s && forall y :: y in s ==> x <= y
  {
    var c :| c in s;
    MinAtMost(s, c);
  }

  /** Descending from any member, a least element is reached. */
  lemma {:induction false} MinAtMost(s: set<Uid>, c: Uid)
    requires c in s
    ensures exists x :: x in s && forall y :: y in s ==> x <= y
    decreases c
  {
    if y :| y in s && y < c {
      MinAtMost(s, y);
    } else {
      assert forall y :: y in s ==> c <= y;
    }
  }

  /** The least key. */
  function MinOf(s: set<Uid>): (x: Uid)
    requires s != {}
    ensures x in s && forall y :: y in s ==> x <= y
  {
    MinExists(s);
    var x :| x in s && forall y :: y in s ==> x <= y;
    x
  }

  /** The keys in ascending order. */
  function RangeOrder(s: set<Uid>): (r: seq<Uid>)
    ensures |r| == |s|
    ensures forall i, j :: 0 <= i < j < |r| ==> r[i] < r[j]
    ensures forall k :: k in s <==> k in r
    decreases |s|
  {
    if s == {} then []
    else
      var x := MinOf(s);
      [x] + RangeOrder(s - {x})
  }

  /** The nicknames of the sessions listed in `ks`, in that order. */
  function NicknamesAt(m: UserSyncMap, ks: seq<Uid>): (ns: seq<string>)
    requires forall i :: 0 <= i < |ks| ==> ks[i] in m
    ensures |ns| == |ks|
    ensures forall i :: 0 <= i < |ks| ==> ns[i] == m[ks[i]].nickname
  {
    seq(|ks|, i requires 0 <= i < |ks| => m[ks[i]].nickname)
  }

  /** "ONLINE NOW: " followed by the comma-separated nicknames of all
      sessions, one per session, in enumeration order. */
  function OnlineUserList(m: UserSyncMap): (r: string)
    ensures exists ks :: Enumerates(ks, m) && r == OnlineNowText + Join(NicknamesAt(m, ks), ',')
  {
    var ks := RangeOrder(m.Keys);
    assert Enumerates(ks, m);
    OnlineNowText + Join(NicknamesAt(m, ks), ',')
  }

  /** With a single session online the summary names just that session. */
  lemma OnlineUserListSingle(m: UserSyncMap, k: Uid)
    requires m.Keys == {k}
    ensures OnlineUserList(m) == OnlineNowText + m[k].nickname
  {
    var r := OnlineUserList(m);
    var ks :| Enumerates(ks, m) && r == OnlineNowText + Join(NicknamesAt(m, ks), ',');
    EnumerationLength(ks, m);
    assert |ks| == 1 && ks[0] == k;
    assert ks == [k];
  }

  /** The summary names every session: for the enumeration it lists, each
      session's nickname is one of the joined entries. */
  lemma OnlineUserListNamesEverySession(m: UserSyncMap, k: Uid)
    requires k in m
    ensures exists ks :: && Enumerates(ks, m)
                         && OnlineUserList(m) == OnlineNowText + Join(NicknamesAt(m, ks), ',')
                         && m[k].nickname in NicknamesAt(m, ks)
  {
    var r := OnlineUserList(m);
    var ks :| Enumerates(ks, m) && r == OnlineNowText + Join(NicknamesAt(m, ks), ',');
    assert k in ks;
    var i :| 0 <= i < |ks| && ks[i] == k;
    assert NicknamesAt(m, ks)[i] == m[k].nickname;
  }

  /** When no nickname contains a comma, the summary lists exactly one
      entry per session, and every entry is the nickname of a session in the
      registry. */
  lemma OnlineUserListExact(m: UserSyncMap)
    requires |m| > 0
    requires forall k :: k in m ==> ',' !in m[k].nickname
    ensures var r := OnlineUserList(m);
      && r[..|OnlineNowText|] == OnlineNowText
      && |Split(r[|OnlineNowText|..], ',')| == |m|
      && forall t :: t in Split(r[|OnlineNowText|..], ',') ==> exists k :: k in m && m[k].nickname == t
  {
    var r := OnlineUserList(m);
    var ks :| Enumerates(ks, m) && r == OnlineNowText + Join(NicknamesAt(m, ks), ',');
    var ns := NicknamesAt(m, ks);
    assert r[|OnlineNowText|..] == Join(ns, ',');
    EnumerationLength(ks, m);
    assert ks[0] in m;
    SplitJoin(ns, ',');
    forall t | t in ns
      ensures exists k :: k in m && m[k].nickname == t
    {
      var i :| 0 <= i < |ns| && ns[i] == t;
      assert m[ks[i]].nickname == t;
    }
  }

  /** An enumeration is as long as the registry. */
  lemma EnumerationLength(ks: seq<Uid>, m: UserSyncMap)
    requires Enumerates(ks, m)
    ensures |ks| == |m|
  {
    var s := set i | 0 <= i < |ks| :: ks[i];
    assert s == m.Keys;
    DistinctCard(ks);
  }

  lemma {:induction false} DistinctCard(ks: seq<Uid>)
    requires forall i, j :: 0 <= i < j < |ks| ==> ks[i] != ks[j]
    ensures |set i | 0 <= i < |ks| :: ks[i]| == |ks|
    decreases |ks|
  {
    if |ks| > 0 {
      var last := ks[|ks| - 1];
      var init := ks[..|ks| - 1];
      DistinctCard(init);
      var s := set i | 0 <= i < |ks| :: ks[i];
      var t := set i | 0 <= i < |init| :: init[i];
      assert s == t + {last};
      assert last !in t;
    }
  }

  /* ---------------------------------------------------------------------
     Eviction
     --------------------------------------------------------------------- */

  /** The notice queued for a session the server disconnects. */
  function DisconnectNotice(reason: string): string
  {
    DisconnectedText + reason
  }

  /** One notice line to each of `ks`. */
  function Notices(ks: seq<Uid>, text: string): (r: seq<Line>)
    ensures |r| == |ks|
    ensures forall i :: 0 <= i < |ks| ==> r[i] == Line(ks[i], text)
    ensures forall l :: l in r <==> l.to in ks && l.text == text
  {
    seq(|ks|, i requires 0 <= i < |ks| => Line(ks[i], text))
  }

  /** Removes every session whose nickname is `n` and queues the
      disconnect notice for each of them; the transports are closed later. */
  function DisconnectUsersWithNickname(m: UserSyncMap, n: string): (r: (UserSyncMap, seq<Line>))
    ensures forall k :: k in r.0 <==> k in m && m[k].nickname != n
    ensures forall k :: k in r.0 ==> r.0[k] == m[k]
    ensures forall l :: l in r.1 <==>
      l.to in m && m[l.to].nickname == n && l.text == DisconnectNotice(RegisteredByAnotherText)
    ensures forall i, j :: 0 <= i < j < |r.1| ==> r.1[i].to != r.1[j].to
  {
    var gone := set k | k in m && m[k].nickname == n;
    var kept := map k | k in m && m[k].nickname != n :: m[k];
    var notices := Notices(RangeOrder(gone), DisconnectNotice(RegisteredByAnotherText));
    (kept, notices)
  }

  /* ---------------------------------------------------------------------
     Broadcast
     --------------------------------------------------------------------- */

  /** Sends the sender's prefix followed by the message to every other
      session; an unknown sender sends nothing. */
  function DispatchUserMessage(m: UserSyncMap, mi: MsgInfo): (r: seq<Line>)
    ensures mi.uid !in m ==> r == []
    ensures mi.uid in m ==> |r| == |m| - 1
    ensures mi.uid in m ==> forall l :: l in r <==>
      l.to in m && l.to != mi.uid && l.text == m[mi.uid].bnickname + mi.msg
    ensures forall i, j :: 0 <= i < j < |r| ==> r[i].to != r[j].to
  {
    if mi.uid !in m then []
    else
      var others := RangeOrder(m.Keys - {mi.uid});
      Notices(others, m[mi.uid].bnickname + mi.msg)
  }

  /** In a consistent registry every broadcast line reads
      "<sender nickname>: <message>", and the sender never gets a copy. */
  lemma BroadcastFromSender(m: UserSyncMap, mi: MsgInfo)
    requires Consistent(m) && mi.uid in m
    ensures forall l :: l in DispatchUserMessage(m, mi) ==>
      l.to != mi.uid && l.text == m[mi.uid].nickname + ": " + mi.msg
  {
  }
}
