/** Registration and logout: who may join the workspace, and how their
    statistics series and the workspace series are seeded. */
module Auth {
  import opened DataStore
  import Users

  datatype Session = Session(token: string, authUserId: int)

  /** The acceptance rule of registration. `isEmail` is the email validator,
      left uninterpreted. */
  predicate Acceptable(s: Store, email: string, password: string, nameFirst: string, nameLast: string,
                       isEmail: string -> bool) {
    && !Users.EmailTaken(s, email)
    && isEmail(email)
    && |password| >= 6
    && Users.ValidName(nameFirst)
    && Users.ValidName(nameLast)
  }

  function SeededUserStats(now: int): UserStats {
    UserStats([Point(0, now)], [Point(0, now)], [Point(0, now)], 0.0)
  }

  function SeededWorkspaceStats(now: int): WorkspaceStats {
    WorkspaceStats([Point(0, now)], [Point(0, now)], [Point(0, now)], 0.0)
  }

  /** `authRegisterV2`. The handle, the user id, the token and the clock
      reading come from generators outside this model and are parameters. */
  function Register(s: Store, email: string, password: string, nameFirst: string, nameLast: string,
                    isEmail: string -> bool, handleStr: string, userId: int, token: string, now: int)
    : (r: Result<Step<Session>>)
    ensures r.Ok? <==> Acceptable(s, email, password, nameFirst, nameLast, isEmail)
    ensures r.Err? ==> r.error == Invalid
    ensures r.Ok? ==>
      var t := r.value.store;
      && r.value.out == Session(token, userId)
      && t.users == s.users + [User(userId, email, password, nameFirst, nameLast, handleStr,
                                    if |s.users| == 0 then 1 else 2, [token])]
      && Users.EmailTaken(t, email)
      && TokenValid(t, token)
      && (!TokenValid(s, token) ==> CallerId(t, token) == userId)
      && t.channels == s.channels && t.dms == s.dms
      && t.userStats.Keys == s.userStats.Keys + {userId}
      && (forall id :: id in s.userStats && id != userId ==> t.userStats[id] == s.userStats[id])
      && (forall k :: t.userStats[userId].Get(k) == [Point(0, now)])
      && t.userStats[userId].involvementRate == 0.0
      && (|s.users| == 0 ==> forall k :: t.workspaceStats.Get(k) == [Point(0, now)])
      && (|s.users| > 0 ==> t.workspaceStats == s.workspaceStats)
  {
    if !Acceptable(s, email, password, nameFirst, nameLast, isEmail) then Err(Invalid)
    else
      var permission := if |s.users| == 0 then 1 else 2;
      var user := User(userId, email, password, nameFirst, nameLast, handleStr, permission, [token]);
      var ws := if |s.users| == 0 then SeededWorkspaceStats(now) else s.workspaceStats;
      var t := s.(users := s.users + [user],
                  userStats := s.userStats[userId := SeededUserStats(now)],
                  workspaceStats := ws);
      assert t.users[|s.users|] == user;
      Ok(Step(t, Session(token, userId)))
  }

  /** Registration keeps every user's series readable, given that the id
      generator never hands out the sentinel -1. */
  lemma RegisterKeepsStatsReady(s: Store, email: string, password: string, nameFirst: string, nameLast: string,
                                isEmail: string -> bool, handleStr: string, userId: int, token: string, now: int)
    requires StatsReady(s)
    requires userId != -1
    requires Register(s, email, password, nameFirst, nameLast, isEmail, handleStr, userId, token, now).Ok?
    ensures StatsReady(Register(s, email, password, nameFirst, nameLast, isEmail, handleStr, userId, token, now).value.store)
  {
    var t := Register(s, email, password, nameFirst, nameLast, isEmail, handleStr, userId, token, now).value.store;
    forall i | 0 <= i < |t.users|
      ensures t.users[i].uId in t.userStats
    {
      if i < |s.users| {
        assert t.users[i] == t.users[..|s.users|][i];
      }
    }
    forall id | id in t.userStats
      ensures SeriesReady(t.userStats[id])
    {
      if id == userId {
        assert t.userStats[id].Get(ChannelsJoined) == [Point(0, now)];
        assert t.userStats[id].Get(DmsJoined) == [Point(0, now)];
        assert t.userStats[id].Get(MessagesSent) == [Point(0, now)];
      }
    }
    if |s.users| == 0 {
      assert t.workspaceStats.Get(ChannelsExist) == [Point(0, now)];
      assert t.workspaceStats.Get(DmsExist) == [Point(0, now)];
      assert t.workspaceStats.Get(MessagesExist) == [Point(0, now)];
    }
  }

  /** A new user's involvement rate, computed from their seeded series, is 0. */
  lemma NewUserInvolvementIsZero(s: Store, email: string, password: string, nameFirst: string, nameLast: string,
                                 isEmail: string -> bool, handleStr: string, userId: int, token: string, now: int)
    requires Register(s, email, password, nameFirst, nameLast, isEmail, handleStr, userId, token, now).Ok?
    ensures var t := Register(s, email, password, nameFirst, nameLast, isEmail, handleStr, userId, token, now).value.store;
            Users.Involvement(t, t.userStats[userId]) == 0.0
  {
  }

  /** The position `indexOf` reports: the first occurrence. */
  function IndexOf(xs: seq<string>, x: string): (r: nat)
    requires x in xs
    ensures r < |xs| && xs[r] == x
    ensures forall j :: 0 <= j < r ==> xs[j] != x
  {
    if xs[0] == x then 0 else 1 + IndexOf(xs[1..], x)
  }

  /** `authLogoutV1`: drops one occurrence of the token from its holder. */
  function Logout(s: Store, token: string): (r: Result<Store>)
    ensures r.Ok? <==> TokenValid(s, token)
    ensures r.Err? ==> r.error == Invalid
    ensures r.Ok? ==>
      var i := TokenOwner(s, token);
      var ts := s.users[i].tokens;
      && Users.OnlyUserChanged(s, r.value, i)
      && r.value.users[i] == s.users[i].(tokens := r.value.users[i].tokens)
      && multiset(r.value.users[i].tokens) == multiset(ts) - multiset{token}
      && r.value.users[i].tokens == ts[..IndexOf(ts, token)] + ts[IndexOf(ts, token) + 1..]
    ensures StatsReady(s) && r.Ok? ==> StatsReady(r.value)
  {
    if !TokenValid(s, token) then Err(Invalid)
    else
      var i := TokenOwner(s, token);
      var ts := s.users[i].tokens;
      var k := IndexOf(ts, token);
      assert ts == ts[..k] + [token] + ts[k + 1..];
      var rest := ts[..k] + ts[k + 1..];
      TokensEditKeepsReady(s, i, rest);
      Ok(s.(users := s.users[i := s.users[i].(tokens := rest)]))
  }

  /** Replacing one user's token list keeps the store invariant. */
  lemma TokensEditKeepsReady(s: Store, i: nat, tokens: seq<string>)
    requires i < |s.users|
    ensures StatsReady(s) ==> StatsReady(s.(users := s.users[i := s.users[i].(tokens := tokens)]))
  {
    var t := s.(users := s.users[i := s.users[i].(tokens := tokens)]);
    assert forall j :: 0 <= j < |t.users| ==> t.users[j].uId == s.users[j].uId;
  }

  /** When the token is held once across the store, logout invalidates
      exactly that token: every other token stays valid. */
  lemma LogoutInvalidatesOnlyThatToken(s: Store, token: string, other: string)
    requires TokenValid(s, token)
    requires forall j :: 0 <= j < |s.users| && j != TokenOwner(s, token) ==> token !in s.users[j].tokens
    requires multiset(s.users[TokenOwner(s, token)].tokens)[token] == 1
    ensures !TokenValid(Logout(s, token).value, token)
    ensures other != token ==> (TokenValid(Logout(s, token).value, other) <==> TokenValid(s, other))
  {
    var t := Logout(s, token).value;
    var i := TokenOwner(s, token);
    assert multiset(t.users[i].tokens)[token] == 0;
    if other != token {
      if TokenValid(s, other) {
        var j :| 0 <= j < |s.users| && other in s.users[j].tokens;
        if j == i {
          assert other in multiset(s.users[i].tokens);
          assert other in multiset(t.users[i].tokens);
        }
        assert other in t.users[j].tokens;
      }
      if TokenValid(t, other) {
        var j :| 0 <= j < |t.users| && other in t.users[j].tokens;
        if j == i {
          assert other in multiset(t.users[i].tokens);
          assert other in s.users[i].tokens;
        }
        assert other in s.users[j].tokens;
      }
    }
  }
}
