/** Statistics tracking, the derived rates, and the profile setters. */
module Users {
  import opened DataStore
  import Text

  // ---- append-only series ----

  /** `after` is `before` with `times` points appended, each `change` above
      the point before it and stamped `now`; the old points are untouched. */
  predicate Grown(before: seq<Point>, after: seq<Point>, times: nat, change: int, now: int) {
    && |after| == |before| + times
    && (times > 0 ==> |before| > 0)
    && after[..|before|] == before
    && forall j :: |before| <= j < |after| ==> after[j] == Point(after[j - 1].count + change, now)
  }

  /** Every user record keeps its other series and rate; series `k` of user
      `id` grows by one point for each occurrence of `id` in `ids`. */
  predicate UsersGrown(before: map<int, UserStats>, after: map<int, UserStats>, k: UserSeries,
                       ids: seq<int>, change: int, now: int) {
    && after.Keys == before.Keys
    && forall id :: id in before ==>
         && after[id] == before[id].With(k, after[id].Get(k))
         && Grown(before[id].Get(k), after[id].Get(k), Count(ids, id), change, now)
  }

  /** The workspace record keeps its other series and rate; series `k` grows by one point. */
  predicate WorkspaceGrown(before: WorkspaceStats, after: WorkspaceStats, k: WorkspaceSeries, change: int, now: int) {
    && after == before.With(k, after.Get(k))
    && Grown(before.Get(k), after.Get(k), 1, change, now)
  }

  /** Appends one point whose count is the last count plus `change`. */
  function Record(pts: seq<Point>, change: int, now: int): (r: seq<Point>)
    requires |pts| > 0
    ensures Grown(pts, r, 1, change, now)
  {
    pts + [Point(pts[|pts| - 1].count + change, now)]
  }

  lemma GrownCompose(a: seq<Point>, b: seq<Point>, c: seq<Point>, m: nat, n: nat, change: int, now: int)
    requires Grown(a, b, m, change, now) && Grown(b, c, n, change, now)
    ensures Grown(a, c, m + n, change, now)
  {
    assert c[..|a|] == c[..|b|][..|a|];
    forall j | |a| <= j < |c|
      ensures c[j] == Point(c[j - 1].count + change, now)
    {
      if j < |b| {
        assert c[j] == c[..|b|][j] && c[j - 1] == c[..|b|][j - 1];
      }
    }
  }

  lemma UsersGrownCompose(a: map<int, UserStats>, b: map<int, UserStats>, c: map<int, UserStats>,
                          k: UserSeries, xs: seq<int>, ys: seq<int>, change: int, now: int)
    requires UsersGrown(a, b, k, xs, change, now) && UsersGrown(b, c, k, ys, change, now)
    ensures UsersGrown(a, c, k, xs + ys, change, now)
  {
    forall id | id in a
      ensures c[id] == a[id].With(k, c[id].Get(k))
      ensures Grown(a[id].Get(k), c[id].Get(k), Count(xs + ys, id), change, now)
    {
      CountConcat(xs, ys, id);
      GrownCompose(a[id].Get(k), b[id].Get(k), c[id].Get(k), Count(xs, id), Count(ys, id), change, now);
      match k
      case ChannelsJoined =>
      case DmsJoined =>
      case MessagesSent =>
    }
  }

  lemma CountSingle(x: int, id: int)
    ensures Count([x], id) == if x == id then 1 else 0
  {
    assert [x][1..] == [];
  }

  /** `statTracker(userStat, authUserId, change, workspaceStat)`: `None` for
      `userStat` stands for the empty key `''`, and the uId -1 likewise
      switches the per-user update off. */
  function StatTracker(s: Store, userStat: Option<UserSeries>, uId: int, change: int,
                       workspaceStat: Option<WorkspaceSeries>, now: int): (r: Store)
    requires userStat.Some? && uId != -1 ==> uId in s.userStats && |s.userStats[uId].Get(userStat.value)| > 0
    requires workspaceStat.Some? ==> |s.workspaceStats.Get(workspaceStat.value)| > 0
    ensures r.users == s.users && r.channels == s.channels && r.dms == s.dms
    ensures userStat.Some? && uId != -1 ==> UsersGrown(s.userStats, r.userStats, userStat.value, [uId], change, now)
    ensures !(userStat.Some? && uId != -1) ==> r.userStats == s.userStats
    ensures workspaceStat.Some? ==> WorkspaceGrown(s.workspaceStats, r.workspaceStats, workspaceStat.value, change, now)
    ensures workspaceStat.None? ==> r.workspaceStats == s.workspaceStats
    ensures StatsReady(s) ==> StatsReady(r)
  {
    var us :=
      if userStat.Some? && uId != -1 then
        var st := s.userStats[uId];
        s.userStats[uId := st.With(userStat.value, Record(st.Get(userStat.value), change, now))]
      else s.userStats;
    var ws :=
      if workspaceStat.Some? then
        var w := s.workspaceStats;
        w.With(workspaceStat.value, Record(w.Get(workspaceStat.value), change, now))
      else s.workspaceStats;
    var r := s.(userStats := us, workspaceStats := ws);
    assert userStat.Some? && uId != -1 ==> UsersGrown(s.userStats, r.userStats, userStat.value, [uId], change, now) by {
      if userStat.Some? && uId != -1 {
        forall id | id in s.userStats
          ensures Count([uId], id) == if uId == id then 1 else 0
        {
          CountSingle(uId, id);
        }
      }
    }
    r
  }

  /** The loop `for (const user of uIds) statTracker(k, user, change)`. */
  function TrackEach(s: Store, ids: seq<int>, k: UserSeries, change: int, now: int): (r: Store)
    requires StatsReady(s)
    requires forall i :: 0 <= i < |ids| ==> ids[i] in s.userStats
    ensures r.users == s.users && r.channels == s.channels && r.dms == s.dms
    ensures r.workspaceStats == s.workspaceStats
    ensures UsersGrown(s.userStats, r.userStats, k, ids, change, now)
    ensures StatsReady(r)
    decreases |ids|
  {
    if |ids| == 0 then s
    else
      var s1 := StatTracker(s, Some(k), ids[0], change, None, now);
      TailStillKeyed(s.userStats, s1.userStats, ids);
      var r := TrackEach(s1, ids[1..], k, change, now);
      UsersGrownCompose(s.userStats, s1.userStats, r.userStats, k, [ids[0]], ids[1..], change, now);
      assert [ids[0]] + ids[1..] == ids;
      r
  }

  lemma TailStillKeyed(a: map<int, UserStats>, b: map<int, UserStats>, ids: seq<int>)
    requires |ids| > 0 && b.Keys == a.Keys
    requires forall i :: 0 <= i < |ids| ==> ids[i] in a
    ensures forall i :: 0 <= i < |ids[1..]| ==> ids[1..][i] in b
  {
    assert forall i :: 0 <= i < |ids[1..]| ==> ids[1..][i] == ids[i + 1];
  }

  /** Applying the recorded changes one at a time: after `changes`, the
      series has one more point per change and ends at the old last count
      plus their sum. */
  function RecordAll(pts: seq<Point>, changes: seq<int>, now: int): (r: seq<Point>)
    requires |pts| > 0
    decreases |changes|
  {
    if |changes| == 0 then pts else RecordAll(Record(pts, changes[0], now), changes[1..], now)
  }

  function Sum(xs: seq<int>): int {
    if |xs| == 0 then 0 else xs[0] + Sum(xs[1..])
  }

  lemma {:induction false} RecordAllHistory(pts: seq<Point>, changes: seq<int>, now: int)
    requires |pts| > 0
    ensures |RecordAll(pts, changes, now)| == |pts| + |changes|
    ensures RecordAll(pts, changes, now)[..|pts|] == pts
    ensures forall i :: 0 <= i < |changes| ==>
              RecordAll(pts, changes, now)[|pts| + i].count == RecordAll(pts, changes, now)[|pts| + i - 1].count + changes[i]
    ensures RecordAll(pts, changes, now)[|pts| + |changes| - 1].count == pts[|pts| - 1].count + Sum(changes)
    decreases |changes|
  {
    if |changes| > 0 {
      var p1 := Record(pts, changes[0], now);
      RecordAllHistory(p1, changes[1..], now);
      var r := RecordAll(pts, changes, now);
      assert r == RecordAll(p1, changes[1..], now);
      assert r[..|p1|] == p1;
      assert r[..|pts|] == r[..|p1|][..|pts|];
      forall i | 0 <= i < |changes|
        ensures r[|pts| + i].count == r[|pts| + i - 1].count + changes[i]
      {
        if i == 0 {
          assert r[|pts|] == p1[|pts|] && r[|pts| - 1] == p1[|pts| - 1];
        } else {
          assert changes[i] == changes[1..][i - 1];
        }
      }
    }
  }

  // ---- stat keys ----

  /** `createStatKey`: "num" followed by the key with its first character upper-cased. */
  function CreateStatKey(stat: string): (r: string)
    ensures |r| == 3 + |stat|
    ensures r[..3] == "num"
  {
    if |stat| == 0 then "num" else "num" + [Text.ToUpper(stat[0])] + stat[1..]
  }

  /** Undoes `CreateStatKey` on keys that start with a lower-case letter. */
  function StatNameOf(key: string): string
    requires |key| > 3
  {
    [Text.ToLower(key[3])] + key[4..]
  }

  lemma StatKeyRoundTrip(stat: string)
    requires |stat| > 0 && 'a' <= stat[0] <= 'z'
    ensures StatNameOf(CreateStatKey(stat)) == stat
  {
    var key := CreateStatKey(stat);
    assert key[3] == Text.ToUpper(stat[0]);
    assert key[4..] == stat[1..];
    assert stat == [stat[0]] + stat[1..];
  }

  /** Distinct keys starting with a lower-case letter get distinct record fields. */
  lemma StatKeyInjective(a: string, b: string)
    requires |a| > 0 && 'a' <= a[0] <= 'z'
    requires |b| > 0 && 'a' <= b[0] <= 'z'
    requires CreateStatKey(a) == CreateStatKey(b)
    ensures a == b
  {
    StatKeyRoundTrip(a);
    StatKeyRoundTrip(b);
  }

  function UserSeriesName(k: UserSeries): string {
    match k
    case ChannelsJoined => "channelsJoined"
    case DmsJoined => "dmsJoined"
    case MessagesSent => "messagesSent"
  }

  function WorkspaceSeriesName(k: WorkspaceSeries): string {
    match k
    case ChannelsExist => "channelsExist"
    case DmsExist => "dmsExist"
    case MessagesExist => "messagesExist"
  }

  /** The count field each record type declares. */
  function UserCountField(k: UserSeries): string {
    match k
    case ChannelsJoined => "numChannelsJoined"
    case DmsJoined => "numDmsJoined"
    case MessagesSent => "numMessagesSent"
  }

  function WorkspaceCountField(k: WorkspaceSeries): string {
    match k
    case ChannelsExist => "numChannelsExist"
    case DmsExist => "numDmsExist"
    case MessagesExist => "numMessagesExist"
  }

  /** The name's key agrees with the field at every position. */
  lemma KeyOfName(name: string, field: string)
    requires |name| > 0 && |field| == |name| + 3 && field[..3] == "num"
    requires field[3] == Text.ToUpper(name[0]) && field[4..] == name[1..]
    ensures CreateStatKey(name) == field
  {
    assert field == field[..3] + [field[3]] + field[4..];
  }

  /** The key `statTracker` derives for each user series is the count field of its record type. */
  lemma UserStatKeysMatchFields(k: UserSeries)
    ensures CreateStatKey(UserSeriesName(k)) == UserCountField(k)
  {
    match k
    case ChannelsJoined => ChannelsJoinedKey();
    case DmsJoined => DmsJoinedKey();
    case MessagesSent => MessagesSentKey();
  }

  /** Likewise for the workspace series. */
  lemma WorkspaceStatKeysMatchFields(k: WorkspaceSeries)
    ensures CreateStatKey(WorkspaceSeriesName(k)) == WorkspaceCountField(k)
  {
    match k
    case ChannelsExist => ChannelsExistKey();
    case DmsExist => DmsExistKey();
    case MessagesExist => MessagesExistKey();
  }

  lemma ChannelsJoinedKey()
    ensures CreateStatKey("channelsJoined") == "numChannelsJoined"
  {
    KeyOfName("channelsJoined", "numChannelsJoined");
  }

  lemma DmsJoinedKey()
    ensures CreateStatKey("dmsJoined") == "numDmsJoined"
  {
    KeyOfName("dmsJoined", "numDmsJoined");
  }

  lemma MessagesSentKey()
    ensures CreateStatKey("messagesSent") == "numMessagesSent"
  {
    KeyOfName("messagesSent", "numMessagesSent");
  }

  lemma ChannelsExistKey()
    ensures CreateStatKey("channelsExist") == "numChannelsExist"
  {
    KeyOfName("channelsExist", "numChannelsExist");
  }

  lemma DmsExistKey()
    ensures CreateStatKey("dmsExist") == "numDmsExist"
  {
    KeyOfName("dmsExist", "numDmsExist");
  }

  lemma MessagesExistKey()
    ensures CreateStatKey("messagesExist") == "numMessagesExist"
  {
    KeyOfName("messagesExist", "numMessagesExist");
  }

  // ---- totals and rates ----

  function DmLogLength(d: Dm): nat {
    |d.messages|
  }

  function ChannelLogLength(c: Channel): nat {
    |c.messages|
  }

  function SumOf<T>(xs: seq<T>, len: T -> nat): nat {
    if |xs| == 0 then 0 else len(xs[0]) + SumOf(xs[1..], len)
  }

  lemma {:induction false} SumOfAppend<T>(xs: seq<T>, x: T, len: T -> nat)
    ensures SumOf(xs + [x], len) == SumOf(xs, len) + len(x)
  {
    if |xs| > 0 {
      assert (xs + [x])[1..] == xs[1..] + [x];
      SumOfAppend(xs[1..], x, len);
    }
  }

  lemma {:induction false} SumOfUpdate<T>(xs: seq<T>, i: nat, x: T, len: T -> nat)
    requires i < |xs|
    ensures SumOf(xs[i := x], len) == SumOf(xs, len) - len(xs[i]) + len(x)
  {
    if i > 0 {
      assert xs[i := x][1..] == xs[1..][i - 1 := x];
      SumOfUpdate(xs[1..], i - 1, x, len);
    } else {
      assert xs[i := x][1..] == xs[1..];
    }
  }

  lemma {:induction false} SumOfZero<T>(xs: seq<T>, len: T -> nat)
    ensures SumOf(xs, len) == 0 <==> forall i :: 0 <= i < |xs| ==> len(xs[i]) == 0
  {
    if |xs| > 0 {
      SumOfZero(xs[1..], len);
      assert forall i :: 1 <= i < |xs| ==> xs[i] == xs[1..][i - 1];
    }
  }

  /** `getTotalMsgs`: the messages in every DM log, removed DMs included, and every channel log. */
  function TotalMsgs(s: Store): nat {
    SumOf(s.dms, DmLogLength) + SumOf(s.channels, ChannelLogLength)
  }

  /** The total is 0 exactly when every DM log and every channel log is empty. */
  lemma NoMessagesIffEmptyLogs(s: Store)
    ensures TotalMsgs(s) == 0 <==>
      && (forall d :: 0 <= d < |s.dms| ==> |s.dms[d].messages| == 0)
      && (forall c :: 0 <= c < |s.channels| ==> |s.channels[c].messages| == 0)
  {
    SumOfZero(s.dms, DmLogLength);
    SumOfZero(s.channels, ChannelLogLength);
  }

  /** The latest count of a series, 0 for an empty one. */
  function LastCount(pts: seq<Point>): int {
    if |pts| == 0 then 0 else pts[|pts| - 1].count
  }

  /** The numerator of the involvement rate. */
  function Involved(st: UserStats): int {
    LastCount(st.channelsJoined) + LastCount(st.dmsJoined) + LastCount(st.messagesSent)
  }

  /** The denominator of the involvement rate. */
  function Activity(s: Store): nat {
    |s.channels| + |s.dms| + TotalMsgs(s)
  }

  /** `calcRates('involve', uId)`: the ratio capped at 1, and 0 on an empty workspace. */
  function Involvement(s: Store, st: UserStats): (r: real)
    ensures r <= 1.0
    ensures Activity(s) == 0 ==> r == 0.0
    ensures Activity(s) > 0 && Involved(st) <= Activity(s) ==> r * (Activity(s) as real) == Involved(st) as real
    ensures Activity(s) > 0 && Involved(st) >= Activity(s) ==> r == 1.0
    ensures Involved(st) >= 0 ==> r >= 0.0
  {
    var num := Involved(st);
    var den := Activity(s);
    if den == 0 then 0.0
    else
      RateFacts(num, den);
      var rate := (num as real) / (den as real);
      if rate > 1.0 then 1.0 else rate
  }

  lemma RateFacts(num: int, den: nat)
    requires den > 0
    ensures (num as real) / (den as real) * (den as real) == num as real
    ensures num <= den ==> (num as real) / (den as real) <= 1.0
    ensures num >= den ==> (num as real) / (den as real) >= 1.0
    ensures num >= 0 ==> (num as real) / (den as real) >= 0.0
    ensures num < 0 ==> (num as real) / (den as real) < 0.0
  {
    var q := (num as real) / (den as real);
    var d := den as real;
    assert q * d == num as real;
    QuotientOrder(q, d, 1.0);
    QuotientOrder(q, d, 0.0);
  }

  /** A quotient `q` of `q * d` by a positive `d` compares with `c` as `q * d` compares with `c * d`. */
  lemma QuotientOrder(q: real, d: real, c: real)
    requires d > 0.0
    ensures q * d <= c * d ==> q <= c
    ensures q * d >= c * d ==> q >= c
    ensures q * d < c * d ==> q < c
  {
    if q > c {
      MulMonotone(q, c, d);
    } else if q < c {
      MulMonotone(c, q, d);
    }
  }

  /** Multiplying by a positive factor keeps a strict order. */
  lemma MulMonotone(a: real, b: real, d: real)
    requires a > b && d > 0.0
    ensures a * d > b * d
  {
    assert a * d - b * d == (a - b) * d;
  }

  /** The rate is only capped from above: a negative numerator gives a negative rate. */
  lemma InvolvementCanBeNegative(s: Store, st: UserStats)
    requires Activity(s) > 0 && Involved(st) < 0
    ensures Involvement(s, st) < 0.0
  {
  }

  predicate HasJoined(st: UserStats) {
    LastCount(st.channelsJoined) > 0 || LastCount(st.dmsJoined) > 0
  }

  predicate Known(s: Store, us: seq<User>) {
    forall i :: 0 <= i < |us| ==> us[i].uId in s.userStats
  }

  /** The positions of the users whose latest channel or DM count is positive. */
  function Joiners(s: Store, us: seq<User>): set<int>
    requires Known(s, us)
  {
    set i | 0 <= i < |us| && HasJoined(s.userStats[us[i].uId])
  }

  /** Adding one user at the end adds their position when they have joined. */
  lemma JoinersSnoc(s: Store, us: seq<User>)
    requires Known(s, us) && |us| > 0
    ensures |Joiners(s, us)| == |Joiners(s, us[..|us| - 1])|
                                + (if HasJoined(s.userStats[us[|us| - 1].uId]) then 1 else 0)
  {
    var n := |us| - 1;
    var pre := us[..n];
    assert forall i :: 0 <= i < n ==> pre[i] == us[i];
    var last: set<int> := if HasJoined(s.userStats[us[n].uId]) then {n} else {};
    forall i | i in Joiners(s, us)
      ensures i in Joiners(s, pre) + last
    {
      if i < n {
        assert us[i] == pre[i];
      }
    }
    assert Joiners(s, us) == Joiners(s, pre) + last;
    assert n !in Joiners(s, pre);
  }

  /** The counting loop, read from the end: the last user adds one when they
      have joined. */
  lemma {:induction false} JoinedUsersSnoc(s: Store, us: seq<User>)
    requires Known(s, us) && |us| > 0
    ensures JoinedUsers(s, us) == JoinedUsers(s, us[..|us| - 1])
                                  + (if HasJoined(s.userStats[us[|us| - 1].uId]) then 1 else 0)
    decreases |us|
  {
    if |us| > 1 {
      var pre := us[..|us| - 1];
      assert pre[1..] == us[1..][..|us[1..]| - 1];
      assert us[1..][|us[1..]| - 1] == us[|us| - 1];
      JoinedUsersSnoc(s, us[1..]);
    }
  }

  /** The counting loop counts exactly the users who have joined something. */
  lemma {:induction false} JoinedUsersCountsJoiners(s: Store, us: seq<User>)
    requires Known(s, us)
    ensures JoinedUsers(s, us) == |Joiners(s, us)|
    decreases |us|
  {
    if |us| > 0 {
      var pre := us[..|us| - 1];
      JoinedUsersCountsJoiners(s, pre);
      JoinedUsersSnoc(s, us);
      JoinersSnoc(s, us);
    } else {
      assert Joiners(s, us) == {};
    }
  }

  /** The loop counting users whose latest channel or DM count is positive. */
  function JoinedUsers(s: Store, us: seq<User>): (n: nat)
    requires Known(s, us)
    ensures n <= |us|
    ensures n == 0 <==> forall i :: 0 <= i < |us| ==> !HasJoined(s.userStats[us[i].uId])
    ensures n == |us| <==> forall i :: 0 <= i < |us| ==> HasJoined(s.userStats[us[i].uId])
  {
    if |us| == 0 then 0
    else
      var rest := JoinedUsers(s, us[1..]);
      assert forall i :: 1 <= i < |us| ==> us[i] == us[1..][i - 1];
      (if HasJoined(s.userStats[us[0].uId]) then 1 else 0) + rest
  }

  /** `calcRates('utilise')`: the share of users who have joined something. */
  function Utilization(s: Store): (r: real)
    requires StatsReady(s) && |s.users| > 0
    ensures 0.0 <= r <= 1.0
    ensures r == 0.0 <==> forall i :: 0 <= i < |s.users| ==> !HasJoined(s.userStats[s.users[i].uId])
    ensures r == 1.0 <==> forall i :: 0 <= i < |s.users| ==> HasJoined(s.userStats[s.users[i].uId])
  {
    Share(JoinedUsers(s, s.users), |s.users|)
  }

  /** The utilisation rate is the share of users whose latest channel or DM
      count is positive. */
  lemma UtilizationIsShareOfJoiners(s: Store)
    requires StatsReady(s) && |s.users| > 0
    ensures Utilization(s) == (|Joiners(s, s.users)| as real) / (|s.users| as real)
  {
    JoinedUsersCountsJoiners(s, s.users);
  }

  /** `n / d` for a part `n` of a positive whole `d`. */
  function Share(n: nat, d: nat): (r: real)
    requires 0 < d && n <= d
    ensures r * (d as real) == n as real
    ensures 0.0 <= r <= 1.0
    ensures r == 0.0 <==> n == 0
    ensures r == 1.0 <==> n == d
  {
    RatioBounds(n, d);
    (n as real) / (d as real)
  }

  lemma RatioBounds(n: nat, d: nat)
    requires 0 < d && n <= d
    ensures (n as real) / (d as real) * (d as real) == n as real
    ensures 0.0 <= (n as real) / (d as real) <= 1.0
    ensures (n as real) / (d as real) == 0.0 <==> n == 0
    ensures (n as real) / (d as real) == 1.0 <==> n == d
  {
    var r := (n as real) / (d as real);
    RateFacts(n, d);
    QuotientOrder(r, d as real, 0.0);
    QuotientOrder(r, d as real, 1.0);
  }

  /** `userStatsV1`: the caller's series with the freshly computed rate, which is also stored back. */
  function UserStatsV1(s: Store, token: string): (r: Result<Step<UserStats>>)
    requires StatsReady(s)
    ensures r.Err? <==> !TokenValid(s, token)
    ensures r.Err? ==> r.error == Forbidden
    ensures r.Ok? ==>
      var id := CallerId(s, token);
      && (forall k :: r.value.out.Get(k) == s.userStats[id].Get(k))
      && r.value.out.involvementRate == Involvement(s, s.userStats[id])
      && r.value.store == s.(userStats := s.userStats[id := r.value.out])
    ensures r.Ok? ==> StatsReady(r.value.store)
  {
    if !TokenValid(s, token) then Err(Forbidden)
    else
      var id := CallerId(s, token);
      var st := s.userStats[id].(involvementRate := Involvement(s, s.userStats[id]));
      Ok(Step(s.(userStats := s.userStats[id := st]), st))
  }

  /** `usersStatsV1`: the workspace series with the freshly computed utilisation rate. */
  function UsersStatsV1(s: Store, token: string): (r: Result<Step<WorkspaceStats>>)
    requires StatsReady(s)
    ensures r.Err? <==> !TokenValid(s, token)
    ensures r.Err? ==> r.error == Forbidden
    ensures r.Ok? ==>
      && (forall k :: r.value.out.Get(k) == s.workspaceStats.Get(k))
      && r.value.out.utilizationRate == Utilization(s)
      && 0.0 <= r.value.out.utilizationRate <= 1.0
      && r.value.store == s.(workspaceStats := r.value.out)
    ensures r.Ok? ==> StatsReady(r.value.store)
  {
    if !TokenValid(s, token) then Err(Forbidden)
    else
      var ws := s.workspaceStats.(utilizationRate := Utilization(s));
      Ok(Step(s.(workspaceStats := ws), ws))
  }

  // ---- profile setters ----

  /** Store `s` with the user at index `i` replaced and everything else kept. */
  predicate OnlyUserChanged(s: Store, r: Store, i: nat)
    requires i < |s.users|
  {
    && |r.users| == |s.users|
    && (forall j :: 0 <= j < |s.users| && j != i ==> r.users[j] == s.users[j])
    && r.channels == s.channels && r.dms == s.dms
    && r.userStats == s.userStats && r.workspaceStats == s.workspaceStats
  }

  predicate ValidName(name: string) {
    1 <= |name| <= 50
  }

  function SetName(s: Store, token: string, nameFirst: string, nameLast: string): (r: Result<Store>)
    ensures r.Ok? <==> TokenValid(s, token) && ValidName(nameFirst) && ValidName(nameLast)
    ensures r.Err? ==> r.error == Invalid
    ensures r.Ok? ==>
      var i := TokenOwner(s, token);
      && OnlyUserChanged(s, r.value, i)
      && r.value.users[i] == s.users[i].(nameFirst := nameFirst, nameLast := nameLast)
  {
    if !TokenValid(s, token) then Err(Invalid)
    else if !ValidName(nameFirst) || !ValidName(nameLast) then Err(Invalid)
    else
      var i := TokenOwner(s, token);
      Ok(s.(users := s.users[i := s.users[i].(nameFirst := nameFirst, nameLast := nameLast)]))
  }

  predicate HandleTaken(s: Store, handleStr: string) {
    exists i :: 0 <= i < |s.users| && s.users[i].handleStr == handleStr
  }

  function SetHandle(s: Store, token: string, handleStr: string): (r: Result<Store>)
    ensures r.Ok? <==>
      && TokenValid(s, token)
      && !HandleTaken(s, handleStr)
      && 3 <= |handleStr| <= 20
      && Text.IsAlphaNumeric(handleStr)
    ensures r.Err? ==> r.error == Invalid
    ensures r.Ok? ==>
      var i := TokenOwner(s, token);
      && OnlyUserChanged(s, r.value, i)
      && r.value.users[i] == s.users[i].(handleStr := handleStr)
  {
    if !TokenValid(s, token) then Err(Invalid)
    else if HandleTaken(s, handleStr) then Err(Invalid)
    else if !(3 <= |handleStr| <= 20) || !Text.IsAlphaNumeric(handleStr) then Err(Invalid)
    else
      var i := TokenOwner(s, token);
      Ok(s.(users := s.users[i := s.users[i].(handleStr := handleStr)]))
  }

  predicate HandlesDistinct(users: seq<User>) {
    forall i, j :: 0 <= i < j < |users| ==> users[i].handleStr != users[j].handleStr
  }

  /** Handles stay unique workspace-wide across a handle change. */
  lemma SetHandleKeepsHandlesUnique(s: Store, token: string, handleStr: string)
    requires HandlesDistinct(s.users)
    requires SetHandle(s, token, handleStr).Ok?
    ensures HandlesDistinct(SetHandle(s, token, handleStr).value.users)
  {
    var r := SetHandle(s, token, handleStr).value;
    var k := TokenOwner(s, token);
    forall i, j | 0 <= i < j < |r.users|
      ensures r.users[i].handleStr != r.users[j].handleStr
    {
      if i == k {
        assert r.users[j] == s.users[j];
      } else if j == k {
        assert r.users[i] == s.users[i];
      }
    }
  }

  predicate EmailTaken(s: Store, email: string) {
    exists i :: 0 <= i < |s.users| && s.users[i].email == email
  }

  /** `isEmail` is the email validator, which this model leaves uninterpreted. */
  function SetEmail(s: Store, token: string, email: string, isEmail: string -> bool): (r: Result<Store>)
    ensures r.Ok? <==> TokenValid(s, token) && !EmailTaken(s, email) && isEmail(email)
    ensures r.Err? ==> r.error == Invalid
    ensures r.Ok? ==>
      var i := TokenOwner(s, token);
      && OnlyUserChanged(s, r.value, i)
      && r.value.users[i] == s.users[i].(email := email)
  {
    if !TokenValid(s, token) then Err(Invalid)
    else if EmailTaken(s, email) then Err(Invalid)
    else if !isEmail(email) then Err(Invalid)
    else
      var i := TokenOwner(s, token);
      Ok(s.(users := s.users[i := s.users[i].(email := email)]))
  }

  predicate EmailsDistinct(users: seq<User>) {
    forall i, j :: 0 <= i < j < |users| ==> users[i].email != users[j].email
  }

  /** A change to one user's record that keeps their uId and tokens keeps the
      store invariant and the validity of every token. */
  lemma ProfileEditKeepsStore(s: Store, t: Store, i: nat)
    requires i < |s.users| && OnlyUserChanged(s, t, i)
    requires t.users[i].uId == s.users[i].uId && t.users[i].tokens == s.users[i].tokens
    ensures StatsReady(s) ==> StatsReady(t)
    ensures forall x :: TokenValid(t, x) <==> TokenValid(s, x)
  {
    forall x
      ensures TokenValid(t, x) <==> TokenValid(s, x)
    {
      if TokenValid(s, x) {
        var j :| 0 <= j < |s.users| && x in s.users[j].tokens;
        assert x in t.users[j].tokens;
      }
      if TokenValid(t, x) {
        var j :| 0 <= j < |t.users| && x in t.users[j].tokens;
        assert x in s.users[j].tokens;
      }
    }
    if StatsReady(s) {
      forall j | 0 <= j < |t.users|
        ensures t.users[j].uId in t.userStats
      {
        assert t.users[j].uId == s.users[j].uId;
      }
    }
  }

  /** A successful handle change keeps the invariant, every token's
      validity and the distinctness of emails and handles; the new handle is taken. */
  lemma SetHandleKeepsStore(s: Store, token: string, handleStr: string)
    requires SetHandle(s, token, handleStr).Ok?
    ensures var t := SetHandle(s, token, handleStr).value;
            && (StatsReady(s) ==> StatsReady(t))
            && (forall x :: TokenValid(t, x) <==> TokenValid(s, x))
            && (HandlesDistinct(s.users) ==> HandlesDistinct(t.users))
            && (EmailsDistinct(s.users) ==> EmailsDistinct(t.users))
            && HandleTaken(t, handleStr)
  {
    var t := SetHandle(s, token, handleStr).value;
    var k := TokenOwner(s, token);
    ProfileEditKeepsStore(s, t, k);
    if HandlesDistinct(s.users) {
      SetHandleKeepsHandlesUnique(s, token, handleStr);
    }
    assert forall j :: 0 <= j < |s.users| ==> t.users[j].email == s.users[j].email;
    assert t.users[k].handleStr == handleStr;
  }

  /** A name change keeps the store invariant, every token's validity, and
      handles and emails distinct. */
  lemma SetNameKeepsStore(s: Store, token: string, nameFirst: string, nameLast: string)
    requires SetName(s, token, nameFirst, nameLast).Ok?
    ensures var t := SetName(s, token, nameFirst, nameLast).value;
            && (StatsReady(s) ==> StatsReady(t))
            && (forall x :: TokenValid(t, x) <==> TokenValid(s, x))
            && (HandlesDistinct(s.users) ==> HandlesDistinct(t.users))
            && (EmailsDistinct(s.users) ==> EmailsDistinct(t.users))
  {
    var t := SetName(s, token, nameFirst, nameLast).value;
    var k := TokenOwner(s, token);
    ProfileEditKeepsStore(s, t, k);
    assert forall j :: 0 <= j < |s.users| ==>
      t.users[j].handleStr == s.users[j].handleStr && t.users[j].email == s.users[j].email;
  }

  /** An email change keeps the store invariant and every token's validity,
      keeps emails distinct, takes the new email and, with distinct emails,
      frees the old one. */
  lemma SetEmailKeepsStore(s: Store, token: string, email: string, isEmail: string -> bool)
    requires SetEmail(s, token, email, isEmail).Ok?
    ensures var t := SetEmail(s, token, email, isEmail).value;
            && (StatsReady(s) ==> StatsReady(t))
            && (forall x :: TokenValid(t, x) <==> TokenValid(s, x))
            && (HandlesDistinct(s.users) ==> HandlesDistinct(t.users))
            && (EmailsDistinct(s.users) ==> EmailsDistinct(t.users))
            && EmailTaken(t, email)
    ensures var t := SetEmail(s, token, email, isEmail).value;
            var previous := s.users[TokenOwner(s, token)].email;
            EmailsDistinct(s.users) ==>
              forall e :: e != email ==> (EmailTaken(t, e) <==> EmailTaken(s, e) && e != previous)
  {
    var t := SetEmail(s, token, email, isEmail).value;
    var k := TokenOwner(s, token);
    ProfileEditKeepsStore(s, t, k);
    assert forall j :: 0 <= j < |s.users| ==> t.users[j].handleStr == s.users[j].handleStr;
    assert t.users[k].email == email;
    if EmailsDistinct(s.users) {
      forall i, j | 0 <= i < j < |t.users|
        ensures t.users[i].email != t.users[j].email
      {
        if i == k {
          assert t.users[j] == s.users[j];
        } else if j == k {
          assert t.users[i] == s.users[i];
        }
      }
      forall e | e != email
        ensures EmailTaken(t, e) <==> EmailTaken(s, e) && e != s.users[k].email
      {
        if EmailTaken(t, e) {
          var j :| 0 <= j < |t.users| && t.users[j].email == e;
          assert j != k && t.users[j] == s.users[j];
        }
        if EmailTaken(s, e) && e != s.users[k].email {
          var j :| 0 <= j < |s.users| && s.users[j].email == e;
          assert j != k && t.users[j] == s.users[j];
        }
      }
    }
  }
}
