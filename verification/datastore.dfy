/** The workspace store: users, channels, DMs and the two families of
    statistics series, with the lookups every operation shares.

    The store is one immutable value; every operation takes a store and
    returns the store it leaves behind, or an error and no store at all,
    which is how "the store is unchanged on failure" reads here. */
module DataStore {

  datatype Option<T> = None | Some(value: T)

  /** The three ways an operation fails: an `{ error }` return value,
      an HTTP 400 and an HTTP 403. */
  datatype Error = Invalid | BadRequest | Forbidden

  datatype Result<T> = Ok(value: T) | Err(error: Error)

  /** The store an operation leaves behind, together with what it returns. */
  datatype Step<P> = Step(store: Store, out: P)

  /** One `{ numX, timeStamp }` record of a statistics series. */
  datatype Point = Point(count: int, timeStamp: int)

  /** The per-user series and the workspace series, by key. */
  datatype UserSeries = ChannelsJoined | DmsJoined | MessagesSent
  datatype WorkspaceSeries = ChannelsExist | DmsExist | MessagesExist

  datatype UserStats = UserStats(
    channelsJoined: seq<Point>,
    dmsJoined: seq<Point>,
    messagesSent: seq<Point>,
    involvementRate: real)
  {
    function Get(k: UserSeries): seq<Point> {
      match k
      case ChannelsJoined => channelsJoined
      case DmsJoined => dmsJoined
      case MessagesSent => messagesSent
    }

    /** This record with series `k` replaced by `pts` and nothing else changed. */
    function With(k: UserSeries, pts: seq<Point>): (r: UserStats)
      ensures r.Get(k) == pts
      ensures r.involvementRate == involvementRate
      ensures forall k' :: k' != k ==> r.Get(k') == Get(k')
      ensures pts == Get(k) ==> r == this
    {
      match k
      case ChannelsJoined => this.(channelsJoined := pts)
      case DmsJoined => this.(dmsJoined := pts)
      case MessagesSent => this.(messagesSent := pts)
    }
  }

  datatype WorkspaceStats = WorkspaceStats(
    channelsExist: seq<Point>,
    dmsExist: seq<Point>,
    messagesExist: seq<Point>,
    utilizationRate: real)
  {
    function Get(k: WorkspaceSeries): seq<Point> {
      match k
      case ChannelsExist => channelsExist
      case DmsExist => dmsExist
      case MessagesExist => messagesExist
    }

    function With(k: WorkspaceSeries, pts: seq<Point>): (r: WorkspaceStats)
      ensures r.Get(k) == pts
      ensures r.utilizationRate == utilizationRate
      ensures forall k' :: k' != k ==> r.Get(k') == Get(k')
      ensures pts == Get(k) ==> r == this
    {
      match k
      case ChannelsExist => this.(channelsExist := pts)
      case DmsExist => this.(dmsExist := pts)
      case MessagesExist => this.(messagesExist := pts)
    }
  }

  datatype User = User(
    uId: int,
    email: string,
    password: string,
    nameFirst: string,
    nameLast: string,
    handleStr: string,
    globalPermissionId: int,
    tokens: seq<string>)

  /** The public part of a user, copied into channel and DM member lists. */
  datatype Profile = Profile(uId: int, email: string, nameFirst: string, nameLast: string, handleStr: string)

  /** `reacts` holds react ids; no operation of this model adds one. */
  datatype Message = Message(messageId: int, uId: int, body: string, timeSent: int, reacts: seq<int>, pinned: bool)

  datatype Channel = Channel(
    cId: int,
    name: string,
    isPublic: bool,
    ownerMembers: seq<Profile>,
    allMembers: seq<Profile>,
    messages: seq<Message>)

  datatype Dm = Dm(dmId: int, name: string, owner: Profile, members: seq<Profile>, messages: seq<Message>)

  datatype Store = Store(
    users: seq<User>,
    channels: seq<Channel>,
    dms: seq<Dm>,
    userStats: map<int, UserStats>,
    workspaceStats: WorkspaceStats)

  function ProfileOf(u: User): Profile {
    Profile(u.uId, u.email, u.nameFirst, u.nameLast, u.handleStr)
  }

  /** The index of the first element satisfying `p`, as `Array.findIndex` finds it. */
  function FindFirst<T>(xs: seq<T>, p: T -> bool): (r: Option<nat>)
    ensures r.Some? ==> r.value < |xs| && p(xs[r.value])
    ensures r.Some? ==> forall j :: 0 <= j < r.value ==> !p(xs[j])
    ensures r.None? <==> forall j :: 0 <= j < |xs| ==> !p(xs[j])
  {
    if |xs| == 0 then None
    else if p(xs[0]) then Some(0)
    else match FindFirst(xs[1..], p)
      case None => None
      case Some(k) => Some(k + 1)
  }

  /** Number of occurrences of `x` in `xs`. */
  function Count(xs: seq<int>, x: int): nat {
    if |xs| == 0 then 0 else (if xs[0] == x then 1 else 0) + Count(xs[1..], x)
  }

  lemma {:induction false} CountConcat(xs: seq<int>, ys: seq<int>, x: int)
    ensures Count(xs + ys, x) == Count(xs, x) + Count(ys, x)
  {
    if |xs| == 0 {
      assert xs + ys == ys;
    } else {
      assert (xs + ys)[1..] == xs[1..] + ys;
      CountConcat(xs[1..], ys, x);
    }
  }

  // ---- users and tokens ----

  predicate TokenValid(s: Store, token: string) {
    exists i :: 0 <= i < |s.users| && token in s.users[i].tokens
  }

  function HasToken(token: string): User -> bool {
    (u: User) => token in u.tokens
  }

  /** The index of the first user holding `token`. */
  function TokenOwner(s: Store, token: string): (r: nat)
    requires TokenValid(s, token)
    ensures r < |s.users| && token in s.users[r].tokens
    ensures forall j :: 0 <= j < r ==> token !in s.users[j].tokens
  {
    var f := FindFirst(s.users, HasToken(token));
    assert f.Some? by {
      var i :| 0 <= i < |s.users| && token in s.users[i].tokens;
      assert HasToken(token)(s.users[i]);
    }
    f.value
  }

  /** The uId of the user holding `token`. */
  function CallerId(s: Store, token: string): int
    requires TokenValid(s, token)
  {
    s.users[TokenOwner(s, token)].uId
  }

  predicate UserExists(s: Store, uId: int) {
    exists i :: 0 <= i < |s.users| && s.users[i].uId == uId
  }

  function HasUId(uId: int): User -> bool {
    (u: User) => u.uId == uId
  }

  /** The index of the first user with id `uId`. */
  function UserIndex(s: Store, uId: int): (r: nat)
    requires UserExists(s, uId)
    ensures r < |s.users| && s.users[r].uId == uId
    ensures forall j :: 0 <= j < r ==> s.users[j].uId != uId
  {
    var f := FindFirst(s.users, HasUId(uId));
    assert f.Some? by {
      var i :| 0 <= i < |s.users| && s.users[i].uId == uId;
      assert HasUId(uId)(s.users[i]);
    }
    f.value
  }

  predicate IsMember(members: seq<Profile>, uId: int) {
    exists i :: 0 <= i < |members| && members[i].uId == uId
  }

  // ---- DMs ----

  predicate DmExists(s: Store, dmId: int) {
    exists i :: 0 <= i < |s.dms| && s.dms[i].dmId == dmId
  }

  function HasDmId(dmId: int): Dm -> bool {
    (d: Dm) => d.dmId == dmId
  }

  /** The index of the first DM with id `dmId`. */
  function DmIndex(s: Store, dmId: int): (r: nat)
    requires DmExists(s, dmId)
    ensures r < |s.dms| && s.dms[r].dmId == dmId
    ensures forall j :: 0 <= j < r ==> s.dms[j].dmId != dmId
  {
    var f := FindFirst(s.dms, HasDmId(dmId));
    assert f.Some? by {
      var i :| 0 <= i < |s.dms| && s.dms[i].dmId == dmId;
      assert HasDmId(dmId)(s.dms[i]);
    }
    f.value
  }

  /** Whether `uId` is in the member list of the DM `dmId` (its first occurrence). */
  predicate IsDmMember(s: Store, uId: int, dmId: int)
    requires DmExists(s, dmId)
  {
    IsMember(s.dms[DmIndex(s, dmId)].members, uId)
  }

  // ---- the statistics invariant ----

  predicate SeriesReady(st: UserStats) {
    |st.channelsJoined| > 0 && |st.dmsJoined| > 0 && |st.messagesSent| > 0
  }

  predicate WorkspaceReady(ws: WorkspaceStats) {
    |ws.channelsExist| > 0 && |ws.dmsExist| > 0 && |ws.messagesExist| > 0
  }

  /** What registration establishes and every operation relies on: each
      registered user has a stats record whose series are non-empty, the
      workspace series are seeded once a user exists, and no record is
      keyed by the "no user" sentinel -1. Reading the last point of an
      empty series is a crash in the source, so the statistics updates
      need this. */
  predicate StatsReady(s: Store) {
    && -1 !in s.userStats
    && (forall id :: id in s.userStats ==> SeriesReady(s.userStats[id]))
    && (forall i :: 0 <= i < |s.users| ==> s.users[i].uId in s.userStats)
    && (|s.users| > 0 ==> WorkspaceReady(s.workspaceStats))
  }
}
