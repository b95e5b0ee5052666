/** Direct messages: creation, listing, removal, details, leaving, and the
    newest-first paginated view of a DM's message log. */
module Dms {
  import opened DataStore
  import Users
  import Text

  datatype DmSummary = DmSummary(dmId: int, name: string)
  datatype DmDetails = DmDetails(name: string, members: seq<Profile>)
  datatype Page = Page(messages: seq<Message>, start: int, end: int)

  function Summary(d: Dm): DmSummary {
    DmSummary(d.dmId, d.name)
  }

  function SummaryName(e: DmSummary): string {
    e.name
  }

  // ---- creation ----

  /** Every listed uId is a registered user and none appears earlier in the list. */
  predicate ValidInvitees(s: Store, uIds: seq<int>) {
    && (forall i :: 0 <= i < |uIds| ==> UserExists(s, uIds[i]))
    && (forall i, j :: 0 <= j < i < |uIds| ==> uIds[j] != uIds[i])
  }

  /** The member records of the listed users, in list order. */
  function Invitees(s: Store, uIds: seq<int>): seq<Profile>
    requires forall i :: 0 <= i < |uIds| ==> UserExists(s, uIds[i])
  {
    seq(|uIds|, i requires 0 <= i < |uIds| => ProfileOf(s.users[UserIndex(s, uIds[i])]))
  }

  function Handles(ps: seq<Profile>): seq<string> {
    seq(|ps|, i requires 0 <= i < |ps| => ps[i].handleStr)
  }

  /** A DM's display name: the handles in UTF-16 code-unit order, joined by ", ". */
  function DmName(handles: seq<string>): (name: string)
    ensures exists sorted: seq<string> {:trigger Text.Join(sorted, ", ")} ::
              && name == Text.Join(sorted, ", ")
              && Text.SortedBy(sorted, Text.Identity)
              && multiset(sorted) == multiset(handles)
  {
    var sorted := Text.SortBy(handles, Text.Identity);
    assert Text.SortedBy(sorted, Text.Identity) && multiset(sorted) == multiset(handles);
    Text.Join(sorted, ", ")
  }

  /** The name depends only on which handles there are, not on the order
      the members were listed in. */
  lemma DmNameIgnoresOrder(h1: seq<string>, h2: seq<string>)
    requires multiset(h1) == multiset(h2)
    ensures DmName(h1) == DmName(h2)
  {
    var a :| DmName(h1) == Text.Join(a, ", ") && Text.SortedBy(a, Text.Identity) && multiset(a) == multiset(h1);
    var b :| DmName(h2) == Text.Join(b, ", ") && Text.SortedBy(b, Text.Identity) && multiset(b) == multiset(h2);
    Text.SortedUnique(a, b);
  }

  /** `dmCreateV1`. The new DM id and the clock reading come from
      generators outside this model. */
  function Create(s: Store, token: string, uIds: seq<int>, dmId: int, now: int): (r: Result<Step<int>>)
    requires StatsReady(s)
    ensures r.Ok? <==> TokenValid(s, token) && ValidInvitees(s, uIds)
    ensures r.Err? ==> r.error == Invalid
    ensures r.Ok? ==>
      var t := r.value.store;
      var owner := ProfileOf(s.users[TokenOwner(s, token)]);
      var members := Invitees(s, uIds) + [owner];
      && r.value.out == dmId
      && t.dms == s.dms + [Dm(dmId, DmName(Handles(members)), owner, members, [])]
      && t.users == s.users && t.channels == s.channels
      && Users.UsersGrown(s.userStats, t.userStats, DmsJoined, [owner.uId] + uIds, 1, now)
      && Users.WorkspaceGrown(s.workspaceStats, t.workspaceStats, DmsExist, 1, now)
      && StatsReady(t)
    // A creator who also lists themself is counted twice in their own series.
    ensures r.Ok? && CallerId(s, token) in uIds ==>
      |r.value.store.userStats[CallerId(s, token)].dmsJoined| == |s.userStats[CallerId(s, token)].dmsJoined| + 2
  {
    if !TokenValid(s, token) || !ValidInvitees(s, uIds) then Err(Invalid)
    else
      var creator := s.users[TokenOwner(s, token)];
      var owner := ProfileOf(creator);
      var members := Invitees(s, uIds) + [owner];
      var s1 := s.(dms := s.dms + [Dm(dmId, DmName(Handles(members)), owner, members, [])]);
      assert StatsReady(s1);
      var s2 := Users.StatTracker(s1, Some(DmsJoined), creator.uId, 1, Some(DmsExist), now);
      assert s2.userStats.Keys == s.userStats.Keys;
      assert forall i :: 0 <= i < |uIds| ==> uIds[i] in s2.userStats by {
        forall i | 0 <= i < |uIds|
          ensures uIds[i] in s2.userStats
        {
          var k := UserIndex(s, uIds[i]);
          assert s.users[k].uId in s.userStats;
        }
      }
      var s3 := Users.TrackEach(s2, uIds, DmsJoined, 1, now);
      assert s3.dms == s1.dms && s3.workspaceStats == s2.workspaceStats;
      Users.UsersGrownCompose(s.userStats, s2.userStats, s3.userStats, DmsJoined, [creator.uId], uIds, 1, now);
      if creator.uId in uIds then
        ListedTwiceGrowsTwice(s.userStats, s3.userStats, creator.uId, uIds, now);
        Ok(Step(s3, dmId))
      else Ok(Step(s3, dmId))
  }

  /** A user listed once among the invitees and also credited as creator
      gets two points in a series grown for `[creator] + invitees`. */
  lemma {:induction false} ListedTwiceGrowsTwice(before: map<int, UserStats>, after: map<int, UserStats>,
                                                 id: int, uIds: seq<int>, now: int)
    requires Users.UsersGrown(before, after, DmsJoined, [id] + uIds, 1, now)
    requires id in before
    requires forall i, j :: 0 <= j < i < |uIds| ==> uIds[j] != uIds[i]
    requires id in uIds
    ensures |after[id].dmsJoined| == |before[id].dmsJoined| + 2
  {
    var i :| 0 <= i < |uIds| && uIds[i] == id;
    assert uIds == uIds[..i] + [id] + uIds[i + 1..];
    CountConcat(uIds[..i] + [id], uIds[i + 1..], id);
    CountConcat(uIds[..i], [id], id);
    CountConcat([id], uIds, id);
    Users.CountSingle(id, id);
    var left, right := uIds[..i], uIds[i + 1..];
    forall j | 0 <= j < |left|
      ensures left[j] != id
    {
      assert left[j] == uIds[j];
    }
    forall j | 0 <= j < |right|
      ensures right[j] != id
    {
      assert right[j] == uIds[i + 1 + j];
    }
    NotInCount(left, id);
    NotInCount(right, id);
    assert before[id].Get(DmsJoined) == before[id].dmsJoined;
    assert after[id].Get(DmsJoined) == after[id].dmsJoined;
  }

  lemma NotInCount(xs: seq<int>, x: int)
    requires forall j :: 0 <= j < |xs| ==> xs[j] != x
    ensures Count(xs, x) == 0
  {
  }

  // ---- listing ----

  /** The DMs whose member list contains `uId`, in store order. */
  function MemberDms(dms: seq<Dm>, uId: int): (r: seq<DmSummary>)
    ensures forall e :: e in r <==> exists i :: 0 <= i < |dms| && IsMember(dms[i].members, uId) && e == Summary(dms[i])
  {
    if |dms| == 0 then []
    else
      var rest := MemberDms(dms[1..], uId);
      assert forall i :: 1 <= i < |dms| ==> dms[i] == dms[1..][i - 1];
      (if IsMember(dms[0].members, uId) then [Summary(dms[0])] else []) + rest
  }

  /** `dmListV1`: the caller's DMs, sorted by name. */
  function List(s: Store, token: string): (r: Result<seq<DmSummary>>)
    ensures r.Err? <==> !TokenValid(s, token)
    ensures r.Err? ==> r.error == Invalid
    ensures r.Ok? ==> Text.SortedBy(r.value, SummaryName)
    ensures r.Ok? ==> multiset(r.value) == multiset(MemberDms(s.dms, CallerId(s, token)))
    ensures r.Ok? ==> forall k {:trigger Text.WithKey(r.value, SummaryName, k)} ::
      Text.WithKey(r.value, SummaryName, k) == Text.WithKey(MemberDms(s.dms, CallerId(s, token)), SummaryName, k)
    ensures r.Ok? ==> forall e :: e in r.value <==>
      exists i :: 0 <= i < |s.dms| && IsMember(s.dms[i].members, CallerId(s, token)) && e == Summary(s.dms[i])
  {
    if !TokenValid(s, token) then Err(Invalid)
    else
      var mine := MemberDms(s.dms, CallerId(s, token));
      var sorted := Text.SortBy(mine, SummaryName);
      assert forall e :: e in sorted <==> e in mine by {
        forall e
          ensures e in sorted <==> e in mine
        {
          assert e in sorted <==> e in multiset(sorted);
          assert e in mine <==> e in multiset(mine);
        }
      }
      Ok(sorted)
  }

  // ---- removal, details, leaving ----

  predicate OwnsDm(s: Store, token: string, dmId: int) {
    TokenValid(s, token) && DmExists(s, dmId) && s.dms[DmIndex(s, dmId)].owner.uId == CallerId(s, token)
  }

  /** `dmRemoveV1`: only the owner may remove; the member list is emptied
      while the DM and its log stay, and only the owner's count drops. */
  function Remove(s: Store, token: string, dmId: int, now: int): (r: Result<Store>)
    requires StatsReady(s)
    ensures r.Ok? <==> OwnsDm(s, token, dmId)
    ensures r.Err? ==> r.error == Invalid
    ensures r.Ok? ==>
      var t := r.value;
      var i := DmIndex(s, dmId);
      && |t.dms| == |s.dms|
      && t.dms[i] == s.dms[i].(members := [])
      && (forall j :: 0 <= j < |s.dms| && j != i ==> t.dms[j] == s.dms[j])
      && t.users == s.users && t.channels == s.channels
      && Users.UsersGrown(s.userStats, t.userStats, DmsJoined, [CallerId(s, token)], -1, now)
      && Users.WorkspaceGrown(s.workspaceStats, t.workspaceStats, DmsExist, -1, now)
      && StatsReady(t)
    // The removed DM's log still counts towards the message total.
    ensures r.Ok? ==> Users.TotalMsgs(r.value) == Users.TotalMsgs(s)
  {
    if !TokenValid(s, token) then Err(Invalid)
    else if !DmExists(s, dmId) then Err(Invalid)
    else
      var i := DmIndex(s, dmId);
      var caller := CallerId(s, token);
      if s.dms[i].owner.uId != caller then Err(Invalid)
      else
        var emptied := s.dms[i].(members := []);
        Users.SumOfUpdate(s.dms, i, emptied, Users.DmLogLength);
        assert Users.DmLogLength(emptied) == Users.DmLogLength(s.dms[i]);
        var s1 := s.(dms := s.dms[i := emptied]);
        assert StatsReady(s1) && Users.TotalMsgs(s1) == Users.TotalMsgs(s);
        // The decrement loop over the other members runs over the list just emptied.
        var t := Users.StatTracker(s1, Some(DmsJoined), caller, -1, Some(DmsExist), now);
        assert Users.TotalMsgs(t) == Users.TotalMsgs(s1);
        Ok(t)
  }

  /** `dmDetailsV1`. */
  function Details(s: Store, token: string, dmId: int): (r: Result<DmDetails>)
    ensures !TokenValid(s, token) ==> r == Err(Forbidden)
    ensures TokenValid(s, token) && !DmExists(s, dmId) ==> r == Err(BadRequest)
    ensures TokenValid(s, token) && DmExists(s, dmId) && !IsDmMember(s, CallerId(s, token), dmId) ==> r == Err(Forbidden)
    ensures TokenValid(s, token) && DmExists(s, dmId) && IsDmMember(s, CallerId(s, token), dmId) ==> r.Ok?
    ensures r.Ok? ==>
      && TokenValid(s, token) && DmExists(s, dmId) && IsDmMember(s, CallerId(s, token), dmId)
      && r.value == DmDetails(s.dms[DmIndex(s, dmId)].name, s.dms[DmIndex(s, dmId)].members)
  {
    if !TokenValid(s, token) then Err(Forbidden)
    else if DmExists(s, dmId) && IsDmMember(s, CallerId(s, token), dmId) then
      var d := s.dms[DmIndex(s, dmId)];
      Ok(DmDetails(d.name, d.members))
    else if !DmExists(s, dmId) then Err(BadRequest)
    else Err(Forbidden)
  }

  predicate DmIdsUnique(s: Store) {
    forall i, j :: 0 <= i < j < |s.dms| ==> s.dms[i].dmId != s.dms[j].dmId
  }

  /** With distinct DM ids, a caller can read a DM's details exactly when
      the DM appears in the caller's DM list. */
  lemma DetailsAgreeWithList(s: Store, token: string, dmId: int)
    requires TokenValid(s, token)
    requires DmIdsUnique(s)
    ensures Details(s, token, dmId).Ok? <==> exists e :: e in List(s, token).value && e.dmId == dmId
  {
    var u := CallerId(s, token);
    var listed := List(s, token).value;
    ReadableIffListed(s, u, dmId, listed);
  }

  /** Any list holding exactly the summaries of `uId`'s DMs names `dmId`
      exactly when `uId` is a member of that DM. */
  lemma ReadableIffListed(s: Store, uId: int, dmId: int, listed: seq<DmSummary>)
    requires DmIdsUnique(s)
    requires forall e :: e in listed <==>
      exists i :: 0 <= i < |s.dms| && IsMember(s.dms[i].members, uId) && e == Summary(s.dms[i])
    ensures (DmExists(s, dmId) && IsDmMember(s, uId, dmId)) <==> exists e :: e in listed && e.dmId == dmId
  {
    if DmExists(s, dmId) && IsDmMember(s, uId, dmId) {
      var i := DmIndex(s, dmId);
      assert Summary(s.dms[i]) in listed;
    }
    if exists e :: e in listed && e.dmId == dmId {
      var e :| e in listed && e.dmId == dmId;
      var i :| 0 <= i < |s.dms| && IsMember(s.dms[i].members, uId) && e == Summary(s.dms[i]);
      assert DmExists(s, dmId);
      var k := DmIndex(s, dmId);
      assert k == i;
    }
  }

  function HasProfileUId(uId: int): Profile -> bool {
    (p: Profile) => p.uId == uId
  }

  /** The position `getFeatureMemberIndex` reports: the first entry for `uId`. */
  function MemberIndex(members: seq<Profile>, uId: int): (r: nat)
    requires IsMember(members, uId)
    ensures r < |members| && members[r].uId == uId
    ensures forall j :: 0 <= j < r ==> members[j].uId != uId
  {
    var f := FindFirst(members, HasProfileUId(uId));
    assert f.Some? by {
      var i :| 0 <= i < |members| && members[i].uId == uId;
      assert HasProfileUId(uId)(members[i]);
    }
    f.value
  }

  /** `dmLeaveV1`: removes the caller's entry and drops the caller's count,
      with no workspace point. */
  function Leave(s: Store, token: string, dmId: int, now: int): (r: Result<Store>)
    requires StatsReady(s)
    ensures !TokenValid(s, token) ==> r == Err(Forbidden)
    ensures TokenValid(s, token) && !DmExists(s, dmId) ==> r == Err(BadRequest)
    ensures TokenValid(s, token) && DmExists(s, dmId) && !IsDmMember(s, CallerId(s, token), dmId) ==> r == Err(Forbidden)
    ensures TokenValid(s, token) && DmExists(s, dmId) && IsDmMember(s, CallerId(s, token), dmId) ==> r.Ok?
    ensures r.Ok? ==>
      var t := r.value;
      var i := DmIndex(s, dmId);
      var ms := s.dms[i].members;
      var k := MemberIndex(ms, CallerId(s, token));
      && TokenValid(s, token) && DmExists(s, dmId) && IsDmMember(s, CallerId(s, token), dmId)
      && |t.dms| == |s.dms|
      && t.dms[i] == s.dms[i].(members := ms[..k] + ms[k + 1..])
      && (forall j :: 0 <= j < |s.dms| && j != i ==> t.dms[j] == s.dms[j])
      && t.users == s.users && t.channels == s.channels
      && Users.UsersGrown(s.userStats, t.userStats, DmsJoined, [CallerId(s, token)], -1, now)
      && t.workspaceStats == s.workspaceStats
      && StatsReady(t)
    // A caller listed once is no longer a member, and the other members stay.
    ensures r.Ok? && ListedOnce(s.dms[DmIndex(s, dmId)].members, CallerId(s, token)) ==>
      var t := r.value;
      && DmExists(t, dmId) && DmIndex(t, dmId) == DmIndex(s, dmId)
      && !IsDmMember(t, CallerId(s, token), dmId)
      && Stayed(s.dms[DmIndex(s, dmId)].members, t.dms[DmIndex(t, dmId)].members, CallerId(s, token))
  {
    if !TokenValid(s, token) then Err(Forbidden)
    else
      var user := CallerId(s, token);
      if DmExists(s, dmId) && IsDmMember(s, user, dmId) then
        var i := DmIndex(s, dmId);
        var ms := s.dms[i].members;
        var k := MemberIndex(ms, user);
        var s1 := s.(dms := s.dms[i := s.dms[i].(members := ms[..k] + ms[k + 1..])]);
        assert StatsReady(s1);
        var t := Users.StatTracker(s1, Some(DmsJoined), user, -1, None, now);
        assert t.dms == s1.dms && t.workspaceStats == s.workspaceStats;
        LeftOnce(s, t, dmId, user);
        Ok(t)
      else if !DmExists(s, dmId) then Err(BadRequest)
      else Err(Forbidden)
  }

  /** Dropping the first entry of a user listed once leaves that user out
      and keeps every other entry. */
  lemma DropEntry(ms: seq<Profile>, u: int)
    requires IsMember(ms, u) && ListedOnce(ms, u)
    ensures var k := MemberIndex(ms, u);
            && !IsMember(ms[..k] + ms[k + 1..], u)
            && forall p :: p in ms && p.uId != u ==> p in ms[..k] + ms[k + 1..]
  {
    var k := MemberIndex(ms, u);
    var left := ms[..k] + ms[k + 1..];
    forall j | 0 <= j < |left|
      ensures left[j].uId != u
    {
      if j < k {
        assert left[j] == ms[j];
      } else {
        assert left[j] == ms[j + 1];
      }
    }
    forall p | p in ms && p.uId != u
      ensures p in left
    {
      var j :| 0 <= j < |ms| && ms[j] == p;
      if j < k {
        assert left[j] == p;
      } else {
        assert left[j - 1] == p;
      }
    }
  }

  /** Every member of `before` other than `u` is still in `after`. */
  predicate Stayed(before: seq<Profile>, after: seq<Profile>, u: int) {
    forall p :: p in before && p.uId != u ==> p in after
  }

  /** The DM-level effect of dropping the first entry of `u`, who is listed once. */
  lemma LeftOnce(s: Store, t: Store, dmId: int, u: int)
    requires DmExists(s, dmId) && IsDmMember(s, u, dmId)
    requires |t.dms| == |s.dms|
    requires forall j :: 0 <= j < |s.dms| && j != DmIndex(s, dmId) ==> t.dms[j] == s.dms[j]
    requires var ms := s.dms[DmIndex(s, dmId)].members;
             var k := MemberIndex(ms, u);
             t.dms[DmIndex(s, dmId)] == s.dms[DmIndex(s, dmId)].(members := ms[..k] + ms[k + 1..])
    ensures ListedOnce(s.dms[DmIndex(s, dmId)].members, u) ==>
      && DmExists(t, dmId) && DmIndex(t, dmId) == DmIndex(s, dmId)
      && !IsDmMember(t, u, dmId)
      && Stayed(s.dms[DmIndex(s, dmId)].members, t.dms[DmIndex(t, dmId)].members, u)
  {
    SameIdsSameIndex(s, t, dmId);
    if ListedOnce(s.dms[DmIndex(s, dmId)].members, u) {
      DropEntry(s.dms[DmIndex(s, dmId)].members, u);
    }
  }

  /** Changing DMs in place without touching their ids keeps every DM's index. */
  lemma SameIdsSameIndex(s: Store, t: Store, dmId: int)
    requires DmExists(s, dmId)
    requires |t.dms| == |s.dms|
    requires forall j :: 0 <= j < |s.dms| ==> t.dms[j].dmId == s.dms[j].dmId
    ensures DmExists(t, dmId) && DmIndex(t, dmId) == DmIndex(s, dmId)
  {
  }

  /** `uId` has at most one entry in `members`. */
  predicate ListedOnce(members: seq<Profile>, uId: int) {
    forall i, j :: 0 <= i < j < |members| && members[i].uId == uId ==> members[j].uId != uId
  }

  // ---- paginated messages ----

  const PageSize: nat := 50

  /** A message as a page shows it: reacts emptied and `pinned` false. */
  function Shown(m: Message): Message {
    m.(reacts := [], pinned := false)
  }

  /** The whole log, newest first. */
  function NewestFirst(log: seq<Message>): (r: seq<Message>)
    ensures |r| == |log|
    ensures forall i :: 0 <= i < |log| ==> r[i] == Shown(log[|log| - 1 - i])
  {
    if |log| == 0 then []
    else [Shown(log[|log| - 1])] + NewestFirst(log[..|log| - 1])
  }

  function Min(a: int, b: int): int {
    if a <= b then a else b
  }

  /** The window of at most 50 messages that starts `start` places from the newest. */
  function PageOf(log: seq<Message>, start: nat): (r: seq<Message>)
    requires start <= |log|
    ensures |r| == Min(PageSize, |log| - start)
    ensures forall i :: 0 <= i < |r| ==> r[i] == Shown(log[|log| - 1 - (start + i)])
  {
    NewestFirst(log)[start..start + Min(PageSize, |log| - start)]
  }

  /** The `end` sentinel: the next start if a full page was returned and
      the log does not end exactly there, else -1. */
  function EndOf(n: nat, start: nat, count: nat): int {
    if count == PageSize && start + PageSize != n then start + PageSize else -1
  }

  /** `end` is -1 exactly when no message is left after the page. */
  lemma EndMarksMore(n: nat, start: nat)
    requires start < n
    ensures EndOf(n, start, Min(PageSize, n - start)) != -1 <==> start + PageSize < n
    ensures EndOf(n, start, Min(PageSize, n - start)) != -1 ==> EndOf(n, start, Min(PageSize, n - start)) == start + PageSize
  {
  }

  /** The collecting loop of `dmMessagesV1`. */
  method CollectPage(log: seq<Message>, start: nat) returns (page: seq<Message>, end: int)
    requires start < |log|
    ensures |page| == Min(PageSize, |log| - start)
    ensures forall i :: 0 <= i < |page| ==> page[i] == Shown(log[|log| - 1 - (start + i)])
    ensures end == EndOf(|log|, start, |page|)
  {
    var n := |log|;
    page := [];
    var i := 0;
    while start + i < n && i < 50
      invariant 0 <= i <= 50 && start + i <= n
      invariant |page| == i
      invariant forall j :: 0 <= j < i ==> page[j] == Shown(log[n - (start + j) - 1])
    {
      var m := log[n - (start + i) - 1];
      page := page + [Message(m.messageId, m.uId, m.body, m.timeSent, [], false)];
      i := i + 1;
    }
    end := if i == 50 && start + 50 != n then start + 50 else -1;
  }

  /** `dmMessagesV1`. `start` is a natural number here. */
  function Messages(s: Store, token: string, dmId: int, start: nat): (r: Result<Page>)
    ensures !TokenValid(s, token) ==> r == Err(Forbidden)
    ensures TokenValid(s, token) && !DmExists(s, dmId) ==> r == Err(BadRequest)
    ensures TokenValid(s, token) && DmExists(s, dmId) && !IsDmMember(s, CallerId(s, token), dmId) ==> r == Err(Forbidden)
    ensures TokenValid(s, token) && DmExists(s, dmId) && IsDmMember(s, CallerId(s, token), dmId) ==>
      var log := s.dms[DmIndex(s, dmId)].messages;
      && (start < |log| ==> r == Ok(Page(PageOf(log, start), start, EndOf(|log|, start, |PageOf(log, start)|))))
      && (|log| == 0 && start == 0 ==> r == Ok(Page([], 0, -1)))
      && (start >= |log| && !(|log| == 0 && start == 0) ==> r == Err(BadRequest))
  {
    if !TokenValid(s, token) then Err(Forbidden)
    else if !DmExists(s, dmId) then Err(BadRequest)
    else
      var user := CallerId(s, token);
      var log := s.dms[DmIndex(s, dmId)].messages;
      if IsDmMember(s, user, dmId) && |log| > start then
        var page := PageOf(log, start);
        Ok(Page(page, start, EndOf(|log|, start, |page|)))
      else if !IsDmMember(s, user, dmId) then Err(Forbidden)
      else if |log| == 0 && start == 0 then Ok(Page([], 0, -1))
      else Err(BadRequest)
  }

  /** Following `end` from `start` until it is -1, concatenating the pages. */
  function PagesFrom(log: seq<Message>, start: nat): seq<Message>
    requires start < |log|
    decreases |log| - start
  {
    var page := PageOf(log, start);
    var end := EndOf(|log|, start, |page|);
    EndMarksMore(|log|, start);
    if end == -1 then page else page + PagesFrom(log, end)
  }

  /** Walking the pages from `start` yields the rest of the newest-first log,
      each message exactly once. */
  lemma {:induction false} PagesCoverLog(log: seq<Message>, start: nat)
    requires start < |log|
    ensures PagesFrom(log, start) == NewestFirst(log)[start..]
    decreases |log| - start
  {
    var page := PageOf(log, start);
    var end := EndOf(|log|, start, |page|);
    EndMarksMore(|log|, start);
    var all := NewestFirst(log);
    if end == -1 {
      assert page == all[start..];
    } else {
      PagesCoverLog(log, end);
      assert all[start..] == all[start..end] + all[end..];
    }
  }

  /** The 124-message case: two full pages, then 24 messages with end -1. */
  lemma ThreePagesOf124(log: seq<Message>)
    requires |log| == 124
    ensures |PageOf(log, 0)| == 50 && EndOf(124, 0, 50) == 50
    ensures |PageOf(log, 50)| == 50 && EndOf(124, 50, 50) == 100
    ensures |PageOf(log, 100)| == 24 && EndOf(124, 100, 24) == -1
    ensures PageOf(log, 0) + PageOf(log, 50) + PageOf(log, 100) == NewestFirst(log)
  {
    PagesCoverLog(log, 0);
    PagesCoverLog(log, 50);
  }
}
