/** Channel creation and the two channel listings. */
module Channels {
  import opened DataStore
  import Users

  datatype ChannelSummary = ChannelSummary(channelId: int, name: string)

  function Summary(c: Channel): ChannelSummary {
    ChannelSummary(c.cId, c.name)
  }

  predicate ValidChannelName(name: string) {
    1 <= |name| <= 50
  }

  /** `channelsCreateV2`. The suffixed channel name, the channel id and the
      clock reading come from generators outside this model. */
  function Create(s: Store, token: string, name: string, isPublic: bool,
                  channelName: string, channelId: int, now: int): (r: Result<Step<int>>)
    requires StatsReady(s)
    ensures r.Ok? <==> TokenValid(s, token) && ValidChannelName(name)
    ensures r.Err? ==> r.error == Invalid
    ensures r.Ok? ==>
      var t := r.value.store;
      var creator := ProfileOf(s.users[TokenOwner(s, token)]);
      && r.value.out == channelId
      && t.channels == s.channels + [Channel(channelId, channelName, isPublic, [creator], [creator], [])]
      && t.users == s.users && t.dms == s.dms
      && Users.UsersGrown(s.userStats, t.userStats, ChannelsJoined, [creator.uId], 1, now)
      && Users.WorkspaceGrown(s.workspaceStats, t.workspaceStats, ChannelsExist, 1, now)
      && StatsReady(t)
  {
    if !ValidChannelName(name) || !TokenValid(s, token) then Err(Invalid)
    else
      var creator := s.users[TokenOwner(s, token)];
      var authData := ProfileOf(creator);
      var s1 := s.(channels := s.channels + [Channel(channelId, channelName, isPublic, [authData], [authData], [])]);
      Ok(Step(Users.StatTracker(s1, Some(ChannelsJoined), creator.uId, 1, Some(ChannelsExist), now), channelId))
  }

  /** How many entries of `members` carry `uId`. */
  function Occurrences(members: seq<Profile>, uId: int): (n: nat)
    ensures n > 0 <==> IsMember(members, uId)
  {
    if |members| == 0 then 0
    else
      var rest := Occurrences(members[1..], uId);
      assert IsMember(members[1..], uId) ==> IsMember(members, uId) by {
        if IsMember(members[1..], uId) {
          var i :| 0 <= i < |members[1..]| && members[1..][i].uId == uId;
          assert members[i + 1].uId == uId;
        }
      }
      assert IsMember(members, uId) && members[0].uId != uId ==> IsMember(members[1..], uId) by {
        if IsMember(members, uId) && members[0].uId != uId {
          var i :| 0 <= i < |members| && members[i].uId == uId;
          assert members[1..][i - 1].uId == uId;
        }
      }
      (if members[0].uId == uId then 1 else 0) + rest
  }

  /** The channels whose `allMembers` contain `uId`, in store order. */
  function Visible(cs: seq<Channel>, uId: int): (r: seq<ChannelSummary>)
    ensures forall e :: e in r <==> exists i :: 0 <= i < |cs| && IsMember(cs[i].allMembers, uId) && e == Summary(cs[i])
  {
    if |cs| == 0 then []
    else
      var rest := Visible(cs[1..], uId);
      assert forall i :: 1 <= i < |cs| ==> cs[i] == cs[1..][i - 1];
      (if IsMember(cs[0].allMembers, uId) then [Summary(cs[0])] else []) + rest
  }

  /** The nested loop of `channelsListV3`: one entry per matching member entry. */
  function ListFor(cs: seq<Channel>, uId: int): (r: seq<ChannelSummary>)
    ensures forall e :: e in r <==> e in Visible(cs, uId)
    ensures (forall i :: 0 <= i < |cs| ==> Occurrences(cs[i].allMembers, uId) <= 1) ==> r == Visible(cs, uId)
  {
    if |cs| == 0 then []
    else
      var n := Occurrences(cs[0].allMembers, uId);
      var rest := ListFor(cs[1..], uId);
      var head := seq(n, _ => Summary(cs[0]));
      assert Visible(cs, uId) == (if IsMember(cs[0].allMembers, uId) then [Summary(cs[0])] else []) + Visible(cs[1..], uId);
      assert forall e :: e in head <==> n > 0 && e == Summary(cs[0]) by {
        if n > 0 {
          assert head[0] == Summary(cs[0]);
        }
      }
      assert n <= 1 ==> head == if n == 0 then [] else [Summary(cs[0])];
      head + rest
  }

  function ListChannels(s: Store, token: string): (r: Result<seq<ChannelSummary>>)
    ensures r.Err? <==> !TokenValid(s, token)
    ensures r.Err? ==> r.error == Forbidden
    ensures r.Ok? ==> forall e :: e in r.value <==>
      exists i :: 0 <= i < |s.channels| && IsMember(s.channels[i].allMembers, CallerId(s, token)) && e == Summary(s.channels[i])
    ensures r.Ok? && (forall i :: 0 <= i < |s.channels| ==> Occurrences(s.channels[i].allMembers, CallerId(s, token)) <= 1)
            ==> r.value == Visible(s.channels, CallerId(s, token))
  {
    if !TokenValid(s, token) then Err(Forbidden)
    else Ok(ListFor(s.channels, CallerId(s, token)))
  }

  /** `channelsListallV3`: every channel, public or private, member or not. */
  function ListAllChannels(s: Store, token: string): (r: Result<seq<ChannelSummary>>)
    ensures r.Err? <==> !TokenValid(s, token)
    ensures r.Err? ==> r.error == Forbidden
    ensures r.Ok? ==> |r.value| == |s.channels|
    ensures r.Ok? ==> forall i :: 0 <= i < |s.channels| ==> r.value[i].channelId == s.channels[i].cId && r.value[i].name == s.channels[i].name
  {
    if !TokenValid(s, token) then Err(Forbidden)
    else Ok(seq(|s.channels|, i requires 0 <= i < |s.channels| => Summary(s.channels[i])))
  }

  /** What a user can list is a part of what everyone can list. */
  lemma ListIsPartOfListAll(s: Store, token: string)
    requires TokenValid(s, token)
    ensures forall e :: e in ListChannels(s, token).value ==> e in ListAllChannels(s, token).value
  {
    var all := ListAllChannels(s, token).value;
    forall e | e in ListChannels(s, token).value
      ensures e in all
    {
      var i :| 0 <= i < |s.channels| && IsMember(s.channels[i].allMembers, CallerId(s, token)) && e == Summary(s.channels[i]);
      assert all[i] == e;
    }
  }
}
