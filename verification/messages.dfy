/** Sending messages to channels and DMs, and editing and removing them. */
module Messages {
  import opened DataStore
  import Users

  const MaxLength: nat := 1000

  predicate ValidBody(body: string) {
    1 <= |body| <= MaxLength
  }

  /** A freshly posted message: no reacts, not pinned. */
  function Posted(messageId: int, uId: int, body: string, now: int): Message {
    Message(messageId, uId, body, now, [], false)
  }

  // ---- counting copies of a message id ----

  function IdsOf(ms: seq<Message>): (r: seq<int>)
    ensures |r| == |ms| && forall k :: 0 <= k < |ms| ==> r[k] == ms[k].messageId
  {
    seq(|ms|, k requires 0 <= k < |ms| => ms[k].messageId)
  }

  predicate InLog(ms: seq<Message>, id: int) {
    exists k :: 0 <= k < |ms| && ms[k].messageId == id
  }

  function ChannelCopies(id: int): Channel -> nat {
    (c: Channel) => Count(IdsOf(c.messages), id)
  }

  function DmCopies(id: int): Dm -> nat {
    (d: Dm) => Count(IdsOf(d.messages), id)
  }

  /** How many messages in the store, channels and DMs together, carry `id`. */
  function Copies(s: Store, id: int): nat {
    Users.SumOf(s.channels, ChannelCopies(id)) + Users.SumOf(s.dms, DmCopies(id))
  }

  lemma {:induction false} CountZero(xs: seq<int>, x: int)
    ensures Count(xs, x) == 0 <==> forall j :: 0 <= j < |xs| ==> xs[j] != x
  {
    if |xs| > 0 {
      CountZero(xs[1..], x);
      assert forall j :: 1 <= j < |xs| ==> xs[j] == xs[1..][j - 1];
    }
  }

  /** Summing a pointwise sum of two measures. */
  lemma {:induction false} SumOfPointwise<A, B>(xs: seq<A>, ys: seq<B>, f: A -> nat, g: B -> nat, h: A -> nat)
    requires |xs| == |ys|
    requires forall i :: 0 <= i < |xs| ==> g(ys[i]) == f(xs[i]) + h(xs[i])
    ensures Users.SumOf(ys, g) == Users.SumOf(xs, f) + Users.SumOf(xs, h)
  {
    if |xs| > 0 {
      assert forall i :: 0 <= i < |xs[1..]| ==> xs[1..][i] == xs[i + 1] && ys[1..][i] == ys[i + 1];
      SumOfPointwise(xs[1..], ys[1..], f, g, h);
    }
  }

  function Zero<T>(): T -> nat {
    (x: T) => 0
  }

  lemma {:induction false} SumOfZeroMeasure<T>(xs: seq<T>)
    ensures Users.SumOf(xs, Zero<T>()) == 0
  {
    if |xs| > 0 {
      SumOfZeroMeasure(xs[1..]);
    }
  }

  /** A message id is nowhere in the store exactly when it has no copies. */
  lemma NoCopiesIffAbsent(s: Store, id: int)
    ensures Copies(s, id) == 0 <==> !Present(s, id)
  {
    Users.SumOfZero(s.channels, ChannelCopies(id));
    Users.SumOfZero(s.dms, DmCopies(id));
    forall c | 0 <= c < |s.channels|
      ensures ChannelCopies(id)(s.channels[c]) == 0 <==> !InLog(s.channels[c].messages, id)
    {
      CountZero(IdsOf(s.channels[c].messages), id);
    }
    forall d | 0 <= d < |s.dms|
      ensures DmCopies(id)(s.dms[d]) == 0 <==> !InLog(s.dms[d].messages, id)
    {
      CountZero(IdsOf(s.dms[d].messages), id);
    }
  }

  // ---- sending ----

  /** Some channel with id `channelId` lists `uId` among its members. */
  predicate CanPost(s: Store, uId: int, channelId: int) {
    exists i :: 0 <= i < |s.channels| && s.channels[i].cId == channelId && IsMember(s.channels[i].allMembers, uId)
  }

  /** Appends `m` to the log of every channel whose id is `channelId`. */
  function PostTo(cs: seq<Channel>, channelId: int, m: Message): seq<Channel> {
    seq(|cs|, i requires 0 <= i < |cs| =>
      if cs[i].cId == channelId then cs[i].(messages := cs[i].messages + [m]) else cs[i])
  }

  function IdMatches(channelId: int): Channel -> nat {
    (c: Channel) => if c.cId == channelId then 1 else 0
  }

  /** `messageSendV1`. The message id and the clock reading come from
      generators outside this model. */
  function Send(s: Store, token: string, channelId: int, body: string, messageId: int, now: int): (r: Result<Step<int>>)
    requires StatsReady(s)
    ensures r.Ok? <==> TokenValid(s, token) && CanPost(s, CallerId(s, token), channelId) && ValidBody(body)
    ensures r.Err? ==> r.error == Invalid
    ensures r.Ok? ==>
      var t := r.value.store;
      var uId := CallerId(s, token);
      && r.value.out == messageId
      && t.channels == PostTo(s.channels, channelId, Posted(messageId, uId, body, now))
      && t.users == s.users && t.dms == s.dms
      && Users.UsersGrown(s.userStats, t.userStats, MessagesSent, [uId], 1, now)
      && Users.WorkspaceGrown(s.workspaceStats, t.workspaceStats, MessagesExist, 1, now)
      && StatsReady(t)
    // One message per channel carrying the id (one, when channel ids are
    // distinct), and the new id gets exactly that many copies.
    ensures r.Ok? ==>
      var added := Users.SumOf(s.channels, IdMatches(channelId));
      && added > 0
      && Users.TotalMsgs(r.value.store) == Users.TotalMsgs(s) + added
      && Copies(r.value.store, messageId) == Copies(s, messageId) + added
  {
    if !TokenValid(s, token) then Err(Invalid)
    else
      var uId := CallerId(s, token);
      if !(CanPost(s, uId, channelId) && ValidBody(body)) then Err(Invalid)
      else
        var m := Posted(messageId, uId, body, now);
        PostToCounts(s.channels, channelId, m);
        assert Users.SumOf(s.channels, IdMatches(channelId)) > 0 by {
          var i :| 0 <= i < |s.channels| && s.channels[i].cId == channelId && IsMember(s.channels[i].allMembers, uId);
          Users.SumOfZero(s.channels, IdMatches(channelId));
          assert IdMatches(channelId)(s.channels[i]) == 1;
        }
        var s1 := s.(channels := PostTo(s.channels, channelId, m));
        assert StatsReady(s1);
        var t := Users.StatTracker(s1, Some(MessagesSent), uId, 1, Some(MessagesExist), now);
        assert t.dms == s1.dms && t.channels == s1.channels;
        Ok(Step(t, messageId))
  }

  /** Posting to every channel with a given id adds, per such channel, one
      message and one copy of the message's id. */
  lemma PostToCounts(cs: seq<Channel>, channelId: int, m: Message)
    ensures Users.SumOf(PostTo(cs, channelId, m), Users.ChannelLogLength)
            == Users.SumOf(cs, Users.ChannelLogLength) + Users.SumOf(cs, IdMatches(channelId))
    ensures Users.SumOf(PostTo(cs, channelId, m), ChannelCopies(m.messageId))
            == Users.SumOf(cs, ChannelCopies(m.messageId)) + Users.SumOf(cs, IdMatches(channelId))
  {
    var ps := PostTo(cs, channelId, m);
    var id := m.messageId;
    forall j | 0 <= j < |cs|
      ensures Users.ChannelLogLength(ps[j]) == Users.ChannelLogLength(cs[j]) + IdMatches(channelId)(cs[j])
      ensures ChannelCopies(id)(ps[j]) == ChannelCopies(id)(cs[j]) + IdMatches(channelId)(cs[j])
    {
      if cs[j].cId == channelId {
        var ms := cs[j].messages;
        assert IdsOf(ms + [m]) == IdsOf(ms) + [id];
        CountConcat(IdsOf(ms), [id], id);
        Users.CountSingle(id, id);
      }
    }
    SumOfPointwise(cs, ps, Users.ChannelLogLength, Users.ChannelLogLength, IdMatches(channelId));
    SumOfPointwise(cs, ps, ChannelCopies(id), ChannelCopies(id), IdMatches(channelId));
  }

  /** `messageSendDmV1`. */
  function SendDm(s: Store, token: string, dmId: int, body: string, messageId: int, now: int): (r: Result<Step<int>>)
    requires StatsReady(s)
    ensures r.Ok? <==> TokenValid(s, token) && DmExists(s, dmId) && ValidBody(body) && IsDmMember(s, CallerId(s, token), dmId)
    ensures r.Err? ==> r.error == Invalid
    ensures r.Ok? ==>
      var t := r.value.store;
      var uId := CallerId(s, token);
      var i := DmIndex(s, dmId);
      && r.value.out == messageId
      && t.dms == s.dms[i := s.dms[i].(messages := s.dms[i].messages + [Posted(messageId, uId, body, now)])]
      && t.users == s.users && t.channels == s.channels
      && Users.UsersGrown(s.userStats, t.userStats, MessagesSent, [uId], 1, now)
      && Users.WorkspaceGrown(s.workspaceStats, t.workspaceStats, MessagesExist, 1, now)
      && StatsReady(t)
    ensures r.Ok? ==> Users.TotalMsgs(r.value.store) == Users.TotalMsgs(s) + 1
    ensures r.Ok? ==> Copies(r.value.store, messageId) == Copies(s, messageId) + 1
  {
    if !TokenValid(s, token) || !DmExists(s, dmId) || !ValidBody(body) then Err(Invalid)
    else
      var uId := CallerId(s, token);
      if !IsDmMember(s, uId, dmId) then Err(Invalid)
      else
        var i := DmIndex(s, dmId);
        AppendToDm(s.dms, i, Posted(messageId, uId, body, now));
        var s1 := s.(dms := s.dms[i := s.dms[i].(messages := s.dms[i].messages + [Posted(messageId, uId, body, now)])]);
        assert StatsReady(s1);
        assert Users.TotalMsgs(s1) == Users.TotalMsgs(s) + 1;
        assert Copies(s1, messageId) == Copies(s, messageId) + 1;
        var t := Users.StatTracker(s1, Some(MessagesSent), uId, 1, Some(MessagesExist), now);
        assert t.dms == s1.dms && t.channels == s1.channels;
        Ok(Step(t, messageId))
  }

  /** Appending `m` to DM `i`'s log adds one message and one copy of its id. */
  lemma AppendToDm(dms: seq<Dm>, i: nat, m: Message)
    requires i < |dms|
    ensures var after := dms[i := dms[i].(messages := dms[i].messages + [m])];
            && Users.SumOf(after, Users.DmLogLength) == Users.SumOf(dms, Users.DmLogLength) + 1
            && Users.SumOf(after, DmCopies(m.messageId)) == Users.SumOf(dms, DmCopies(m.messageId)) + 1
  {
    var ms := dms[i].messages;
    var d := dms[i].(messages := ms + [m]);
    Users.SumOfUpdate(dms, i, d, Users.DmLogLength);
    Users.SumOfUpdate(dms, i, d, DmCopies(m.messageId));
    assert IdsOf(ms + [m]) == IdsOf(ms) + [m.messageId];
    CountConcat(IdsOf(ms), [m.messageId], m.messageId);
    Users.CountSingle(m.messageId, m.messageId);
  }

  // ---- locating, editing and removing ----

  /** The message id appears in some channel log or some DM log. */
  predicate Present(s: Store, id: int) {
    || (exists c :: 0 <= c < |s.channels| && InLog(s.channels[c].messages, id))
    || (exists d :: 0 <= d < |s.dms| && InLog(s.dms[d].messages, id))
  }

  predicate InSomeChannel(s: Store, id: int) {
    exists c :: 0 <= c < |s.channels| && InLog(s.channels[c].messages, id)
  }

  /** `uId` wrote the message, or owns the channel or DM holding it. */
  predicate CanModerate(s: Store, uId: int, id: int) {
    || (exists c, k :: 0 <= c < |s.channels| && 0 <= k < |s.channels[c].messages|
          && s.channels[c].messages[k].messageId == id
          && (IsMember(s.channels[c].ownerMembers, uId) || s.channels[c].messages[k].uId == uId))
    || (exists d, k :: 0 <= d < |s.dms| && 0 <= k < |s.dms[d].messages|
          && s.dms[d].messages[k].messageId == id
          && (s.dms[d].owner.uId == uId || s.dms[d].messages[k].uId == uId))
  }

  lemma ModeratedIsPresent(s: Store, uId: int, id: int)
    requires CanModerate(s, uId, id)
    ensures Present(s, id)
  {
    if exists c, k :: 0 <= c < |s.channels| && 0 <= k < |s.channels[c].messages|
         && s.channels[c].messages[k].messageId == id
         && (IsMember(s.channels[c].ownerMembers, uId) || s.channels[c].messages[k].uId == uId) {
      var c, k :| 0 <= c < |s.channels| && 0 <= k < |s.channels[c].messages|
         && s.channels[c].messages[k].messageId == id
         && (IsMember(s.channels[c].ownerMembers, uId) || s.channels[c].messages[k].uId == uId);
      assert InLog(s.channels[c].messages, id);
    } else {
      var d, k :| 0 <= d < |s.dms| && 0 <= k < |s.dms[d].messages|
         && s.dms[d].messages[k].messageId == id
         && (s.dms[d].owner.uId == uId || s.dms[d].messages[k].uId == uId);
      assert InLog(s.dms[d].messages, id);
    }
  }

  datatype Place = ChannelSlot(c: nat, k: nat) | DmSlot(d: nat, k: nat)

  function HasMessageId(id: int): Message -> bool {
    (m: Message) => m.messageId == id
  }

  function ChannelHas(id: int): Channel -> bool {
    (c: Channel) => InLog(c.messages, id)
  }

  function DmHas(id: int): Dm -> bool {
    (d: Dm) => InLog(d.messages, id)
  }

  /** `findIndex` on a log: the first message carrying `id`. */
  function FirstIndex(ms: seq<Message>, id: int): (k: nat)
    requires InLog(ms, id)
    ensures k < |ms| && ms[k].messageId == id
    ensures forall j :: 0 <= j < k ==> ms[j].messageId != id
  {
    var f := FindFirst(ms, HasMessageId(id));
    assert f.Some? by {
      var k :| 0 <= k < |ms| && ms[k].messageId == id;
      assert HasMessageId(id)(ms[k]);
    }
    f.value
  }

  /** Where the deleting loops act: the first channel holding the id, else
      the first DM holding it, at the first matching position. */
  function Find(s: Store, id: int): (p: Place)
    requires Present(s, id)
    ensures p.ChannelSlot? <==> InSomeChannel(s, id)
    ensures p.ChannelSlot? ==>
      && p.c < |s.channels| && p.k < |s.channels[p.c].messages|
      && s.channels[p.c].messages[p.k].messageId == id
      && (forall j :: 0 <= j < p.c ==> !InLog(s.channels[j].messages, id))
      && (forall j :: 0 <= j < p.k ==> s.channels[p.c].messages[j].messageId != id)
    ensures p.DmSlot? ==>
      && p.d < |s.dms| && p.k < |s.dms[p.d].messages|
      && s.dms[p.d].messages[p.k].messageId == id
      && (forall j :: 0 <= j < p.d ==> !InLog(s.dms[j].messages, id))
      && (forall j :: 0 <= j < p.k ==> s.dms[p.d].messages[j].messageId != id)
  {
    match FindFirst(s.channels, ChannelHas(id))
    case Some(c) =>
      assert InSomeChannel(s, id);
      ChannelSlot(c, FirstIndex(s.channels[c].messages, id))
    case None =>
      assert !InSomeChannel(s, id) by {
        forall c | 0 <= c < |s.channels|
          ensures !InLog(s.channels[c].messages, id)
        {
          assert !ChannelHas(id)(s.channels[c]);
        }
      }
      var f := FindFirst(s.dms, DmHas(id));
      assert f.Some? by {
        var d :| 0 <= d < |s.dms| && InLog(s.dms[d].messages, id);
        assert DmHas(id)(s.dms[d]);
      }
      DmSlot(f.value, FirstIndex(s.dms[f.value].messages, id))
  }

  /** `splice(k, 1)`. */
  function Drop(ms: seq<Message>, k: nat): (r: seq<Message>)
    requires k < |ms|
    ensures |r| == |ms| - 1
    ensures forall j :: 0 <= j < k ==> r[j] == ms[j]
    ensures forall j :: k <= j < |r| ==> r[j] == ms[j + 1]
  {
    ms[..k] + ms[k + 1..]
  }

  lemma DropCount(ms: seq<Message>, k: nat, id: int)
    requires k < |ms| && ms[k].messageId == id
    ensures Count(IdsOf(Drop(ms, k)), id) == Count(IdsOf(ms), id) - 1
  {
    var ids := IdsOf(ms);
    assert ids == ids[..k] + [id] + ids[k + 1..];
    assert IdsOf(Drop(ms, k)) == ids[..k] + ids[k + 1..];
    CountConcat(ids[..k] + [id], ids[k + 1..], id);
    CountConcat(ids[..k], [id], id);
    CountConcat(ids[..k], ids[k + 1..], id);
    Users.CountSingle(id, id);
  }

  /** Deletes the located message; a deletion from a channel records one
      fewer message in the workspace series, one from a DM records nothing. */
  function Delete(s: Store, id: int, now: int): (t: Store)
    requires StatsReady(s) && |s.users| > 0
    requires Present(s, id)
    ensures t.users == s.users && t.userStats == s.userStats
    ensures Find(s, id).ChannelSlot? ==>
      var p := Find(s, id);
      && t.channels == s.channels[p.c := s.channels[p.c].(messages := Drop(s.channels[p.c].messages, p.k))]
      && t.dms == s.dms
      && Users.WorkspaceGrown(s.workspaceStats, t.workspaceStats, MessagesExist, -1, now)
    ensures Find(s, id).DmSlot? ==>
      var p := Find(s, id);
      && t.dms == s.dms[p.d := s.dms[p.d].(messages := Drop(s.dms[p.d].messages, p.k))]
      && t.channels == s.channels
      && t.workspaceStats == s.workspaceStats
    ensures StatsReady(t)
  {
    match Find(s, id)
    case ChannelSlot(c, k) =>
      var s1 := s.(channels := s.channels[c := s.channels[c].(messages := Drop(s.channels[c].messages, k))]);
      Users.StatTracker(s1, None, -1, -1, Some(MessagesExist), now)
    case DmSlot(d, k) =>
      s.(dms := s.dms[d := s.dms[d].(messages := Drop(s.dms[d].messages, k))])
  }

  /** A deletion takes away exactly one message and one copy of its id. */
  lemma DeleteDropsOneCopy(s: Store, id: int, now: int)
    requires StatsReady(s) && |s.users| > 0 && Present(s, id)
    ensures Copies(Delete(s, id, now), id) == Copies(s, id) - 1
    ensures Users.TotalMsgs(Delete(s, id, now)) == Users.TotalMsgs(s) - 1
  {
    match Find(s, id)
    case ChannelSlot(c, k) =>
      var ch := s.channels[c].(messages := Drop(s.channels[c].messages, k));
      DropFromLog(s.channels, c, ch, k, id, ChannelLog, Users.ChannelLogLength, ChannelCopies(id));
    case DmSlot(d, k) =>
      var dm := s.dms[d].(messages := Drop(s.dms[d].messages, k));
      DropFromLog(s.dms, d, dm, k, id, DmLog, Users.DmLogLength, DmCopies(id));
  }

  /** Replaces the body of every message carrying `id`. */
  function RewriteLog(ms: seq<Message>, id: int, body: string): seq<Message> {
    seq(|ms|, k requires 0 <= k < |ms| => if ms[k].messageId == id then ms[k].(body := body) else ms[k])
  }

  /** The editing loops: every channel copy is rewritten; the DM logs are
      searched only when no channel holds the id. */
  function Rewrite(s: Store, id: int, body: string): Store
  {
    if InSomeChannel(s, id) then
      s.(channels := seq(|s.channels|, c requires 0 <= c < |s.channels| =>
                           s.channels[c].(messages := RewriteLog(s.channels[c].messages, id, body))))
    else
      s.(dms := seq(|s.dms|, d requires 0 <= d < |s.dms| =>
                      s.dms[d].(messages := RewriteLog(s.dms[d].messages, id, body))))
  }

  /** `messageEditV1`: a non-empty body replaces the text, an empty one deletes. */
  function Edit(s: Store, token: string, messageId: int, body: string, now: int): (r: Result<Store>)
    requires StatsReady(s)
    ensures r.Ok? <==> TokenValid(s, token) && CanModerate(s, CallerId(s, token), messageId) && |body| <= MaxLength
    ensures r.Err? ==> r.error == Invalid
    ensures r.Ok? ==> Present(s, messageId) && |s.users| > 0
    ensures r.Ok? && |body| > 0 ==> r.value == Rewrite(s, messageId, body)
    ensures r.Ok? && |body| == 0 ==> r.value == Delete(s, messageId, now)
  {
    if !TokenValid(s, token) then Err(Invalid)
    else
      var uId := CallerId(s, token);
      if !(CanModerate(s, uId, messageId) && |body| <= MaxLength) then Err(Invalid)
      else
        ModeratedIsPresent(s, uId, messageId);
        if |body| != 0 then Ok(Rewrite(s, messageId, body))
        else Ok(Delete(s, messageId, now))
  }

  /** `after` is `before` with the body of every message carrying `id`
      replaced, and every other message as it was. */
  predicate LogRewritten(before: seq<Message>, after: seq<Message>, id: int, body: string) {
    && |after| == |before|
    && forall k :: 0 <= k < |before| ==>
         after[k] == (if before[k].messageId == id then before[k].(body := body) else before[k])
  }

  /** Some copy of message `id`, in a channel log or a DM log, holds `body`. */
  predicate SomeCopyCarries(s: Store, id: int, body: string) {
    || (exists c, k :: 0 <= c < |s.channels| && 0 <= k < |s.channels[c].messages|
          && s.channels[c].messages[k].messageId == id && s.channels[c].messages[k].body == body)
    || (exists d, k :: 0 <= d < |s.dms| && 0 <= k < |s.dms[d].messages|
          && s.dms[d].messages[k].messageId == id && s.dms[d].messages[k].body == body)
  }

  /** A successful non-empty edit writes the new body into every copy in
      the searched family of logs (the channels when one holds the id, else
      the DMs), changes nothing else, and records no statistics. */
  lemma EditWritesBody(s: Store, token: string, id: int, body: string, now: int)
    requires StatsReady(s) && |body| > 0
    ensures var r := Edit(s, token, id, body, now);
      r.Ok? ==>
        var t := r.value;
        && t.users == s.users && t.userStats == s.userStats && t.workspaceStats == s.workspaceStats
        && SomeCopyCarries(t, id, body)
        && (InSomeChannel(s, id) ==>
              && t.dms == s.dms && |t.channels| == |s.channels|
              && forall c :: 0 <= c < |s.channels| ==>
                   && t.channels[c] == s.channels[c].(messages := t.channels[c].messages)
                   && LogRewritten(s.channels[c].messages, t.channels[c].messages, id, body))
        && (!InSomeChannel(s, id) ==>
              && t.channels == s.channels && |t.dms| == |s.dms|
              && forall d :: 0 <= d < |s.dms| ==>
                   && t.dms[d] == s.dms[d].(messages := t.dms[d].messages)
                   && LogRewritten(s.dms[d].messages, t.dms[d].messages, id, body))
  {
    if Edit(s, token, id, body, now).Ok? {
      if InSomeChannel(s, id) {
        RewriteInChannels(s, id, body);
      } else {
        RewriteInDms(s, id, body);
      }
    }
  }

  /** The channel side of a rewrite: every channel log is rewritten, the rest kept. */
  lemma RewriteInChannels(s: Store, id: int, body: string)
    requires InSomeChannel(s, id)
    ensures var t := Rewrite(s, id, body);
      && t.users == s.users && t.userStats == s.userStats && t.workspaceStats == s.workspaceStats
      && SomeCopyCarries(t, id, body)
      && t.dms == s.dms && |t.channels| == |s.channels|
      && forall c :: 0 <= c < |s.channels| ==>
           && t.channels[c] == s.channels[c].(messages := t.channels[c].messages)
           && LogRewritten(s.channels[c].messages, t.channels[c].messages, id, body)
  {
    var t := Rewrite(s, id, body);
    var c :| 0 <= c < |s.channels| && InLog(s.channels[c].messages, id);
    var k :| 0 <= k < |s.channels[c].messages| && s.channels[c].messages[k].messageId == id;
    assert t.channels[c].messages[k] == s.channels[c].messages[k].(body := body);
  }

  /** The DM side of a rewrite, used when no channel holds the id. */
  lemma RewriteInDms(s: Store, id: int, body: string)
    requires Present(s, id) && !InSomeChannel(s, id)
    ensures var t := Rewrite(s, id, body);
      && t.users == s.users && t.userStats == s.userStats && t.workspaceStats == s.workspaceStats
      && SomeCopyCarries(t, id, body)
      && t.channels == s.channels && |t.dms| == |s.dms|
      && forall d :: 0 <= d < |s.dms| ==>
           && t.dms[d] == s.dms[d].(messages := t.dms[d].messages)
           && LogRewritten(s.dms[d].messages, t.dms[d].messages, id, body)
  {
    var t := Rewrite(s, id, body);
    var d :| 0 <= d < |s.dms| && InLog(s.dms[d].messages, id);
    var k :| 0 <= k < |s.dms[d].messages| && s.dms[d].messages[k].messageId == id;
    assert t.dms[d].messages[k] == s.dms[d].messages[k].(body := body);
  }

  /** `messageRemoveV1`. */
  function Remove(s: Store, token: string, messageId: int, now: int): (r: Result<Store>)
    requires StatsReady(s)
    ensures r.Ok? <==> TokenValid(s, token) && CanModerate(s, CallerId(s, token), messageId)
    ensures r.Err? ==> r.error == Invalid
    ensures r.Ok? ==> Present(s, messageId) && |s.users| > 0 && r.value == Delete(s, messageId, now)
    ensures r.Ok? ==> Copies(r.value, messageId) == Copies(s, messageId) - 1
    ensures r.Ok? ==> Users.TotalMsgs(r.value) == Users.TotalMsgs(s) - 1
    ensures r.Ok? && Copies(s, messageId) == 1 ==> !Present(r.value, messageId)
  {
    if !TokenValid(s, token) then Err(Invalid)
    else
      var uId := CallerId(s, token);
      if !CanModerate(s, uId, messageId) then Err(Invalid)
      else
        ModeratedIsPresent(s, uId, messageId);
        var t := Delete(s, messageId, now);
        DeleteDropsOneCopy(s, messageId, now);
        NoCopiesIffAbsent(t, messageId);
        Ok(t)
  }

  /** Editing to the empty body is removing. */
  lemma EmptyEditIsRemove(s: Store, token: string, messageId: int, now: int)
    requires StatsReady(s)
    ensures Edit(s, token, messageId, "", now) == Remove(s, token, messageId, now)
  {
  }

  /** Dropping one message carrying `id` from log `i` of `xs`, for either
      kind of log, removes one message and one copy of `id`. */
  lemma DropFromLog<T>(xs: seq<T>, i: nat, x: T, k: nat, id: int, logOf: T -> seq<Message>,
                       len: T -> nat, copies: T -> nat)
    requires i < |xs| && k < |logOf(xs[i])| && logOf(xs[i])[k].messageId == id
    requires logOf(x) == Drop(logOf(xs[i]), k)
    requires forall y :: len(y) == |logOf(y)| && copies(y) == Count(IdsOf(logOf(y)), id)
    ensures Users.SumOf(xs[i := x], len) == Users.SumOf(xs, len) - 1
    ensures Users.SumOf(xs[i := x], copies) == Users.SumOf(xs, copies) - 1
  {
    Users.SumOfUpdate(xs, i, x, len);
    Users.SumOfUpdate(xs, i, x, copies);
    DropCount(logOf(xs[i]), k, id);
  }

  function ChannelLog(c: Channel): seq<Message> {
    c.messages
  }

  function DmLog(d: Dm): seq<Message> {
    d.messages
  }

  lemma {:induction false} RewriteLogKeepsIds(ms: seq<Message>, id: int, body: string)
    ensures IdsOf(RewriteLog(ms, id, body)) == IdsOf(ms)
    ensures RewriteLog(RewriteLog(ms, id, body), id, body) == RewriteLog(ms, id, body)
  {
    var r := RewriteLog(ms, id, body);
    assert forall k :: 0 <= k < |ms| ==> IdsOf(r)[k] == IdsOf(ms)[k];
  }

  /** A rewrite changes no message count. */
  lemma RewriteKeepsCounts(s: Store, id: int, body: string, t: Store)
    requires t == Rewrite(s, id, body)
    ensures Users.TotalMsgs(t) == Users.TotalMsgs(s)
    ensures forall x :: Copies(t, x) == Copies(s, x)
  {
    forall c | 0 <= c < |s.channels|
      ensures IdsOf(t.channels[c].messages) == IdsOf(s.channels[c].messages)
    {
      RewriteLogKeepsIds(s.channels[c].messages, id, body);
    }
    forall d | 0 <= d < |s.dms|
      ensures IdsOf(t.dms[d].messages) == IdsOf(s.dms[d].messages)
    {
      RewriteLogKeepsIds(s.dms[d].messages, id, body);
    }
    SumOfZeroMeasure(s.channels);
    SumOfZeroMeasure(s.dms);
    SumOfPointwise(s.channels, t.channels, Users.ChannelLogLength, Users.ChannelLogLength, Zero<Channel>());
    SumOfPointwise(s.dms, t.dms, Users.DmLogLength, Users.DmLogLength, Zero<Dm>());
    forall x
      ensures Copies(t, x) == Copies(s, x)
    {
      SumOfPointwise(s.channels, t.channels, ChannelCopies(x), ChannelCopies(x), Zero<Channel>());
      SumOfPointwise(s.dms, t.dms, DmCopies(x), DmCopies(x), Zero<Dm>());
    }
  }

  /** Rewriting twice with the same body is rewriting once. */
  lemma RewriteIdempotent(s: Store, id: int, body: string, t: Store)
    requires t == Rewrite(s, id, body)
    ensures Rewrite(t, id, body) == t
    ensures forall uId :: CanModerate(t, uId, id) <==> CanModerate(s, uId, id)
  {
    forall c | 0 <= c < |s.channels|
      ensures IdsOf(RewriteLog(s.channels[c].messages, id, body)) == IdsOf(s.channels[c].messages)
      ensures RewriteLog(t.channels[c].messages, id, body) == t.channels[c].messages
    {
      RewriteLogKeepsIds(s.channels[c].messages, id, body);
    }
    forall d | 0 <= d < |s.dms|
      ensures IdsOf(RewriteLog(s.dms[d].messages, id, body)) == IdsOf(s.dms[d].messages)
      ensures !InSomeChannel(s, id) ==> RewriteLog(t.dms[d].messages, id, body) == t.dms[d].messages
    {
      RewriteLogKeepsIds(s.dms[d].messages, id, body);
    }
    SameLogsShape(s, t, id, body);
    var u := Rewrite(t, id, body);
    if InSomeChannel(s, id) {
      assert u.channels == t.channels;
    } else {
      assert u.dms == t.dms;
    }
  }

  /** Editing changes no message count, and editing again with the same
      body changes nothing further. */
  lemma EditIsStable(s: Store, token: string, messageId: int, body: string, now: int, t: Store)
    requires StatsReady(s)
    requires |body| > 0
    requires Edit(s, token, messageId, body, now) == Ok(t)
    ensures Users.TotalMsgs(t) == Users.TotalMsgs(s)
    ensures forall x :: Copies(t, x) == Copies(s, x)
    ensures StatsReady(t)
    ensures Edit(t, token, messageId, body, now) == Ok(t)
  {
    RewriteKeepsCounts(s, messageId, body, t);
    RewriteIdempotent(s, messageId, body, t);
    assert CallerId(t, token) == CallerId(s, token);
  }

  /** Every message carrying `id` already has body `body`. */
  predicate CarriesBody(s: Store, id: int, body: string) {
    && (forall c, k :: 0 <= c < |s.channels| && 0 <= k < |s.channels[c].messages| ==>
          s.channels[c].messages[k].messageId == id ==> s.channels[c].messages[k].body == body)
    && (forall d, k :: 0 <= d < |s.dms| && 0 <= k < |s.dms[d].messages| ==>
          s.dms[d].messages[k].messageId == id ==> s.dms[d].messages[k].body == body)
  }

  /** Editing a message to the body it already has leaves the store as it was. */
  lemma EditToCurrentBodyChangesNothing(s: Store, token: string, messageId: int, body: string, now: int)
    requires StatsReady(s)
    requires |body| > 0
    requires Edit(s, token, messageId, body, now).Ok?
    requires CarriesBody(s, messageId, body)
    ensures Edit(s, token, messageId, body, now) == Ok(s)
  {
    var t := Rewrite(s, messageId, body);
    forall c | 0 <= c < |s.channels|
      ensures RewriteLog(s.channels[c].messages, messageId, body) == s.channels[c].messages
    {
    }
    forall d | 0 <= d < |s.dms|
      ensures RewriteLog(s.dms[d].messages, messageId, body) == s.dms[d].messages
    {
    }
    if InSomeChannel(s, messageId) {
      assert t.channels == s.channels;
    } else {
      assert t.dms == s.dms;
    }
  }

  /** A rewrite keeps every message id, author and owner list, so the same
      caller may still moderate the message. */
  lemma SameLogsShape(s: Store, t: Store, messageId: int, body: string)
    requires t == Rewrite(s, messageId, body)
    requires forall c :: 0 <= c < |s.channels| ==>
      IdsOf(RewriteLog(s.channels[c].messages, messageId, body)) == IdsOf(s.channels[c].messages)
    requires forall d :: 0 <= d < |s.dms| ==>
      IdsOf(RewriteLog(s.dms[d].messages, messageId, body)) == IdsOf(s.dms[d].messages)
    ensures forall uId :: CanModerate(t, uId, messageId) <==> CanModerate(s, uId, messageId)
    ensures InSomeChannel(t, messageId) <==> InSomeChannel(s, messageId)
    ensures Present(t, messageId) <==> Present(s, messageId)
  {
    assert forall c, k :: 0 <= c < |s.channels| && 0 <= k < |s.channels[c].messages| ==>
      t.channels[c].messages[k].messageId == s.channels[c].messages[k].messageId
      && t.channels[c].messages[k].uId == s.channels[c].messages[k].uId;
    assert forall d, k :: 0 <= d < |s.dms| && 0 <= k < |s.dms[d].messages| ==>
      t.dms[d].messages[k].messageId == s.dms[d].messages[k].messageId
      && t.dms[d].messages[k].uId == s.dms[d].messages[k].uId;
    assert forall c :: 0 <= c < |s.channels| ==> InLog(t.channels[c].messages, messageId) == InLog(s.channels[c].messages, messageId);
    assert forall d :: 0 <= d < |s.dms| ==> InLog(t.dms[d].messages, messageId) == InLog(s.dms[d].messages, messageId);
  }
}
