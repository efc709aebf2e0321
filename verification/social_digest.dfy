/** The daily social digest (notifications/tasks/social.py): for every user who asked for it,
    one mail listing, per community, what happened there during the last day.

    The activity stream is an input (a sequence of entries, in query order), the clock is a
    parameter, the repository's `has_access` is the set of documents the user may read, and
    `validate_email` is the set of addresses it accepts. Rendering, the unsubscribe token and
    the mail transport are not modelled: a message is its recipient and its digests. */
module SocialDigest {
  import opened Wrappers

  /** The object of an activity: documents, wiki pages, threads, posts (with their thread),
      communities and anything else. */
  datatype Obj =
    | DocumentObj(id: nat)
    | WikiPageObj(id: nat)
    | ThreadObj(id: nat)
    | PostObj(id: nat, thread: nat)
    | CommunityObj(id: nat)
    | OtherObj(id: nat)

  datatype Activity = Activity(verb: string, actor: nat, obj: Obj, happenedAt: int, target: Option<Obj>)

  /** `CommunityDigest`: the seven lists of one community. */
  datatype Digest = Digest(
    community: nat,
    newMembers: seq<nat>,
    newDocuments: seq<Obj>,
    updatedDocuments: seq<Obj>,
    newConversations: seq<Obj>,
    updatedConversations: seq<Obj>,
    newWikiPages: seq<Obj>,
    updatedWikiPages: seq<Obj>)

  function NewDigest(community: nat): Digest {
    Digest(community, [], [], [], [], [], [], [])
  }

  /** The number of entries of a digest, over its seven lists. */
  function Size(d: Digest): nat {
    |d.newMembers| + |d.newDocuments| + |d.updatedDocuments| + |d.newConversations|
    + |d.updatedConversations| + |d.newWikiPages| + |d.updatedWikiPages|
  }

  /** `is_empty`: all seven lists are empty, that is the digest has no entry. */
  function IsEmpty(d: Digest): (r: bool)
    ensures r <==> Size(d) == 0
  {
    d.newMembers == [] && d.newDocuments == [] && d.updatedDocuments == []
    && d.newConversations == [] && d.updatedConversations == []
    && d.newWikiPages == [] && d.updatedWikiPages == []
  }

  /** Whether the user may read a document (`repository.has_access`). */
  predicate Readable(o: Obj, readable: set<nat>) {
    o.DocumentObj? && o.id in readable
  }

  /** `update_from_activity`. A join adds the actor to the new members. A post adds a
      readable document, a wiki page or a thread to the matching new list, and the thread
      of a post to the updated conversations. An update adds a readable document or a wiki
      page to the matching updated list unless it is already among the new ones. Anything
      else leaves the digest as it is. */
  function Update(d: Digest, a: Activity, readable: set<nat>): (r: Digest)
    ensures r.community == d.community
    ensures Size(r) <= Size(d) + 1
  {
    if a.verb == "join" then d.(newMembers := d.newMembers + [a.actor])
    else if a.verb == "post" then
      match a.obj
      case DocumentObj(_) =>
        if Readable(a.obj, readable) then d.(newDocuments := d.newDocuments + [a.obj]) else d
      case WikiPageObj(_) => d.(newWikiPages := d.newWikiPages + [a.obj])
      case ThreadObj(_) => d.(newConversations := d.newConversations + [a.obj])
      case PostObj(_, thread) => d.(updatedConversations := d.updatedConversations + [ThreadObj(thread)])
      case _ => d
    else if a.verb == "update" then
      match a.obj
      case DocumentObj(_) =>
        if !Readable(a.obj, readable) || a.obj in d.newDocuments then d
        else d.(updatedDocuments := d.updatedDocuments + [a.obj])
      case WikiPageObj(_) =>
        if a.obj in d.newWikiPages then d
        else d.(updatedWikiPages := d.updatedWikiPages + [a.obj])
      case _ => d
    else d
  }

  /** Whether an activity can put something into a digest, whatever is in it already. */
  predicate Reportable(a: Activity, readable: set<nat>) {
    a.verb == "join"
    || (a.verb == "post" && (Readable(a.obj, readable) || a.obj.WikiPageObj? || a.obj.ThreadObj? || a.obj.PostObj?))
    || (a.verb == "update" && (Readable(a.obj, readable) || a.obj.WikiPageObj?))
  }

  /** An activity adds nothing unless it is reportable; on an empty digest a reportable
      one always adds its entry. Entries are only ever appended. */
  lemma UpdateEntries(d: Digest, a: Activity, readable: set<nat>)
    ensures !Reportable(a, readable) ==> Update(d, a, readable) == d
    ensures Reportable(a, readable) && IsEmpty(d) ==> Size(Update(d, a, readable)) == 1
    ensures var r := Update(d, a, readable);
            d.newMembers <= r.newMembers && d.newDocuments <= r.newDocuments
            && d.updatedDocuments <= r.updatedDocuments && d.newConversations <= r.newConversations
            && d.updatedConversations <= r.updatedConversations && d.newWikiPages <= r.newWikiPages
            && d.updatedWikiPages <= r.updatedWikiPages
  {
  }

  /** Posting a document or a wiki page and then updating it lists it once, as new: the
      update changes nothing. */
  lemma PostThenUpdate(d: Digest, o: Obj, actor: nat, actor2: nat, t1: int, t2: int, target: Option<Obj>,
                       readable: set<nat>)
    requires Readable(o, readable) || o.WikiPageObj?
    ensures var posted := Update(d, Activity("post", actor, o, t1, target), readable);
            Update(posted, Activity("update", actor2, o, t2, target), readable) == posted
  {
  }

  /** The digest of a sequence of activities, applied in order. */
  function Collect(d: Digest, acts: seq<Activity>, readable: set<nat>): (r: Digest)
    ensures r.community == d.community
    decreases |acts|
  {
    if |acts| == 0 then d
    else Collect(Update(d, acts[0], readable), acts[1..], readable)
  }

  /** A digest grows by at most one entry per activity. */
  lemma {:induction false} CollectSize(d: Digest, acts: seq<Activity>, readable: set<nat>)
    ensures Size(Collect(d, acts, readable)) <= Size(d) + |acts|
    decreases |acts|
  {
    if |acts| > 0 {
      CollectSize(Update(d, acts[0], readable), acts[1..], readable);
    }
  }

  /** Entries, once in, stay in. */
  lemma {:induction false} CollectKeepsEntries(d: Digest, acts: seq<Activity>, readable: set<nat>)
    ensures Size(Collect(d, acts, readable)) >= Size(d)
    decreases |acts|
  {
    if |acts| > 0 {
      UpdateEntries(d, acts[0], readable);
      var d1 := Update(d, acts[0], readable);
      PrefixSizes(d, d1);
      CollectKeepsEntries(d1, acts[1..], readable);
    }
  }

  lemma PrefixSizes(d: Digest, e: Digest)
    requires d.newMembers <= e.newMembers && d.newDocuments <= e.newDocuments
    requires d.updatedDocuments <= e.updatedDocuments && d.newConversations <= e.newConversations
    requires d.updatedConversations <= e.updatedConversations && d.newWikiPages <= e.newWikiPages
    requires d.updatedWikiPages <= e.updatedWikiPages
    ensures Size(d) <= Size(e)
  {
  }

  /** The digest of a community stays empty exactly when none of its activities is
      reportable. */
  lemma {:induction false} CollectEmpty(d: Digest, acts: seq<Activity>, readable: set<nat>)
    requires IsEmpty(d)
    ensures IsEmpty(Collect(d, acts, readable)) <==> forall i :: 0 <= i < |acts| ==> !Reportable(acts[i], readable)
    decreases |acts|
  {
    if |acts| > 0 {
      UpdateEntries(d, acts[0], readable);
      var d1 := Update(d, acts[0], readable);
      if Reportable(acts[0], readable) {
        CollectKeepsEntries(d1, acts[1..], readable);
      } else {
        CollectEmpty(d1, acts[1..], readable);
        assert forall i :: 1 <= i < |acts| ==> acts[i] == acts[1..][i - 1];
      }
    }
  }

  // ---------------------------------------------------------------------------
  // make_message and the daily task
  // ---------------------------------------------------------------------------

  const SecondsPerDay: int := 86400

  /** The activity query of `make_message`: entries of the last day whose target or object
      is the community. */
  predicate Selected(a: Activity, community: nat, now: int) {
    a.happenedAt > now - SecondsPerDay
    && (a.target == Some(CommunityObj(community)) || a.obj == CommunityObj(community))
  }

  function Select(entries: seq<Activity>, community: nat, now: int): (r: seq<Activity>)
    ensures forall i :: 0 <= i < |r| ==> Selected(r[i], community, now)
    ensures forall a :: a in r <==> a in entries && Selected(a, community, now)
  {
    if |entries| == 0 then []
    else (if Selected(entries[0], community, now) then [entries[0]] else []) + Select(entries[1..], community, now)
  }

  /** The digest of one community for the user. */
  function CommunityDigest(community: nat, entries: seq<Activity>, now: int, readable: set<nat>): (r: Digest)
    ensures r.community == community
  {
    Collect(NewDigest(community), Select(entries, community, now), readable)
  }

  /** The digests of the user's memberships, in order, without the empty ones; a membership
      without a community is skipped. */
  function Digests(memberships: seq<Option<nat>>, entries: seq<Activity>, now: int, readable: set<nat>)
    : (r: seq<Digest>)
    ensures forall i :: 0 <= i < |r| ==> !IsEmpty(r[i])
    ensures |r| <= |memberships|
  {
    if |memberships| == 0 then []
    else
      var rest := Digests(memberships[1..], entries, now, readable);
      match memberships[0]
      case None => rest
      case Some(c) =>
        var d := CommunityDigest(c, entries, now, readable);
        if IsEmpty(d) then rest else [d] + rest
  }

  /** Every community with something to report has its digest in the list. */
  lemma {:induction false} DigestsComplete(memberships: seq<Option<nat>>, entries: seq<Activity>, now: int,
                                           readable: set<nat>, c: nat)
    requires Some(c) in memberships
    requires !IsEmpty(CommunityDigest(c, entries, now, readable))
    ensures CommunityDigest(c, entries, now, readable) in Digests(memberships, entries, now, readable)
    decreases |memberships|
  {
    if memberships[0] != Some(c) {
      assert Some(c) in memberships[1..];
      DigestsComplete(memberships[1..], entries, now, readable, c);
    }
  }

  /** The digest list is empty exactly when no membership has a community with something
      to report. */
  lemma {:induction false} DigestsEmpty(memberships: seq<Option<nat>>, entries: seq<Activity>, now: int,
                                        readable: set<nat>)
    ensures Digests(memberships, entries, now, readable) == [] <==>
              forall i :: 0 <= i < |memberships| && memberships[i].Some? ==>
                IsEmpty(CommunityDigest(memberships[i].value, entries, now, readable))
    decreases |memberships|
  {
    if |memberships| > 0 {
      DigestsEmpty(memberships[1..], entries, now, readable);
      assert forall i :: 1 <= i < |memberships| ==> memberships[i] == memberships[1..][i - 1];
    }
  }

  /** A user as the daily task reads it. `dailyPref` is the stored preference, None when
      unset; `readable` stands for `has_access` on documents. */
  datatype User = User(id: nat, canLogin: bool, dailyPref: Option<bool>, email: string,
                       memberships: seq<Option<nat>>, readable: set<nat>)

  datatype Message = Message(recipients: seq<string>, digests: seq<Digest>)

  /** `make_message`: no message when no community has anything to report; otherwise one
      message to the user's address holding the non-empty digests. */
  function MakeMessage(u: User, entries: seq<Activity>, now: int): (r: Option<Message>)
    ensures r.None? <==> forall i :: 0 <= i < |u.memberships| && u.memberships[i].Some? ==>
                           IsEmpty(CommunityDigest(u.memberships[i].value, entries, now, u.readable))
    ensures r.Some? ==> r.value.recipients == [u.email] && |r.value.digests| > 0
                        && forall i :: 0 <= i < |r.value.digests| ==> !IsEmpty(r.value.digests[i])
  {
    var digests := Digests(u.memberships, entries, now, u.readable);
    DigestsEmpty(u.memberships, entries, now, u.readable);
    if digests == [] then None else Some(Message([u.email], digests))
  }

  /** `send_daily_social_digest_to`: the message sent, if any, and 1 exactly when one was. */
  function SendDigestTo(u: User, entries: seq<Activity>, now: int): (r: (nat, Option<Message>))
    ensures r.0 == 1 <==> r.1.Some?
    ensures r.0 <= 1
    ensures r.1 == MakeMessage(u, entries, now)
  {
    var m := MakeMessage(u, entries, now);
    if m.Some? then (1, m) else (0, None)
  }

  /** Whether the daily task mails the user: able to log in, with the daily preference set,
      and with an address `validate_email` accepts. */
  predicate Eligible(u: User, validEmails: set<string>) {
    u.canLogin && u.dailyPref.GetOr(false) && u.email in validEmails
  }

  /** `send_daily_social_digest`: the messages sent, in user order. */
  function SendDaily(users: seq<User>, entries: seq<Activity>, now: int, validEmails: set<string>)
    : (r: seq<Message>)
    ensures |r| <= |users|
  {
    if |users| == 0 then []
    else
      var u := users[0];
      var sent := if Eligible(u, validEmails) then SendDigestTo(u, entries, now).1 else None;
      (if sent.Some? then [sent.value] else []) + SendDaily(users[1..], entries, now, validEmails)
  }

  /** Every message goes to an eligible user and is that user's digest message; every
      eligible user with something to report gets one. */
  lemma {:induction false} SendDailyRecipients(users: seq<User>, entries: seq<Activity>, now: int,
                                               validEmails: set<string>)
    ensures forall m :: m in SendDaily(users, entries, now, validEmails) ==>
              exists i :: 0 <= i < |users| && Eligible(users[i], validEmails)
                          && MakeMessage(users[i], entries, now) == Some(m)
    ensures forall i :: 0 <= i < |users| && Eligible(users[i], validEmails)
                        && MakeMessage(users[i], entries, now).Some? ==>
              MakeMessage(users[i], entries, now).value in SendDaily(users, entries, now, validEmails)
    decreases |users|
  {
    if |users| > 0 {
      SendDailyRecipients(users[1..], entries, now, validEmails);
      assert forall i :: 1 <= i < |users| ==> users[i] == users[1..][i - 1];
      var rest := SendDaily(users[1..], entries, now, validEmails);
      forall m | m in SendDaily(users, entries, now, validEmails)
        ensures exists i :: 0 <= i < |users| && Eligible(users[i], validEmails)
                            && MakeMessage(users[i], entries, now) == Some(m)
      {
        if m !in rest {
          assert Eligible(users[0], validEmails) && MakeMessage(users[0], entries, now) == Some(m);
        } else {
          var j :| 0 <= j < |users[1..]| && Eligible(users[1..][j], validEmails)
                   && MakeMessage(users[1..][j], entries, now) == Some(m);
          assert users[j + 1] == users[1..][j];
        }
      }
    }
  }

  /** A user who cannot log in, has not asked for the digest or has an address
      `validate_email` rejects receives nothing, whatever happened in their communities. */
  lemma {:induction false} IneligibleSkipped(users: seq<User>, entries: seq<Activity>, now: int,
                                             validEmails: set<string>, k: nat)
    requires k < |users| && !Eligible(users[k], validEmails)
    ensures SendDaily(users, entries, now, validEmails)
         == SendDaily(users[..k] + users[k + 1..], entries, now, validEmails)
    decreases k
  {
    if k == 0 {
      assert users[..0] + users[1..] == users[1..];
    } else {
      IneligibleSkipped(users[1..], entries, now, validEmails, k - 1);
      var rest := users[..k] + users[k + 1..];
      assert rest[0] == users[0] && rest[1..] == users[1..][..k - 1] + users[1..][k..];
    }
  }
}
