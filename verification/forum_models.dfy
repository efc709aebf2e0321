/** The forum's data model (forum/models.py): a thread, its posts, the `closed` flag kept in
    the thread's metadata, the guard that freezes a closed thread's posts, the listeners that
    keep a thread's name, its title and its posts' names in step, and the frequent posters.

    Entities are values. A post refers to its thread by id; setting an attribute returns the
    updated entity, and the SQLAlchemy "set" events that fire on the way are applied in the
    order the mapper runs them. */
module ForumModels {
  import opened Wrappers
  import opened Sorting

  /** The creator of an entity; it may be missing. */
  type Poster = Option<nat>

  datatype Post = Post(name: string, creator: Poster, createdAt: int, body: string, threadId: Option<nat>)

  /** `closedFlag` is the "closed" entry of the thread's "abilian.sbe.forum" metadata, when
      it has been stored. */
  datatype Thread = Thread(id: nat, name: string, title: string, creator: Poster,
                           closedFlag: Option<bool>, posts: seq<Post>)

  datatype ThreadClosedError = ThreadClosedError(threadId: nat)

  // ---------------------------------------------------------------------------
  // closed, create_post and the collection guard
  // ---------------------------------------------------------------------------

  /** `Thread.closed`: the stored flag, False when none was ever stored. */
  predicate Closed(t: Thread) {
    t.closedFlag.GetOr(false)
  }

  /** The `closed` setter stores the flag; nothing else of the thread changes. */
  function SetClosed(t: Thread, value: bool): (r: Thread)
    ensures Closed(r) == value
    ensures r.(closedFlag := t.closedFlag) == t
  {
    t.(closedFlag := Some(value))
  }

  /** A thread nobody ever closed is open. */
  lemma NewThreadOpen(t: Thread)
    requires t.closedFlag.None?
    ensures !Closed(t)
    ensures Closed(SetClosed(t, true)) && !Closed(SetClosed(SetClosed(t, true), false))
  {
  }

  /** What `_guard_closed_thread_collection` receives: a thread, or a post with the thread
      it belongs to (if any). */
  datatype GuardTarget = OnThread(thread: Thread) | OnPost(post: Post, postThread: Option<Thread>)

  /** The guard on appending, removing or replacing posts: a post without a thread passes;
      otherwise the change fails exactly when the thread is closed. */
  function Guard(target: GuardTarget): (r: Result<(), ThreadClosedError>)
    ensures target.OnPost? && target.postThread.None? ==> r.Success?
    ensures target.OnThread? ==> (r.Failure? <==> Closed(target.thread))
    ensures target.OnPost? && target.postThread.Some? ==> (r.Failure? <==> Closed(target.postThread.value))
    ensures r.Failure? ==> r.error.threadId == (if target.OnThread? then target.thread.id else target.postThread.value.id)
  {
    var t := if target.OnThread? then Some(target.thread) else target.postThread;
    if t.None? then Success(())
    else if Closed(t.value) then Failure(ThreadClosedError(t.value.id))
    else Success(())
  }

  /** Appending a post to the thread's posts, through the guard. */
  function AppendPost(t: Thread, p: Post): (r: Result<Thread, ThreadClosedError>)
    ensures r.Failure? <==> Closed(t)
    ensures r.Success? ==> r.value == t.(posts := t.posts + [p])
  {
    var _ :- Guard(OnThread(t));
    Success(t.(posts := t.posts + [p]))
  }

  /** Removing the post at index `i`, through the guard. */
  function RemovePost(t: Thread, i: nat): (r: Result<Thread, ThreadClosedError>)
    requires i < |t.posts|
    ensures r.Failure? <==> Closed(t)
    ensures r.Success? ==> |r.value.posts| == |t.posts| - 1
    ensures r.Success? ==> multiset(r.value.posts) + multiset{t.posts[i]} == multiset(t.posts)
  {
    var _ :- Guard(OnThread(t));
    assert t.posts == t.posts[..i] + [t.posts[i]] + t.posts[i + 1..];
    Success(t.(posts := t.posts[..i] + t.posts[i + 1..]))
  }

  /** Replacing the whole collection of posts, through the guard. */
  function ReplacePosts(t: Thread, ps: seq<Post>): (r: Result<Thread, ThreadClosedError>)
    ensures r.Failure? <==> Closed(t)
    ensures r.Success? ==> r.value == t.(posts := ps)
  {
    var _ :- Guard(OnThread(t));
    Success(t.(posts := ps))
  }

  /** `_thread_change_sync_name`: moving a post to another, existing thread gives it that
      thread's name; moving it to the same thread or to none leaves the name alone. */
  function PostSetThread(p: Post, newThread: Option<Thread>): (r: Post)
    ensures r.threadId == (if newThread.Some? then Some(newThread.value.id) else None)
    ensures newThread.Some? && p.threadId != Some(newThread.value.id) ==> r.name == newThread.value.name
    ensures newThread.None? || p.threadId == Some(newThread.value.id) ==> r.name == p.name
    ensures r.(name := p.name, threadId := p.threadId) == p
  {
    var name := if newThread.None? || p.threadId == Some(newThread.value.id) then p.name else newThread.value.name;
    p.(name := name, threadId := if newThread.Some? then Some(newThread.value.id) else None)
  }

  /** `create_post`: a closed thread refuses it; otherwise the new post, named after the
      thread, is attached to it and appended to its posts. */
  function CreatePost(t: Thread, creator: Poster, createdAt: int, body: string)
    : (r: Result<(Thread, Post), ThreadClosedError>)
    ensures r.Failure? <==> Closed(t)
    ensures r.Failure? ==> r.error == ThreadClosedError(t.id)
    ensures r.Success? ==>
              var (t2, p) := r.value;
              p == Post(t.name, creator, createdAt, body, Some(t.id))
              && t2 == t.(posts := t.posts + [p])
  {
    if Closed(t) then Failure(ThreadClosedError(t.id))
    else
      var p := PostSetThread(Post(t.name, creator, createdAt, body, None), Some(t));
      Success((AppendPost(t, p).value, p))
  }

  // ---------------------------------------------------------------------------
  // name and title synchronisation
  // ---------------------------------------------------------------------------

  /** A thread whose name, title and post names all agree. */
  predicate Synced(t: Thread) {
    t.name == t.title && forall i :: 0 <= i < |t.posts| ==> t.posts[i].name == t.name
  }

  /** Every post renamed to `v`. */
  function RenamePosts(posts: seq<Post>, v: string): (r: seq<Post>)
    ensures |r| == |posts|
    ensures forall i :: 0 <= i < |r| ==> r[i] == posts[i].(name := v)
  {
    seq(|posts|, i requires 0 <= i < |posts| => posts[i].(name := v))
  }

  /** The recursion measure of the listeners: whether the title still has to change. */
  function Pending(t: Thread, v: string): nat {
    if t.title == v then 0 else 1
  }

  /** Setting `Thread.name`: the "set" listeners run with the old name still in place, first
      `_thread_sync_name_title`, then `_thread_sync_name`, and the value is stored last. */
  function NameSet(t: Thread, v: string): Thread
    decreases Pending(t, v), 2
  {
    var t1 := SyncNameTitle(t, v);
    var t2 := SyncName(t1, v, t.name);
    t2.(name := v)
  }

  /** `_thread_sync_name_title`: sets the title when it differs. */
  function SyncNameTitle(t: Thread, v: string): Thread
    decreases Pending(t, v), 1
  {
    if t.title != v then TitleSet(t, v) else t
  }

  /** `_thread_sync_name`: renames every post when the name changes. */
  function SyncName(t: Thread, newValue: string, oldValue: string): Thread {
    if newValue == oldValue then t else t.(posts := RenamePosts(t.posts, newValue))
  }

  /** The `title` setter: stores the title, then sets the name when it differs. */
  function TitleSet(t: Thread, v: string): Thread
    decreases 1, 0
  {
    var t1 := t.(title := v);
    if t1.name != v then NameSet(t1, v) else t1
  }

  /** Setting the name gives the title the same value, renames the posts when the name
      changes, and touches nothing else. */
  lemma NameSetEffect(t: Thread, v: string)
    ensures var r := NameSet(t, v);
            r.name == v && r.title == v
            && r.posts == (if t.name == v then t.posts else RenamePosts(t.posts, v))
            && r.(name := t.name, title := t.title, posts := t.posts) == t
    decreases Pending(t, v)
  {
    if t.title != v {
      var t1 := t.(title := v);
      if t1.name != v {
        NameSetEffect(t1, v);
        assert SyncNameTitle(t, v) == NameSet(t1, v);
        RenameTwice(t.posts, v);
      } else {
        assert SyncNameTitle(t, v) == TitleSet(t, v) == t1;
      }
    }
  }

  /** Renaming twice to the same name is renaming once. */
  lemma RenameTwice(posts: seq<Post>, v: string)
    ensures RenamePosts(RenamePosts(posts, v), v) == RenamePosts(posts, v)
  {
  }

  /** Setting the title does exactly what setting the name does: the synchronisation runs
      both ways. */
  lemma TitleSetIsNameSet(t: Thread, v: string)
    ensures TitleSet(t, v) == NameSet(t, v)
  {
    NameSetEffect(t, v);
    var t1 := t.(title := v);
    if t1.name != v {
      NameSetEffect(t1, v);
    }
  }

  /** Renaming (or retitling) keeps a synced thread synced, whatever its posts. */
  lemma NameSetSynced(t: Thread, v: string)
    requires Synced(t)
    ensures Synced(NameSet(t, v)) && Synced(TitleSet(t, v))
  {
    NameSetEffect(t, v);
    TitleSetIsNameSet(t, v);
  }

  /** Creating a post keeps a synced thread synced. */
  lemma CreatePostSynced(t: Thread, creator: Poster, createdAt: int, body: string)
    requires Synced(t) && !Closed(t)
    ensures Synced(CreatePost(t, creator, createdAt, body).value.0)
  {
  }

  // ---------------------------------------------------------------------------
  // get_frequent_posters
  // ---------------------------------------------------------------------------

  /** The creators of the posts, in order. */
  function Creators(posts: seq<Post>): (r: seq<Poster>)
    ensures |r| == |posts|
    ensures forall i :: 0 <= i < |r| ==> r[i] == posts[i].creator
  {
    seq(|posts|, i requires 0 <= i < |posts| => posts[i].creator)
  }

  /** How many times `u` occurs in `s`. */
  function Count(s: seq<Poster>, u: Poster): nat {
    multiset(s)[u]
  }

  predicate NoDup<T(==)>(s: seq<T>) {
    forall i, j :: 0 <= i < j < |s| ==> s[i] != s[j]
  }

  /** The distinct elements in the order they first occur, as a `Counter` keeps its keys. */
  function Distinct(s: seq<Poster>): (r: seq<Poster>)
    ensures forall u :: u in r <==> u in s
    ensures NoDup(r)
  {
    if |s| == 0 then []
    else
      var d := Distinct(s[..|s| - 1]);
      assert s == s[..|s| - 1] + [s[|s| - 1]];
      if s[|s| - 1] in d then d else d + [s[|s| - 1]]
  }

  /** Each distinct poster with their number of posts: `Counter(...).items()`. */
  function Counted(s: seq<Poster>): (r: seq<Keyed<Poster>>)
    ensures |r| == |Distinct(s)|
    ensures forall i :: 0 <= i < |r| ==> r[i] == Keyed(Distinct(s)[i], Count(s, Distinct(s)[i]))
  {
    var d := Distinct(s);
    seq(|d|, i requires 0 <= i < |d| => Keyed(d[i], Count(s, d[i])))
  }

  /** The elements of `s` other than `x`, in order. */
  function Without(s: seq<Poster>, x: Poster): (r: seq<Poster>)
    ensures |r| <= |s|
    ensures forall u :: u in r <==> u in s && u != x
  {
    if |s| == 0 then []
    else
      assert s == [s[0]] + s[1..];
      (if s[0] == x then [] else [s[0]]) + Without(s[1..], x)
  }

  function Items(s: seq<Keyed<Poster>>): (r: seq<Poster>)
    ensures |r| == |s|
    ensures forall i :: 0 <= i < |s| ==> r[i] == s[i].item
  {
    seq(|s|, i requires 0 <= i < |s| => s[i].item)
  }

  /** The posters after the opening post, most frequent first. */
  function Ranking(t: Thread): seq<Keyed<Poster>> {
    var replies := if |t.posts| == 0 then [] else t.posts[1..];
    SortDesc(Counted(Creators(replies)))
  }

  /** `get_frequent_posters`: `most_common(limit)` over the replies' creators (nothing for a
      limit of zero or less), without the thread's creator. */
  function FrequentPosters(t: Thread, limit: int): seq<Poster> {
    var ranked := Ranking(t);
    var n := if limit <= 0 then 0 else if limit < |ranked| then limit else |ranked|;
    Without(Items(ranked[..n]), t.creator)
  }

  /** An entry of the counter of `replies`: a poster with their number of posts. */
  predicate Entry(replies: seq<Poster>, k: Keyed<Poster>) {
    k.item in replies && k.key == Count(replies, k.item)
  }

  /** Every ranked entry is a distinct poster of a reply with their post count, every
      poster is ranked, and the counts never increase. */
  lemma RankingFacts(t: Thread)
    ensures var replies := Creators(if |t.posts| == 0 then [] else t.posts[1..]);
            var ranked := Ranking(t);
            SortedDesc(ranked)
            && (forall i :: 0 <= i < |ranked| ==> Entry(replies, ranked[i]))
            && (forall u :: u in replies ==> exists i :: 0 <= i < |ranked| && ranked[i].item == u)
            && NoDup(Items(ranked))
  {
    var replies := Creators(if |t.posts| == 0 then [] else t.posts[1..]);
    var c := Counted(replies);
    SortDescSortedDesc(c);
    CountedEntries(replies);
    NoDupOnce(c);
    RankedFacts(replies, c, SortDesc(c));
  }

  /** The counter's entries are the posters with their counts, each once. */
  lemma CountedEntries(replies: seq<Poster>)
    ensures var c := Counted(replies);
            (forall i :: 0 <= i < |c| ==> Entry(replies, c[i]))
            && (forall u :: u in replies ==> exists i :: 0 <= i < |c| && c[i].item == u)
            && NoDup(c)
  {
    var c := Counted(replies);
    var d := Distinct(replies);
    forall u | u in replies ensures exists i :: 0 <= i < |c| && c[i].item == u {
      var k :| 0 <= k < |d| && d[k] == u;
      assert c[k].item == u;
    }
  }

  /** What a rearrangement of the counter keeps. */
  lemma RankedFacts(replies: seq<Poster>, c: seq<Keyed<Poster>>, ranked: seq<Keyed<Poster>>)
    requires multiset(ranked) == multiset(c)
    requires forall i :: 0 <= i < |c| ==> Entry(replies, c[i])
    requires forall u :: u in replies ==> exists i :: 0 <= i < |c| && c[i].item == u
    requires forall x :: multiset(c)[x] <= 1
    ensures forall i :: 0 <= i < |ranked| ==> Entry(replies, ranked[i])
    ensures forall u :: u in replies ==> exists i :: 0 <= i < |ranked| && ranked[i].item == u
    ensures NoDup(Items(ranked))
  {
    forall i | 0 <= i < |ranked| ensures Entry(replies, ranked[i]) {
      assert ranked[i] in multiset(c);
      var k :| 0 <= k < |c| && c[k] == ranked[i];
    }
    forall u | u in replies ensures exists i :: 0 <= i < |ranked| && ranked[i].item == u {
      var k :| 0 <= k < |c| && c[k].item == u;
      assert c[k] in multiset(ranked);
      var i :| 0 <= i < |ranked| && ranked[i] == c[k];
    }
    forall i, j | 0 <= i < j < |ranked| ensures Items(ranked)[i] != Items(ranked)[j] {
      if ranked[i].item == ranked[j].item {
        assert Entry(replies, ranked[i]) && Entry(replies, ranked[j]);
        assert ranked[i] == ranked[j];
        TwiceInMultiset(ranked, i, j);
      }
    }
  }

  /** An element of a sequence without repetitions occurs once. */
  lemma {:induction false} NoDupOnce<T>(s: seq<T>)
    requires NoDup(s)
    ensures forall x :: multiset(s)[x] <= 1
  {
    if |s| > 0 {
      var init := s[..|s| - 1];
      assert NoDup(init) by {
        forall i, j | 0 <= i < j < |init| ensures init[i] != init[j] {
          assert init[i] == s[i] && init[j] == s[j];
        }
      }
      NoDupOnce(init);
      assert s == init + [s[|s| - 1]];
      assert s[|s| - 1] !in init by {
        forall i | 0 <= i < |init| ensures init[i] != s[|s| - 1] {
          assert init[i] == s[i];
        }
      }
    }
  }

  /** An element at two positions occurs at least twice. */
  lemma TwiceInMultiset<T>(s: seq<T>, i: nat, j: nat)
    requires i < j < |s| && s[i] == s[j]
    ensures multiset(s)[s[i]] >= 2
  {
    assert s == s[..j] + s[j..];
    assert s[i] == s[..j][i];
    assert s[j] == s[j..][0];
  }

  /** `get_frequent_posters` returns at most `limit` distinct posters of replies, never the
      thread's creator, most frequent first; a poster left out (other than the creator) has
      no more replies than any poster returned, and a limit at least the number of posters
      returns them all. */
  lemma FrequentPostersRanked(t: Thread, limit: int)
    ensures var r := FrequentPosters(t, limit);
            var replies := Creators(if |t.posts| == 0 then [] else t.posts[1..]);
            |r| <= (if limit < 0 then 0 else limit)
            && t.creator !in r
            && (forall u :: u in r ==> u in replies)
            && (forall u, v :: u in r && v in replies && v != t.creator && v !in r ==>
                                 Count(replies, v) <= Count(replies, u))
            && (limit >= |Distinct(replies)| ==> forall v :: v in replies && v != t.creator ==> v in r)
  {
    var replies := Creators(if |t.posts| == 0 then [] else t.posts[1..]);
    var ranked := Ranking(t);
    RankingFacts(t);
    SortDescElements(Counted(replies), Keyed(None, 0));
    var n := if limit <= 0 then 0 else if limit < |ranked| then limit else |ranked|;
    TopRanked(replies, ranked, n, t.creator);
  }

  /** The first `n` ranked posters, without `creator`. */
  lemma TopRanked(replies: seq<Poster>, ranked: seq<Keyed<Poster>>, n: nat, creator: Poster)
    requires n <= |ranked|
    requires SortedDesc(ranked)
    requires forall i :: 0 <= i < |ranked| ==> Entry(replies, ranked[i])
    requires forall u :: u in replies ==> exists i :: 0 <= i < |ranked| && ranked[i].item == u
    ensures var r := Without(Items(ranked[..n]), creator);
            |r| <= n
            && creator !in r
            && (forall u :: u in r ==> u in replies)
            && (forall u, v :: u in r && v in replies && v != creator && v !in r ==>
                                 Count(replies, v) <= Count(replies, u))
            && (n == |ranked| ==> forall v :: v in replies && v != creator ==> v in r)
  {
    var top := Items(ranked[..n]);
    var r := Without(top, creator);
    forall u | u in r ensures u in replies {
      var q :| 0 <= q < |top| && top[q] == u;
      assert Entry(replies, ranked[q]);
    }
    forall u, v | u in r && v in replies && v != creator && v !in r
      ensures Count(replies, v) <= Count(replies, u)
    {
      TopBeats(replies, ranked, n, creator, u, v);
    }
    if n == |ranked| {
      forall v | v in replies && v != creator ensures v in r {
        var p :| 0 <= p < |ranked| && ranked[p].item == v;
        InTop(ranked, n, p);
      }
    }
  }

  /** A poster that made the cut has at least as many replies as one that did not. */
  lemma TopBeats(replies: seq<Poster>, ranked: seq<Keyed<Poster>>, n: nat, creator: Poster, u: Poster, v: Poster)
    requires n <= |ranked|
    requires SortedDesc(ranked)
    requires forall i :: 0 <= i < |ranked| ==> Entry(replies, ranked[i])
    requires forall u :: u in replies ==> exists i :: 0 <= i < |ranked| && ranked[i].item == u
    requires u in Without(Items(ranked[..n]), creator)
    requires v in replies && v != creator && v !in Without(Items(ranked[..n]), creator)
    ensures Count(replies, v) <= Count(replies, u)
  {
    var top := Items(ranked[..n]);
    var q :| 0 <= q < |top| && top[q] == u;
    var p :| 0 <= p < |ranked| && ranked[p].item == v;
    InTop(ranked, n, p);
    assert ranked[q].key >= ranked[p].key;
    assert Entry(replies, ranked[q]) && Entry(replies, ranked[p]);
  }

  lemma InTop(ranked: seq<Keyed<Poster>>, n: nat, p: nat)
    requires n <= |ranked| && p < |ranked|
    ensures p < n ==> ranked[p].item in Items(ranked[..n])
  {
    if p < n {
      assert Items(ranked[..n])[p] == ranked[p].item;
    }
  }
}
