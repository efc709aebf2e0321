/** The forum views' own logic (forum/views.py): the period filter and the thread listing of
    the index, `group_monthly` for the archives, `get_viewed_posts`, the close/reopen view and
    the choice of attachments to remove when a post is edited.

    Times are whole seconds on one clock; the current time is a parameter. The view tracker's
    records and the form data are inputs. */
module ForumViews {
  import opened Wrappers
  import opened Text
  import opened Sorting
  import opened ForumModels

  datatype BadRequest = BadRequest

  const MaxThreads: nat := 30
  const SecondsPerDay: int := 86400

  // ---------------------------------------------------------------------------
  // index
  // ---------------------------------------------------------------------------

  /** The period a filter name selects, in days: none without a filter (or an empty one),
      BadRequest for a name other than "today", "week", "month" and "year". */
  function FilterDays(filter: Option<string>): (r: Result<Option<nat>, BadRequest>)
    ensures r.Failure? <==> filter.Some? && filter.value !in ["", "today", "week", "month", "year"]
    ensures r == Success(None) <==> filter.None? || filter == Some("")
    ensures filter == Some("today") ==> r == Success(Some(1))
    ensures filter == Some("week") ==> r == Success(Some(7))
    ensures filter == Some("month") ==> r == Success(Some(31))
    ensures filter == Some("year") ==> r == Success(Some(365))
  {
    if filter.None? then Success(None)
    else if filter.value == "today" then Success(Some(1))
    else if filter.value == "week" then Success(Some(7))
    else if filter.value == "month" then Success(Some(31))
    else if filter.value == "year" then Success(Some(365))
    else if filter.value != "" then Failure(BadRequest)
    else Success(None)
  }

  /** A thread of the community as the index lists it, with the number of views it got. */
  datatype Row = Row(threadId: nat, createdAt: int, nbViews: nat)

  /** The listing and its `has_more` flag. */
  datatype Listing = Listing(threads: seq<Row>, hasMore: bool)

  /** The rows created after `cutoff`, in order. */
  function CreatedAfter(rows: seq<Row>, cutoff: int): (r: seq<Row>)
    ensures forall x :: x in r <==> x in rows && x.createdAt > cutoff
    ensures multiset(r) <= multiset(rows)
  {
    if |rows| == 0 then []
    else
      assert rows == [rows[0]] + rows[1..];
      (if rows[0].createdAt > cutoff then [rows[0]] else []) + CreatedAfter(rows[1..], cutoff)
  }

  function ByViews(rows: seq<Row>): (r: seq<Keyed<Row>>)
    ensures |r| == |rows|
    ensures forall i :: 0 <= i < |r| ==> r[i] == Keyed(rows[i], rows[i].nbViews)
  {
    seq(|rows|, i requires 0 <= i < |rows| => Keyed(rows[i], rows[i].nbViews))
  }

  function Rows(ks: seq<Keyed<Row>>): (r: seq<Row>)
    ensures |r| == |ks|
    ensures forall i :: 0 <= i < |r| ==> r[i] == ks[i].item
  {
    seq(|ks|, i requires 0 <= i < |ks| => ks[i].item)
  }

  /** The thread list of `index`, given the community's threads by latest post first: with a
      period, the threads created within it, most viewed first; without one, the first
      `MaxThreads` threads and whether there are more. */
  function Index(threads: seq<Row>, filter: Option<string>, now: int): (r: Result<Listing, BadRequest>)
    ensures r.Failure? <==> FilterDays(filter).Failure?
    ensures r.Success? && FilterDays(filter).value.None? ==>
              r.value.threads == threads[..if |threads| < MaxThreads then |threads| else MaxThreads]
              && (r.value.hasMore <==> |threads| > MaxThreads)
    ensures r.Success? && FilterDays(filter).value.Some? ==>
              var cutoff := now - FilterDays(filter).value.value * SecondsPerDay;
              !r.value.hasMore
              && r.value.threads == ByPeriod(threads, cutoff)
  {
    var days :- FilterDays(filter);
    if days.None? then
      var n := if |threads| < MaxThreads then |threads| else MaxThreads;
      Success(Listing(threads[..n], |threads| > MaxThreads))
    else
      Success(Listing(ByPeriod(threads, now - days.value * SecondsPerDay), false))
  }

  /** The threads created after `cutoff`, most viewed first. */
  function ByPeriod(threads: seq<Row>, cutoff: int): seq<Row> {
    Rows(SortDesc(ByViews(CreatedAfter(threads, cutoff))))
  }

  /** With a period, the listing holds exactly the threads created after the cutoff, as
      often as they occur, and the view counts never increase along it. */
  lemma ByPeriodListing(threads: seq<Row>, cutoff: int)
    ensures var listed := ByPeriod(threads, cutoff);
            multiset(listed) == multiset(CreatedAfter(threads, cutoff))
            && (forall x :: x in listed <==> x in threads && x.createdAt > cutoff)
            && (forall i, j :: 0 <= i < j < |listed| ==> listed[i].nbViews >= listed[j].nbViews)
  {
    var kept := CreatedAfter(threads, cutoff);
    var ks := ByViews(kept);
    var sorted := SortDesc(ks);
    SortDescSortedDesc(ks);
    RowsKeepElements(ks, sorted, kept);
    var listed := ByPeriod(threads, cutoff);
    forall x ensures x in listed <==> x in kept {
      assert x in listed <==> x in multiset(listed);
      assert x in kept <==> x in multiset(kept);
    }
  }

  /** Dropping the keys of a rearrangement of `ByViews(rows)` gives a rearrangement of
      `rows`, and the keys are the view counts. */
  lemma RowsKeepElements(ks: seq<Keyed<Row>>, sorted: seq<Keyed<Row>>, rows: seq<Row>)
    requires ks == ByViews(rows) && multiset(sorted) == multiset(ks) && SortedDesc(sorted)
    ensures multiset(Rows(sorted)) == multiset(rows)
    ensures forall i, j :: 0 <= i < j < |sorted| ==> Rows(sorted)[i].nbViews >= Rows(sorted)[j].nbViews
  {
    forall i | 0 <= i < |sorted| ensures sorted[i].key == sorted[i].item.nbViews {
      assert sorted[i] in multiset(ks);
      var k :| 0 <= k < |ks| && ks[k] == sorted[i];
    }
    PermRows(sorted, ks);
    assert Rows(ks) == rows;
  }

  /** Rearranging keyed rows rearranges their rows. */
  lemma {:induction false} PermRows(a: seq<Keyed<Row>>, b: seq<Keyed<Row>>)
    requires multiset(a) == multiset(b)
    ensures multiset(Rows(a)) == multiset(Rows(b))
    decreases |a|
  {
    if |a| == 0 {
      assert |b| == |multiset(b)| == 0;
    } else {
      var n := |a| - 1;
      var x := a[n];
      assert x in multiset(a);
      assert x in b;
      var k :| 0 <= k < |b| && b[k] == x;
      var a2 := a[..n];
      var b2 := b[..k] + b[k + 1..];
      PermStep(a, b, n, k);
      PermRows(a2, b2);
      RowsSplit(a, b, n, k);
    }
  }

  lemma PermStep(a: seq<Keyed<Row>>, b: seq<Keyed<Row>>, n: nat, k: nat)
    requires n == |a| - 1 && k < |b| && a[n] == b[k] && multiset(a) == multiset(b)
    ensures multiset(a[..n]) == multiset(b[..k] + b[k + 1..])
  {
    RemoveAt(a, n);
    RemoveAt(b, k);
    assert a[..n] + a[n + 1..] == a[..n];
  }

  lemma RowsSplit(a: seq<Keyed<Row>>, b: seq<Keyed<Row>>, n: nat, k: nat)
    requires n == |a| - 1 && k < |b| && a[n] == b[k]
    requires multiset(Rows(a[..n])) == multiset(Rows(b[..k] + b[k + 1..]))
    ensures multiset(Rows(a)) == multiset(Rows(b))
  {
    var x := a[n];
    RowsConcat(a[..n], [x]);
    assert a == a[..n] + [x];
    RowsConcat(b[..k], [x]);
    RowsConcat(b[..k] + [x], b[k + 1..]);
    assert b == b[..k] + [x] + b[k + 1..];
    RowsConcat(b[..k], b[k + 1..]);
  }

  lemma RemoveAt(b: seq<Keyed<Row>>, k: nat)
    requires k < |b|
    ensures multiset(b[..k] + b[k + 1..]) == multiset(b) - multiset{b[k]}
  {
    assert b == b[..k] + [b[k]] + b[k + 1..];
  }

  lemma RowsConcat(p: seq<Keyed<Row>>, q: seq<Keyed<Row>>)
    ensures Rows(p + q) == Rows(p) + Rows(q)
  {
  }

  // ---------------------------------------------------------------------------
  // group_monthly
  // ---------------------------------------------------------------------------

  /** An entity with the year and month of its creation. */
  datatype Dated<T> = Dated(year: int, month: int, entity: T)

  /** A run of entities created in the same month; the view labels it with the month's
      localised name and the year. */
  datatype Group<T> = Group(year: int, month: int, members: seq<Dated<T>>)

  function Members<T>(groups: seq<Group<T>>): seq<Dated<T>> {
    if |groups| == 0 then [] else Members(groups[..|groups| - 1]) + groups[|groups| - 1].members
  }

  /** Every group is non-empty and holds entities of its own month, and neighbouring groups
      are for different months. */
  predicate WellGrouped<T>(groups: seq<Group<T>>) {
    (forall i :: 0 <= i < |groups| ==> |groups[i].members| > 0)
    && (forall i, j :: 0 <= i < |groups| && 0 <= j < |groups[i].members| ==>
          groups[i].members[j].year == groups[i].year && groups[i].members[j].month == groups[i].month)
    && (forall i :: 0 < i < |groups| ==>
          (groups[i - 1].year, groups[i - 1].month) != (groups[i].year, groups[i].month))
  }

  /** One step of `itertools.groupby` on (year, month): the entity joins the last group
      when it has the same month, and starts a new group otherwise. */
  function AddTo<T>(groups: seq<Group<T>>, e: Dated<T>): seq<Group<T>> {
    if |groups| > 0 && groups[|groups| - 1].year == e.year && groups[|groups| - 1].month == e.month then
      var last := groups[|groups| - 1];
      groups[..|groups| - 1] + [last.(members := last.members + [e])]
    else groups + [Group(e.year, e.month, [e])]
  }

  /** `group_monthly`: the entities, in order, cut into runs of the same month. */
  function GroupMonthly<T>(es: seq<Dated<T>>): seq<Group<T>> {
    if |es| == 0 then [] else AddTo(GroupMonthly(es[..|es| - 1]), es[|es| - 1])
  }

  lemma AddToMembers<T>(groups: seq<Group<T>>, e: Dated<T>)
    ensures Members(AddTo(groups, e)) == Members(groups) + [e]
  {
    var r := AddTo(groups, e);
    if |groups| > 0 && groups[|groups| - 1].year == e.year && groups[|groups| - 1].month == e.month {
      assert r[..|r| - 1] == groups[..|groups| - 1];
    } else {
      assert r[..|r| - 1] == groups;
    }
  }

  lemma AddToWellGrouped<T>(groups: seq<Group<T>>, e: Dated<T>)
    requires WellGrouped(groups)
    ensures var r := AddTo(groups, e);
            WellGrouped(r) && |r| > 0 && r[|r| - 1].year == e.year && r[|r| - 1].month == e.month
  {
    var r := AddTo(groups, e);
    if |groups| > 0 && groups[|groups| - 1].year == e.year && groups[|groups| - 1].month == e.month {
      forall i, j | 0 <= i < |r| && 0 <= j < |r[i].members|
        ensures r[i].members[j].year == r[i].year && r[i].members[j].month == r[i].month
      {
        if i < |r| - 1 {
          assert r[i] == groups[i];
        }
      }
      forall i | 0 < i < |r| ensures (r[i - 1].year, r[i - 1].month) != (r[i].year, r[i].month) {
        assert r[i - 1] == groups[i - 1];
        if i < |r| - 1 {
          assert r[i] == groups[i];
        }
      }
    }
  }

  /** The groups concatenate back to the input; each is a non-empty run of one month, and
      neighbouring groups are for different months. */
  lemma GroupMonthlyGroups<T>(es: seq<Dated<T>>)
    ensures Members(GroupMonthly(es)) == es
    ensures WellGrouped(GroupMonthly(es))
    ensures |es| > 0 ==> |GroupMonthly(es)| > 0
  {
    GroupMonthlyMembers(es);
    GroupMonthlyWellGrouped(es);
  }

  lemma {:induction false} GroupMonthlyMembers<T>(es: seq<Dated<T>>)
    ensures Members(GroupMonthly(es)) == es
  {
    if |es| > 0 {
      var init := es[..|es| - 1];
      GroupMonthlyMembers(init);
      AddToMembers(GroupMonthly(init), es[|es| - 1]);
      assert es == init + [es[|es| - 1]];
    }
  }

  lemma {:induction false} GroupMonthlyWellGrouped<T>(es: seq<Dated<T>>)
    ensures WellGrouped(GroupMonthly(es))
    ensures |es| > 0 ==> |GroupMonthly(es)| > 0
  {
    if |es| > 0 {
      var init := es[..|es| - 1];
      GroupMonthlyWellGrouped(init);
      AddToWellGrouped(GroupMonthly(init), es[|es| - 1]);
    }
  }

  // ---------------------------------------------------------------------------
  // get_viewed_posts
  // ---------------------------------------------------------------------------

  /** A view of the current user on a thread, with the times of its hits, oldest first. */
  datatype UserView = UserView(threadId: nat, hits: seq<int>)

  datatype IndexError = IndexError

  /** How many of the posts' creation times come after `cutoff`. */
  function CountAfter(times: seq<int>, cutoff: int): (r: nat)
    ensures r <= |times|
    ensures r == |times| <==> forall i :: 0 <= i < |times| ==> times[i] > cutoff
  {
    if |times| == 0 then 0
    else
      assert forall i :: 0 < i < |times| ==> times[i] == times[1..][i - 1];
      (if times[0] > cutoff then 1 else 0) + CountAfter(times[1..], cutoff)
  }

  /** A later visit never leaves more posts to read. */
  lemma {:induction false} CountAfterAntitone(times: seq<int>, c1: int, c2: int)
    requires c1 <= c2
    ensures CountAfter(times, c2) <= CountAfter(times, c1)
  {
    if |times| > 0 {
      CountAfterAntitone(times[1..], c1, c2);
    }
  }

  /** The hits of the last view on thread `k`, if any. */
  function LastView(views: seq<UserView>, k: nat): (r: Option<seq<int>>)
    ensures r.None? <==> forall i :: 0 <= i < |views| ==> views[i].threadId != k
    ensures r.Some? ==> exists i :: 0 <= i < |views| && views[i] == UserView(k, r.value)
  {
    if |views| == 0 then None
    else if views[|views| - 1].threadId == k then Some(views[|views| - 1].hits)
    else
      var r := LastView(views[..|views| - 1], k);
      assert forall i :: 0 <= i < |views| - 1 ==> views[..|views| - 1][i] == views[i];
      r
  }

  /** The number of posts left to read on a thread, given the hits of the last view on it. */
  function Unread(posts: seq<int>, last: Option<seq<int>>): int
    requires last.Some? ==> |last.value| > 0
  {
    if last.None? then |posts| - 1 else CountAfter(posts, last.value[|last.value| - 1])
  }

  /** Whether some view on one of the threads has no hit. */
  predicate HitlessView(threads: map<nat, seq<int>>, views: seq<UserView>) {
    exists i :: 0 <= i < |views| && views[i].threadId in threads && |views[i].hits| == 0
  }

  /** The loop over the views: the posts after the last hit, for every listed thread that
      has a view; a view without hits fails as `related_hits[-1]` does. */
  function ViewedCounts(threads: map<nat, seq<int>>, views: seq<UserView>): (r: Result<map<nat, int>, IndexError>)
    ensures r.Failure? <==> HitlessView(threads, views)
  {
    if |views| == 0 then Success(map[])
    else
      var init := views[..|views| - 1];
      var v := views[|views| - 1];
      assert forall i :: 0 <= i < |init| ==> init[i] == views[i];
      var m :- ViewedCounts(threads, init);
      if v.threadId !in threads then Success(m)
      else if |v.hits| == 0 then Failure(IndexError)
      else Success(m[v.threadId := CountAfter(threads[v.threadId], v.hits[|v.hits| - 1])])
  }

  /** The loop records, for each listed thread with a view, the posts after the last hit of
      its last view. */
  lemma {:induction false} ViewedCountsContents(threads: map<nat, seq<int>>, views: seq<UserView>, k: nat)
    requires ViewedCounts(threads, views).Success?
    ensures var m := ViewedCounts(threads, views).value;
            (k in m <==> k in threads && LastView(views, k).Some?)
            && (k in m ==> |LastView(views, k).value| > 0 && m[k] == Unread(threads[k], LastView(views, k)))
  {
    if |views| > 0 {
      var init := views[..|views| - 1];
      assert forall i :: 0 <= i < |init| ==> init[i] == views[i];
      ViewedCountsContents(threads, init, k);
    }
  }

  /** `get_viewed_posts` for the current user's views: nothing for no threads; otherwise,
      for every thread, the number of posts created after the user's last hit, or all posts
      but the first when the user never viewed it. */
  function GetViewedPosts(threads: map<nat, seq<int>>, views: seq<UserView>)
    : (r: Result<Option<map<nat, int>>, IndexError>)
    ensures r == Success(None) <==> |threads| == 0
    ensures r.Failure? <==> |threads| > 0 && HitlessView(threads, views)
  {
    if |threads| == 0 then Success(None)
    else
      var m :- ViewedCounts(threads, views);
      var never := map k | k in threads && LastView(views, k).None? :: |threads[k]| - 1;
      Success(Some(m + never))
  }

  /** Every listed thread gets a count: the posts after the last hit of the user's last view
      on it, or all posts but the first when the user never viewed it. */
  lemma GetViewedPostsContents(threads: map<nat, seq<int>>, views: seq<UserView>, k: nat)
    requires GetViewedPosts(threads, views).Success? && GetViewedPosts(threads, views).value.Some?
    ensures var m := GetViewedPosts(threads, views).value.value;
            (k in m <==> k in threads)
            && (k in m ==> (LastView(views, k).Some? ==> |LastView(views, k).value| > 0)
                           && m[k] == Unread(threads[k], LastView(views, k)))
  {
    ViewedCountsContents(threads, views, k);
  }

  /** Every thread's count lies between -1 (a thread without posts, never viewed) and the
      number of its posts. */
  lemma ViewedPostsBounds(threads: map<nat, seq<int>>, views: seq<UserView>, k: nat)
    requires GetViewedPosts(threads, views).Success? && GetViewedPosts(threads, views).value.Some?
    requires k in threads
    ensures var m := GetViewedPosts(threads, views).value.value;
            k in m && -1 <= m[k] <= |threads[k]|
  {
    GetViewedPostsContents(threads, views, k);
  }

  // ---------------------------------------------------------------------------
  // ThreadCloseView
  // ---------------------------------------------------------------------------

  /** The close view: an action other than "close" and "reopen" (or none) is a BadRequest;
      otherwise the thread is closed exactly when the action is "close". */
  function ThreadClose(action: Option<string>, t: Thread): (r: Result<Thread, BadRequest>)
    ensures r.Success? <==> action == Some("close") || action == Some("reopen")
    ensures r.Success? ==> Closed(r.value) == (action == Some("close"))
                           && r.value.(closedFlag := t.closedFlag) == t
  {
    if action == Some("close") || action == Some("reopen") then Success(SetClosed(t, action == Some("close")))
    else Failure(BadRequest)
  }

  /** Closing a thread stops new posts, and reopening it lets them in again. */
  lemma CloseStopsPosts(t: Thread, creator: Poster, createdAt: int, body: string)
    ensures CreatePost(ThreadClose(Some("close"), t).value, creator, createdAt, body).Failure?
    ensures CreatePost(ThreadClose(Some("reopen"), t).value, creator, createdAt, body).Success?
  {
  }

  // ---------------------------------------------------------------------------
  // attachments to remove on post edit
  // ---------------------------------------------------------------------------

  /** `attachments[i]` for a Python index: counts from the end when negative. */
  function PyIndex(i: int, n: nat): (r: Result<nat, IndexError>)
    ensures r.Success? <==> -(n as int) <= i < n
    ensures r.Success? ==> r.value < n && (r.value == i || r.value == n + i)
  {
    if 0 <= i < n then Success(i)
    else if -(n as int) <= i < 0 then Success(n + i)
    else Failure(IndexError)
  }

  /** `int(idx)` for each submitted index. */
  function Parsed(indices: seq<string>): (r: seq<Option<int>>)
    ensures |r| == |indices|
    ensures forall i :: 0 <= i < |r| ==> r[i] == PyInt(indices[i])
  {
    seq(|indices|, i requires 0 <= i < |indices| => PyInt(indices[i]))
  }

  /** An index that passes the written guard (it is at most the number of attachments) but
      names none of them. */
  predicate PastGuard(x: Option<int>, n: nat) {
    x.Some? && x.value <= n && !(-(n as int) <= x.value < n)
  }

  /** The positions the edit view removes, as written, from the parsed indices: indices
      that do not parse are skipped, and so are those greater than the number of
      attachments; the others are looked up. An index equal to the number of attachments
      passes the guard and fails the lookup. */
  function RemovedAsWritten(ps: seq<Option<int>>, n: nat): (r: Result<seq<int>, IndexError>)
    ensures r.Success? ==> forall p :: p in r.value ==> 0 <= p < n
    ensures r.Failure? <==> exists i :: 0 <= i < |ps| && PastGuard(ps[i], n)
  {
    if |ps| == 0 then Success([])
    else
      assert forall i :: 0 < i < |ps| ==> ps[i] == ps[1..][i - 1];
      var rest :- RemovedAsWritten(ps[1..], n);
      var x := ps[0];
      if x.None? || x.value > n then Success(rest)
      else
        var p :- PyIndex(x.value, n);
        Success([p] + rest)
  }

  /** An index that names an attachment, counting from the end when negative. */
  predicate Names(x: Option<int>, n: nat) {
    x.Some? && -(n as int) <= x.value < n
  }

  /** The parsed index `x` is position `p` among `n` attachments as a Python index: `p`
      itself, or `p - n` counting from the end. */
  predicate Selects(x: Option<int>, p: int, n: nat) {
    x == Some(p) || x == Some(p - n)
  }

  /** The positions the edit view removes, with the guard it evidently means: indices that
      do not parse or name no attachment are skipped, and the others are looked up as
      Python indexes, counting from the end when negative. */
  function Removed(ps: seq<Option<int>>, n: nat): (r: seq<int>)
    ensures forall p :: p in r <==> 0 <= p < n && exists i :: 0 <= i < |ps| && Selects(ps[i], p, n)
  {
    if |ps| == 0 then []
    else
      assert forall i :: 0 < i < |ps| ==> ps[i] == ps[1..][i - 1];
      var rest := Removed(ps[1..], n);
      var x := ps[0];
      if !Names(x, n) then
        assert forall p :: 0 <= p < n ==> !Selects(x, p, n);
        rest
      else
        var q := PyIndex(x.value, n).value;
        assert forall p :: 0 <= p < n ==> (p == q <==> Selects(x, p, n));
        [q] + rest
  }

  /** The edit view's removal of the submitted indices, as written and as meant. */
  function RemovedIndicesAsWritten(indices: seq<string>, n: nat): (r: Result<seq<int>, IndexError>)
    ensures r.Success? ==> forall p :: p in r.value ==> 0 <= p < n
    ensures r.Failure? <==> exists i :: 0 <= i < |indices| && PastGuard(PyInt(indices[i]), n)
  {
    var ps := Parsed(indices);
    assert forall i :: 0 <= i < |indices| ==> ps[i] == PyInt(indices[i]);
    RemovedAsWritten(ps, n)
  }

  function RemovedIndices(indices: seq<string>, n: nat): (r: seq<int>)
    ensures forall p :: p in r <==> 0 <= p < n && exists i :: 0 <= i < |indices| && Selects(PyInt(indices[i]), p, n)
  {
    var ps := Parsed(indices);
    Removed(ps, n)
  }

  /** Wherever the written loop gets through, it removes what the intended guard removes;
      so the two agree whenever every index is unparsable or names an attachment. */
  lemma {:induction false} RemovedAgrees(ps: seq<Option<int>>, n: nat)
    ensures RemovedAsWritten(ps, n).Success? ==> RemovedAsWritten(ps, n).value == Removed(ps, n)
    ensures (forall i :: 0 <= i < |ps| ==> ps[i].None? || Names(ps[i], n)) ==> RemovedAsWritten(ps, n) == Success(Removed(ps, n))
  {
    if |ps| > 0 {
      assert forall i :: 0 < i < |ps| ==> ps[i] == ps[1..][i - 1];
      RemovedAgrees(ps[1..], n);
    }
  }

  /** A negative index counts from the end in the intended removal too: "-1" names the last
      attachment. */
  lemma RemovedFromEnd(n: nat)
    requires n > 0
    ensures Removed([Some(-1)], n) == [n - 1]
    ensures RemovedAsWritten([Some(-1)], n) == Success([n - 1])
  {
    assert [Some(-1)][1..] == [];
  }

  /** The index one past the last attachment passes the written guard and raises
      IndexError; the intended guard skips it. */
  lemma RemovedAsWrittenPastEnd(n: nat)
    ensures RemovedIndicesAsWritten([NatToString(n)], n) == Failure(IndexError)
    ensures RemovedIndices([NatToString(n)], n) == []
  {
    PyIntNat(n);
    var ps := Parsed([NatToString(n)]);
    assert ps == [Some(n as int)];
    PastEnd(n);
  }

  lemma PastEnd(n: nat)
    ensures RemovedAsWritten([Some(n as int)], n) == Failure(IndexError)
    ensures Removed([Some(n as int)], n) == []
  {
    assert [Some(n as int)][1..] == [];
  }
}
