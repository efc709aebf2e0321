/** Wiki pages (wiki/models.py) and the page form's filters and validators (wiki/forms.py,
    both variants, with `page_exists` from wiki/util.py in the newer one).

    A page is a value holding its revisions; the current user (`g.user`) is a parameter, and
    the titles of the community's pages stand for the database query of `page_exists`. */
module Wiki {
  import opened Wrappers
  import opened Text

  datatype Revision = Revision(number: nat, bodySrc: string, message: string, author: Option<nat>)

  datatype Page = Page(name: string, title: string, bodySrc: string, revisions: seq<Revision>)

  // ---------------------------------------------------------------------------
  // title and name
  // ---------------------------------------------------------------------------

  /** The recursion measure of the listener: whether the title still has to change. */
  function Pending(p: Page, v: string): nat {
    if p.title == v then 0 else 1
  }

  /** Setting `name`: `_wiki_sync_name_title` first sets the title when it differs, and the
      value is stored afterwards. */
  function NameSet(p: Page, v: string): Page
    decreases Pending(p, v), 1
  {
    var p1 := if p.title != v then TitleSet(p, v) else p;
    p1.(name := v)
  }

  /** The `title` setter: stores the title, then sets the name when it differs. */
  function TitleSet(p: Page, v: string): Page
    decreases 1, 0
  {
    var p1 := p.(title := v);
    if p1.name != v then NameSet(p1, v) else p1
  }

  /** Setting either one sets both, and nothing else. */
  lemma TitleNameSync(p: Page, v: string)
    ensures NameSet(p, v) == p.(name := v, title := v)
    ensures TitleSet(p, v) == p.(name := v, title := v)
  {
    var p1 := p.(title := v);
    if p1.name != v {
      assert NameSet(p1, v) == p1.(name := v);
    }
  }

  // ---------------------------------------------------------------------------
  // revisions
  // ---------------------------------------------------------------------------

  /** The largest revision number. */
  function MaxNumber(revs: seq<Revision>): (r: nat)
    requires |revs| > 0
    ensures exists i :: 0 <= i < |revs| && revs[i].number == r
    ensures forall i :: 0 <= i < |revs| ==> revs[i].number <= r
  {
    if |revs| == 1 then revs[0].number
    else
      var m := MaxNumber(revs[1..]);
      assert forall i :: 1 <= i < |revs| ==> revs[i] == revs[1..][i - 1];
      if revs[0].number > m then revs[0].number else m
  }

  /** `create_revision`: the new revision is numbered one above the largest number so far,
      or 0 for the first; it becomes the page's body and is authored by the current user. */
  function CreateRevision(p: Page, bodySrc: string, message: string, user: Option<nat>): (r: Page)
    ensures |r.revisions| == |p.revisions| + 1
    ensures r.revisions[..|p.revisions|] == p.revisions
    ensures var rev := r.revisions[|p.revisions|];
            rev.bodySrc == bodySrc && rev.message == message && rev.author == user
            && (|p.revisions| == 0 ==> rev.number == 0)
            && (forall i :: 0 <= i < |p.revisions| ==> p.revisions[i].number < rev.number)
    ensures r.bodySrc == bodySrc
    ensures r.(bodySrc := p.bodySrc, revisions := p.revisions) == p
  {
    var number := if |p.revisions| > 0 then MaxNumber(p.revisions) + 1 else 0;
    var rev := Revision(number, bodySrc, message, user);
    assert (p.revisions + [rev])[..|p.revisions|] == p.revisions;
    p.(bodySrc := bodySrc, revisions := p.revisions + [rev])
  }

  /** Revision numbers increase along the page's revisions. */
  predicate Increasing(revs: seq<Revision>) {
    forall i, j :: 0 <= i < j < |revs| ==> revs[i].number < revs[j].number
  }

  /** Each new revision keeps the numbers increasing, and so unique. */
  lemma CreateRevisionIncreasing(p: Page, bodySrc: string, message: string, user: Option<nat>)
    requires Increasing(p.revisions)
    ensures Increasing(CreateRevision(p, bodySrc, message, user).revisions)
  {
    var r := CreateRevision(p, bodySrc, message, user).revisions;
    forall i, j | 0 <= i < j < |r| ensures r[i].number < r[j].number {
      assert r[i] == p.revisions[i];
      if j < |p.revisions| {
        assert r[j] == p.revisions[j];
      }
    }
  }

  /** `WikiPage.__init__`: a new page takes the title (and so the name) and one revision,
      numbered 0, holding the body. */
  function NewPage(title: string, bodySrc: string, message: string, user: Option<nat>): (r: Page)
    ensures r.title == title && r.name == title && r.bodySrc == bodySrc
    ensures r.revisions == [Revision(0, bodySrc, message, user)]
  {
    var blank := Page("", "", "", []);
    TitleNameSync(blank, title);
    CreateRevision(TitleSet(blank, title), bodySrc, message, user)
  }

  // ---------------------------------------------------------------------------
  // form filters and validators
  // ---------------------------------------------------------------------------

  /** `clean_up`: the text without its carriage returns. */
  function CleanUp(src: string): (r: string)
    ensures '\r' !in r
    ensures '\r' !in src ==> r == src
  {
    if |src| == 0 then ""
    else
      assert src == [src[0]] + src[1..];
      (if src[0] == '\r' then "" else [src[0]]) + CleanUp(src[1..])
  }

  /** Cleaning keeps every other character, as many times as it occurs. */
  lemma {:induction false} CleanUpKeeps(src: string)
    ensures forall c :: c != '\r' ==> multiset(CleanUp(src))[c] == multiset(src)[c]
  {
    if |src| > 0 {
      CleanUpKeeps(src[1..]);
      assert src == [src[0]] + src[1..];
      var h := if src[0] == '\r' then "" else [src[0]];
      assert multiset(CleanUp(src)) == multiset(h) + multiset(CleanUp(src[1..]));
    }
  }

  /** Cleaning works piece by piece (and, as the text it returns has no carriage return,
      cleaning twice is cleaning once). */
  lemma {:induction false} CleanUpAppend(a: string, b: string)
    ensures CleanUp(a + b) == CleanUp(a) + CleanUp(b)
    decreases |a|
  {
    if |a| == 0 {
      assert a + b == b;
    } else {
      var c, t := a[0], a[1..];
      var h := if c == '\r' then "" else [c];
      assert a == [c] + t && a + b == [c] + (t + b);
      CleanUpCons(c, t + b);
      CleanUpCons(c, t);
      CleanUpAppend(t, b);
      Assoc(h, CleanUp(t), CleanUp(b));
    }
  }

  lemma Assoc(x: string, y: string, z: string)
    ensures x + (y + z) == (x + y) + z
  {
  }

  lemma CleanUpCons(c: char, t: string)
    ensures CleanUp([c] + t) == (if c == '\r' then "" else [c]) + CleanUp(t)
  {
    assert ([c] + t)[0] == c && ([c] + t)[1..] == t;
  }

  /** `int_or_none`: `int(val)`, or None for a missing value (TypeError) or text that is not
      an integer (ValueError). */
  function IntOrNone(val: Option<string>): (r: Option<int>)
    ensures val.None? ==> r.None?
    ensures val.Some? ==> r == PyInt(val.value)
  {
    if val.None? then None else PyInt(val.value)
  }

  /** A printed number comes back. */
  lemma IntOrNoneRoundTrip(n: nat)
    ensures IntOrNone(Some(NatToString(n))) == Some(n)
    ensures IntOrNone(Some("-" + NatToString(n))) == Some(-(n as int))
  {
    PyIntNat(n);
    PyIntNegative(n);
  }

  datatype ValidationError = TitleTaken | EditedSince

  /** `validate_last_revision_id`: an error exactly when both the submitted and the stored
      revision ids are known and differ. */
  function ValidateLastRevisionId(val: Option<int>, current: Option<int>): (r: Result<(), ValidationError>)
    ensures r.Failure? <==> val.Some? && current.Some? && val.value != current.value
    ensures r.Failure? ==> r.error == EditedSince
  {
    if val.None? || current.None? then Success(())
    else if val.value != current.value then Failure(EditedSince)
    else Success(())
  }

  /** `page_exists`: whether the community has a page with the stripped title. */
  predicate PageExists(title: string, titles: set<string>) {
    Strip(title) in titles
  }

  /** `validate_title`: an error exactly when the title changed and a page with it exists.
      `objectData` is the page's title before the edit, None for a new page. */
  function ValidateTitle(title: string, objectData: Option<string>, titles: set<string>): (r: Result<(), ValidationError>)
    ensures r.Failure? <==> objectData != Some(title) && PageExists(title, titles)
    ensures r.Failure? ==> r.error == TitleTaken
  {
    if objectData != Some(title) && PageExists(title, titles) then Failure(TitleTaken) else Success(())
  }

  /** The form strips the title before validating it, so the lookup sees the title as
      submitted: a page keeping its title always passes, and a stripped new title fails
      exactly when it is taken. */
  lemma ValidateStrippedTitle(raw: string, objectData: Option<string>, titles: set<string>)
    ensures var title := Strip(raw);
            (objectData == Some(title) ==> ValidateTitle(title, objectData, titles).Success?)
            && (objectData != Some(title) ==> (ValidateTitle(title, objectData, titles).Failure? <==> title in titles))
  {
    StripIdempotent(raw);
  }
}
