/** The wall's activity presenter (wall/presenters.py): the sentence describing an activity
    entry and the excerpt shown under it.

    Translation is the identity, an object is its name and URL (the `OBJ_TEMPLATE` link is
    spelled out), and `bleach.clean` followed by unescaping is an input: the plain text of
    the post. The templates around the excerpt are not modelled: a body is its excerpt. */
module WallPresenters {
  import opened Wrappers
  import opened Text

  /** The class of the activity's object, as `MESSAGES` distinguishes them. */
  datatype Kind = ThreadKind | PostKind | DocumentKind | WikiPageKind | CommunityKind | OtherKind

  datatype Ref = Ref(name: string, url: string)

  /** An activity entry: its verb, `object_type` (a dotted class path), the class and the
      link of its object, and its target when it has one. */
  datatype Entry = Entry(verb: string, objectType: string, kind: Kind, obj: Ref, target: Option<Ref>)

  /** `OBJ_TEMPLATE` rendered. */
  function Link(r: Ref): (s: string)
    ensures |s| > 0 && s[|s| - 1] == '>'
  {
    "<a href=\"" + r.url + "\">" + r.name + "</a>"
  }

  /** `object_type.split('.')[-1]`. */
  function ObjectClass(objectType: string): string {
    var parts := Split(objectType, '.');
    parts[|parts| - 1]
  }

  /** A `MESSAGES` template: the text before and after `{object}`. */
  datatype Template = Template(before: string, after: string)

  /** `MESSAGES.get((verb, class))`. */
  function KnownTemplate(verb: string, kind: Kind): Option<Template> {
    if verb == "post" && kind == ThreadKind then Some(Template("has started conversation \"", "\""))
    else if verb == "post" && kind == PostKind then Some(Template("has participated in conversation \"", "\""))
    else if verb == "post" && kind == DocumentKind then Some(Template("has published document \"", "\""))
    else if verb == "post" && kind == WikiPageKind then Some(Template("has created wiki page \"", "\""))
    else if verb == "update" && kind == DocumentKind then Some(Template("has updated document \"", "\""))
    else if verb == "update" && kind == WikiPageKind then Some(Template("has updated wiki page \"", "\""))
    else if verb == "update" && kind == CommunityKind then Some(Template("has updated community \"", "\""))
    else if verb == "join" && kind == CommunityKind then Some(Template("has joined the community ", "."))
    else if verb == "leave" && kind == CommunityKind then Some(Template("has left the community ", "."))
    else None
  }

  /** Every template ends with a quote or, for joining and leaving, a period. */
  lemma TemplateEnds(verb: string, kind: Kind)
    requires KnownTemplate(verb, kind).Some?
    ensures var t := KnownTemplate(verb, kind).value;
            t.after == "\"" || t.after == "."
  {
  }

  /** Whether the sentence names the community: a known template or a post, with a target,
      unless the caller asks to leave the community out. */
  predicate NamesCommunity(e: Entry, ignoreCommunity: bool) {
    (KnownTemplate(e.verb, e.kind).Some? || e.verb == "post") && e.target.Some? && !ignoreCommunity
  }

  /** The sentence before its closing, for known templates and posts. */
  function Opening(e: Entry): string {
    match KnownTemplate(e.verb, e.kind)
    case Some(t) => t.before + Link(e.obj) + t.after
    case None => "has posted an object of type " + ObjectClass(e.objectType) + " called \"" + Link(e.obj) + "\""
  }

  /** " in the community {target}." */
  function InCommunity(target: Ref): string {
    " in the community " + Link(target) + "."
  }

  /** The sentences of the other verbs, which have no closing. */
  function Fallback(e: Entry): string {
    if e.verb == "join" then "has joined the community " + Link(e.obj) + "."
    else if e.verb == "leave" then "has left the community " + Link(e.obj) + "."
    else if e.verb == "update" then "has updated " + ObjectClass(e.objectType) + " " + Link(e.obj) + "."
    else "has done action \"" + e.verb + "\" on object \"" + Link(e.obj) + "\"."
  }

  /** `ActivityEntryPresenter.message`, as written: a known template or a post, followed by
      " in the community {target}." or "."; otherwise the sentence of the verb. */
  function Message(e: Entry, ignoreCommunity: bool): string {
    if KnownTemplate(e.verb, e.kind).Some? || e.verb == "post" then
      Opening(e) + (if e.target.Some? && !ignoreCommunity then InCommunity(e.target.value) else ".")
    else Fallback(e)
  }

  /** Every sentence ends with a period, and a known template or a post with a target ends
      by naming the community unless `ignoreCommunity` is set. */
  lemma MessageEnds(e: Entry, ignoreCommunity: bool)
    ensures var r := Message(e, ignoreCommunity); |r| > 1 && r[|r| - 1] == '.'
    ensures NamesCommunity(e, ignoreCommunity) ==>
              EndsWith(Message(e, ignoreCommunity), InCommunity(e.target.value))
  {
    if KnownTemplate(e.verb, e.kind).Some? || e.verb == "post" {
      if e.target.Some? && !ignoreCommunity {
        ClosingFacts(Opening(e), e.target.value);
      } else {
        LastOfAppend(Opening(e), ".");
      }
    } else {
      FallbackEnd(e);
    }
  }

  lemma EndsWithAppend(a: string, b: string)
    ensures EndsWith(a + b, b)
  {
    assert (a + b)[|a + b| - |b|..] == b;
  }

  /** The last characters of `a + b` when `b` ends with a period. */
  lemma LastOfAppend(a: string, b: string)
    requires |a| > 0 && |b| > 0 && b[|b| - 1] == '.'
    ensures var r := a + b; |r| > 1 && r[|r| - 1] == '.'
    ensures var r := a + b; |b| == 1 ==> r[|r| - 2] == a[|a| - 1]
    ensures var r := a + b; |b| > 1 ==> r[|r| - 2] == b[|b| - 2]
  {
  }

  /** Asking to leave the community out is the same as having no target. */
  lemma IgnoreCommunityDropsTarget(e: Entry)
    ensures Message(e, true) == Message(e.(target := None), false)
  {
  }

  /** The join and leave templates already end with a period, and `message` appends
      another: without the community the sentence ends with two periods. */
  lemma JoinEndsWithTwoPeriods(e: Entry, ignoreCommunity: bool)
    requires (e.verb == "join" || e.verb == "leave") && e.kind == CommunityKind
    requires e.target.None? || ignoreCommunity
    ensures EndsWith(Message(e, ignoreCommunity), "..")
  {
    var t := KnownTemplate(e.verb, e.kind).value;
    var o := t.before + Link(e.obj);
    assert Message(e, ignoreCommunity) == o + ".." by {
      assert t.after == ".";
      assert Opening(e) == o + ".";
    }
    EndsWithAppend(o, "..");
  }

  /** `message` without the second period: a template that already ends with one is not
      given another when the community is left out. */
  function CorrectedMessage(e: Entry, ignoreCommunity: bool): string {
    if KnownTemplate(e.verb, e.kind).Some? || e.verb == "post" then
      var t := KnownTemplate(e.verb, e.kind);
      if e.target.Some? && !ignoreCommunity then Opening(e) + InCommunity(e.target.value)
      else if t.Some? && t.value.after == "." then Opening(e)
      else Opening(e) + "."
    else Fallback(e)
  }

  /** The corrected sentence differs from the one as written only by the doubled
      period. */
  lemma CorrectedAgrees(e: Entry, ignoreCommunity: bool)
    ensures Message(e, ignoreCommunity) == CorrectedMessage(e, ignoreCommunity)
            || Message(e, ignoreCommunity) == CorrectedMessage(e, ignoreCommunity) + "."
  {
  }

  /** The corrected sentence ends with a single period and still names the community when
      asked to. */
  lemma CorrectedMessageEnds(e: Entry, ignoreCommunity: bool)
    ensures SinglePeriod(CorrectedMessage(e, ignoreCommunity))
    ensures NamesCommunity(e, ignoreCommunity) ==>
              EndsWith(CorrectedMessage(e, ignoreCommunity), InCommunity(e.target.value))
  {
    var t := KnownTemplate(e.verb, e.kind);
    if t.Some? || e.verb == "post" {
      if e.target.Some? && !ignoreCommunity {
        ClosingFacts(Opening(e), e.target.value);
      } else if t.Some? && t.value.after == "." {
        CorrectedJoin(e, ignoreCommunity, t.value.before);
      } else {
        QuoteOpening(e);
        LastOfAppend(Opening(e), ".");
      }
    } else {
      FallbackEnd(e);
    }
  }

  /** A sentence ending with one period, not two. */
  predicate SinglePeriod(r: string) {
    |r| > 1 && r[|r| - 1] == '.' && r[|r| - 2] != '.'
  }

  lemma CorrectedJoin(e: Entry, ignoreCommunity: bool, before: string)
    requires KnownTemplate(e.verb, e.kind) == Some(Template(before, "."))
    requires !(e.target.Some? && !ignoreCommunity)
    ensures CorrectedMessage(e, ignoreCommunity) == before + Link(e.obj) + "."
    ensures SinglePeriod(CorrectedMessage(e, ignoreCommunity))
  {
    LastOfAppend(before + Link(e.obj), ".");
  }

  /** After " in the community {target}." the sentence ends with a single period. */
  lemma ClosingFacts(o: string, x: Ref)
    requires |o| > 0
    ensures SinglePeriod(o + InCommunity(x)) && EndsWith(o + InCommunity(x), InCommunity(x))
  {
    var c := InCommunity(x);
    EndsWithAppend(o, c);
    LinkThenDot(" in the community ", x);
    LastOfAppend(o, c);
  }

  /** An opening whose template does not end with a period ends with a quote. */
  lemma QuoteOpening(e: Entry)
    requires KnownTemplate(e.verb, e.kind).None? || KnownTemplate(e.verb, e.kind).value.after != "."
    ensures var o := Opening(e); |o| > 0 && o[|o| - 1] == '"'
  {
    var t := KnownTemplate(e.verb, e.kind);
    if t.Some? {
      TemplateEnds(e.verb, e.kind);
      assert t.value.after == "\"";
    }
  }

  /** A period after a link is not doubled. */
  lemma LinkThenDot(pre: string, x: Ref)
    ensures var c := pre + Link(x) + "."; |c| > 1 && c[|c| - 2] == '>'
  {
  }

  lemma FallbackEnd(e: Entry)
    ensures SinglePeriod(Fallback(e))
  {
    var l := Link(e.obj);
    if e.verb == "join" {
      LastOfAppend("has joined the community " + l, ".");
    } else if e.verb == "leave" {
      LastOfAppend("has left the community " + l, ".");
    } else if e.verb == "update" {
      LastOfAppend("has updated " + ObjectClass(e.objectType) + " " + l, ".");
    } else {
      LastOfAppend("has done action \"" + e.verb + "\" on object \"" + l + "\"", ".");
    }
  }

  // ---------------------------------------------------------------------------
  // body
  // ---------------------------------------------------------------------------

  const ExcerptLength: nat := 400

  /** The excerpt: texts longer than 400 characters are cut there and end with an
      ellipsis. */
  function Truncate(s: string): (r: string)
    ensures |s| <= ExcerptLength ==> r == s
    ensures |s| > ExcerptLength ==> |r| == ExcerptLength + 1 && r[..ExcerptLength] == s[..ExcerptLength]
                                    && r[ExcerptLength] == '\U{2026}'
    ensures |r| <= ExcerptLength + 1
  {
    if |s| > ExcerptLength then s[..ExcerptLength] + "\U{2026}" else s
  }

  /** Cutting an excerpt again keeps it as it is. */
  lemma TruncateIdempotent(s: string)
    ensures Truncate(Truncate(s)) == Truncate(s)
  {
    var r := Truncate(s);
    if |r| > ExcerptLength {
      assert r[..ExcerptLength] + "\U{2026}" == r;
    }
  }

  /** What the presenter's `body` shows: a thread shows its first post, a post itself (each
      as plain text); a document gets its own block; anything else nothing. */
  datatype Subject = ThreadSubject(postTexts: seq<string>) | PostSubject(text: string) | DocumentSubject | OtherSubject

  datatype Body = Excerpt(text: string) | DocumentBlock | NoBody

  datatype BodyError = IndexError

  function BodyOf(s: Subject): (r: Result<Body, BodyError>)
    ensures s.ThreadSubject? ==> (r.Failure? <==> |s.postTexts| == 0)
    ensures s.ThreadSubject? && r.Success? ==> r.value == Excerpt(Truncate(s.postTexts[0]))
    ensures s.PostSubject? ==> r == Success(Excerpt(Truncate(s.text)))
    ensures s.DocumentSubject? ==> r == Success(DocumentBlock)
    ensures s.OtherSubject? ==> r == Success(NoBody)
  {
    match s
    case ThreadSubject(texts) => if |texts| == 0 then Failure(IndexError) else Success(Excerpt(Truncate(texts[0])))
    case PostSubject(text) => Success(Excerpt(Truncate(text)))
    case DocumentSubject => Success(DocumentBlock)
    case OtherSubject => Success(NoBody)
  }
}
