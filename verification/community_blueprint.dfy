/** The community blueprint (communities/blueprint.py): URL-prefix normalisation, pulling
    the community named in the URL, and the access check run before each request. The
    request globals and the slug lookup are parameters. */
module CommunityBlueprint {
  import opened Wrappers
  import opened Communities
  import CommunitySecurity

  /** `_BASE_URL_PREFIX` and `_ROUTE_PARAM`. */
  const BaseUrlPrefix: string := "/communities"
  const RouteParam: string := "<string:community_id>"

  /** A "/" in front of a prefix that is empty or lacks one. */
  function Slashed(p: string): (r: string)
    ensures |r| > 0 && r[0] == '/'
    ensures r == p || r == "/" + p
  {
    if p == "" || p[0] != '/' then "/" + p else p
  }

  /** The prefix before its trailing "/" is removed. */
  function PrefixBeforeTrim(p: string, setCommunityIdPrefix: bool): (u: string)
    ensures BaseUrlPrefix <= u
  {
    var u1 := if setCommunityIdPrefix then RouteParam + Slashed(p) else p;
    if BaseUrlPrefix <= u1 then u1 else BaseUrlPrefix + Slashed(u1)
  }

  /** `Blueprint.__init__`'s `url_prefix`: unless switched off, the route parameter comes in
      front (with a "/" between); a prefix not already under "/communities" is put under it;
      then one trailing "/" is dropped. */
  function UrlPrefix(p: string, setCommunityIdPrefix: bool): (r: string)
    ensures BaseUrlPrefix <= r
    ensures var u := PrefixBeforeTrim(p, setCommunityIdPrefix);
            (r == u && u[|u| - 1] != '/') || (r + "/" == u)
  {
    var u := PrefixBeforeTrim(p, setCommunityIdPrefix);
    if u[|u| - 1] == '/' then
      assert u[..|BaseUrlPrefix|] == BaseUrlPrefix && u[|BaseUrlPrefix| - 1] == 's';
      u[..|u| - 1]
    else u
  }

  /** With the route parameter the prefix is always "/communities/<string:community_id>"
      followed by the given prefix, slashed in front and with one trailing "/" dropped. */
  lemma UrlPrefixWithRoute(p: string)
    ensures var s := Slashed(p);
            UrlPrefix(p, true) ==
              BaseUrlPrefix + "/" + RouteParam + (if s[|s| - 1] == '/' then s[..|s| - 1] else s)
  {
    var s := Slashed(p);
    var u1 := RouteParam + s;
    assert !(BaseUrlPrefix <= u1) by { assert u1[0] == '<'; }
    var u := BaseUrlPrefix + "/" + u1;
    assert PrefixBeforeTrim(p, true) == u;
    assert u[|u| - 1] == s[|s| - 1];
    if s[|s| - 1] == '/' {
      assert u[..|u| - 1] == BaseUrlPrefix + "/" + RouteParam + s[..|s| - 1];
    }
  }

  /** A normalised prefix without a trailing "/" is a fixed point of the normalisation with
      the route parameter switched off. */
  lemma UrlPrefixFixedPoint(p: string, setCommunityIdPrefix: bool)
    ensures var r := UrlPrefix(p, setCommunityIdPrefix);
            r[|r| - 1] != '/' ==> UrlPrefix(r, false) == r
  {
  }

  /** What `pull_community` leaves behind: the remaining URL values, the request's community,
      and the labels of the breadcrumb items it appended. */
  datatype Pulled = Pulled(values: map<string, string>, community: Option<Community>, crumbs: seq<string>)

  datatype PullError = NotFound

  /** `pull_community`: the "Communities" crumb always comes first. Without a `community_id`
      value nothing else happens; a slug that names no community is NotFound; otherwise the
      value is consumed, the community becomes the request's, and its name is the next crumb. */
  function PullCommunity(values: map<string, string>, bySlug: string -> Option<Community>): (r: Result<Pulled, PullError>)
    ensures "community_id" !in values ==> r == Success(Pulled(values, None, ["Communities"]))
    ensures "community_id" in values ==>
              (r.Failure? <==> bySlug(values["community_id"]).None?)
    ensures r.Success? && "community_id" in values ==>
              var c := bySlug(values["community_id"]).value;
              r.value == Pulled(values - {"community_id"}, Some(c), ["Communities", c.name])
  {
    if "community_id" !in values then Success(Pulled(values, None, ["Communities"]))
    else
      match bySlug(values["community_id"])
      case None => Failure(NotFound)
      case Some(c) => Success(Pulled(values - {"community_id"}, Some(c), ["Communities", c.name]))
  }

  /** The blueprint's `before_request` check: outside a community nothing is checked; inside
      one, `check_access` for the current user. */
  function BeforeRequest(pulled: Pulled, current: CommunitySecurity.User, admins: set<UserId>)
    : (r: Result<(), CommunitySecurity.AccessError>)
    ensures pulled.community.None? ==> r.Success?
    ensures pulled.community.Some? ==>
              (r.Success? <==> CommunitySecurity.HasAccess(pulled.community, None, current, None, admins))
  {
    if pulled.community.None? then Success(())
    else CommunitySecurity.CheckAccess(pulled.community, None, current, None, admins)
  }

  /** A request under a community URL reaches the view only for an existing community of
      which the logged-in user is a member, or for an admin. */
  lemma CommunityRequestNeedsMembership(values: map<string, string>, bySlug: string -> Option<Community>,
                                        u: UserId, admins: set<UserId>)
    requires "community_id" in values && u !in admins
    ensures var p := PullCommunity(values, bySlug);
            p.Success? && BeforeRequest(p.value, CommunitySecurity.Known(u), admins).Success? ==>
              bySlug(values["community_id"]).Some? && HasMember(bySlug(values["community_id"]).value, u)
  {
  }
}
