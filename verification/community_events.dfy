/** The activity-stream listener that keeps community counters up to date
    (communities/events.py, both variants; they behave identically). The clock is the `now`
    parameter. */
module CommunityEvents {
  import opened Wrappers
  import opened Communities

  /** What an activity's object or target is, as far as the listener distinguishes. */
  datatype Entity = CommunityEntity(c: Community) | DocumentEntity | OtherEntity

  /** The change the listener makes to the document counter for a verb. */
  function CountDelta(verb: string): (d: int)
    ensures -1 <= d <= 1
  {
    if verb == "post" then 1 else if verb == "delete" then -1 else 0
  }

  /** `update_community`: an activity on a community touches it and nothing else; an
      activity targeting a community touches it and, for a document, counts a "post" as one
      more document and a "delete" as one fewer. Any other activity involves no community.
      The result is the updated community, when there is one. */
  function UpdateCommunity(verb: string, obj: Entity, target: Option<Entity>, now: int): (r: Option<Community>)
    ensures r.Some? <==> obj.CommunityEntity? || (target.Some? && target.value.CommunityEntity?)
    ensures obj.CommunityEntity? ==> r == Some(obj.c.(lastActiveAt := now))
    ensures !obj.CommunityEntity? && r.Some? ==>
              var c := target.value.c;
              r.value.lastActiveAt == now
              && r.value.documentCount == c.documentCount + (if obj.DocumentEntity? then CountDelta(verb) else 0)
              && r.value == c.(lastActiveAt := now, documentCount := r.value.documentCount)
  {
    match obj
    case CommunityEntity(c) => Some(c.(lastActiveAt := now))
    case _ =>
      if target.Some? && target.value.CommunityEntity? then
        var c := target.value.c.(lastActiveAt := now);
        if obj.DocumentEntity? && verb == "post" then Some(c.(documentCount := c.documentCount + 1))
        else if obj.DocumentEntity? && verb == "delete" then Some(c.(documentCount := c.documentCount - 1))
        else Some(c)
      else None
  }

  /** Posting a document to a community and deleting it again restores the counter, and
      other verbs leave it alone. */
  lemma PostThenDelete(c: Community, now: int, later: int, verb: string)
    ensures var c1 := UpdateCommunity("post", DocumentEntity, Some(CommunityEntity(c)), now).value;
            var c2 := UpdateCommunity("delete", DocumentEntity, Some(CommunityEntity(c1)), later).value;
            c1.documentCount == c.documentCount + 1
            && c2 == c.(lastActiveAt := later)
    ensures verb != "post" && verb != "delete" ==>
              UpdateCommunity(verb, DocumentEntity, Some(CommunityEntity(c)), now) == Some(c.(lastActiveAt := now))
  {
  }
}
