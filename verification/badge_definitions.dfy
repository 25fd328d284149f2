/** The badge-definition list hook: its own copy of the decoder and the map over query results. */
module BadgeDefinitionsHook {
  import opened Wrappers
  import opened Nostr
  import opened Pow
  import BadgeDefinitionHook

  /** `parseBadgeDefinition` in useBadgeDefinitions.ts, a second copy of the decoder. */
  function ParseBadgeDefinition(event: Event): BadgeDefinitionHook.BadgeDefinition {
    var tags := event.tags;
    var d := BadgeDefinitionHook.FirstValue(tags, "d", 1).GetOr("");
    var name := BadgeDefinitionHook.FirstValue(tags, "name", 1);
    var description := BadgeDefinitionHook.FirstValue(tags, "description", 1);
    var imageTag := FindTag(tags, "image");
    var image := if imageTag.Some? then At(imageTag.value, 1) else None;
    var imageDimensions := if imageTag.Some? then At(imageTag.value, 2) else None;
    var thumbs := BadgeDefinitionHook.ThumbsOf(tags);
    var difficulty := CountLeadingZeroes(event.id);
    var rarity := GetRarityByDifficulty(difficulty);
    BadgeDefinitionHook.BadgeDefinition(event.id, event.pubkey, d, name, description, image,
                                        imageDimensions, thumbs, difficulty, rarity, event)
  }

  /** The two copies decode every event identically. */
  lemma CopiesAgree(event: Event)
    ensures ParseBadgeDefinition(event) == BadgeDefinitionHook.ParseBadgeDefinition(event)
  {
  }

  /** `events.map(parseBadgeDefinition)`: one definition per event, in the same order. */
  function ParseAll(events: seq<Event>): (r: seq<BadgeDefinitionHook.BadgeDefinition>)
    ensures |r| == |events|
    ensures forall k :: 0 <= k < |events| ==> r[k] == ParseBadgeDefinition(events[k])
  {
    seq(|events|, k requires 0 <= k < |events| => ParseBadgeDefinition(events[k]))
  }
}
