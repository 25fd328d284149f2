/** The create page's submit handler: build the definition tags, mine them when the chosen rarity
    asks for proof of work, and publish a kind 30009 event. */
module CreateBadgePage {
  import opened Wrappers
  import opened Nostr
  import opened Pow
  import opened BadgeForm
  import BadgeDefinitionHook

  /** The unsigned event handed to the miner: kind 30009, empty content, the built tags and the
      submit time in whole seconds. */
  function DraftEvent(pubkey: string, tags: seq<Tag>, nowMs: int): (e: Event)
    ensures e.kind == DefinitionKind && e.content == "" && e.tags == tags && e.pubkey == pubkey
    ensures e.createdAt * 1000 <= nowMs < e.createdAt * 1000 + 1000
  {
    Event("", pubkey, Seconds(nowMs), DefinitionKind, tags, "", "")
  }

  /** The event a submit publishes. Nothing without a logged-in user, and nothing when mining gives
      up (the page then waits forever). A Common badge publishes the built tags as they are; any
      other rarity publishes them followed by the nonce tag of an attempt that met the rarity's
      difficulty, and only after every earlier attempt fell short. */
  method Submit(user: Option<string>, values: Values, rarity: Rarity,
                hash: Preimage -> string, clock: nat -> int, nowMs: int)
    returns (published: Option<EventTemplate>)
    ensures user.None? ==> published.None?
    ensures published.Some? ==> published.value.kind == DefinitionKind && published.value.content == ""
    ensures user.Some? && BadgeRarity(rarity).difficulty == 0 ==>
              published == Some(EventTemplate(DefinitionKind, "", BuildDefinitionTags(values)))
    ensures user.Some? && published.Some? && BadgeRarity(rarity).difficulty > 0 ==>
              var target := BadgeRarity(rarity).difficulty;
              var draft := DraftEvent(user.value, BuildDefinitionTags(values), nowMs);
              exists n: nat :: n <= MaxNonce
                && published.value.tags == BuildDefinitionTags(values) + [NonceTag(n, target)]
                && AttemptDifficulty(draft, target, hash, clock, n) >= target
                && forall k :: 0 <= k < n ==> AttemptDifficulty(draft, target, hash, clock, k) < target
    ensures user.Some? && published.None? ==>
              var target := BadgeRarity(rarity).difficulty;
              var draft := DraftEvent(user.value, BuildDefinitionTags(values), nowMs);
              target > 0 && forall k :: 0 <= k <= MaxNonce ==> AttemptDifficulty(draft, target, hash, clock, k) < target
  {
    if user.None? {
      return None;
    }
    var tags := BuildDefinitionTags(values);
    var info := BadgeRarity(rarity);
    if info.difficulty > 0 {
      var draft := DraftEvent(user.value, tags, nowMs);
      var mined, nonce, _ := MineEvent(draft, info.difficulty, hash, clock);
      if mined.Failure? {
        return None;
      }
      SelectAll(tags, "nonce", false);
      tags := mined.value.tags;
      assert AttemptDifficulty(draft, info.difficulty, hash, clock, nonce) >= info.difficulty;
    }
    return Some(EventTemplate(DefinitionKind, "", tags));
  }

  /** The nonce tag a mined badge carries does not change what the badge decodes to. */
  lemma MinedTagsDecode(values: Values, n: nat, target: int, e: Event)
    requires e.tags == BuildDefinitionTags(values) + [NonceTag(n, target)]
    ensures var b := BadgeDefinitionHook.ParseBadgeDefinition(e);
      && b.d == values.d
      && b.name == NonEmpty(values.name)
      && b.description == NonEmpty(values.description)
      && b.image == NonEmpty(values.image)
      && b.imageDimensions == (if values.image != "" then NonEmpty(values.imageDimensions) else None)
      && b.thumbs == SetSlots(Slots(values), ThumbDimensions)
  {
    var plain := e.(tags := BuildDefinitionTags(values));
    assert e.tags == BuildDefinitionTags(values) + [NonceTag(n, target)] + [];
    BadgeDefinitionHook.OtherTagIgnored(e, BuildDefinitionTags(values), NonceTag(n, target), []);
    assert BuildDefinitionTags(values) + [] == BuildDefinitionTags(values);
    DecodeBuiltTags(values, plain);
  }

  /** An event whose id meets the chosen rarity's difficulty decodes to that rarity or a rarer one. */
  lemma MinedRarityAtLeast(e: Event, rarity: Rarity)
    requires CountLeadingZeroes(e.id) >= BadgeRarity(rarity).difficulty
    ensures Rank(BadgeDefinitionHook.ParseBadgeDefinition(e).rarity) >= Rank(rarity)
  {
  }
}
