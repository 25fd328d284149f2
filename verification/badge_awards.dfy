/** The NIP-58 badge award decoder (kind 8) and the record it produces. */
module BadgeAwardsHook {
  import opened Wrappers
  import opened Nostr

  /** A recipient: the `p` tag's key and optional relay hint. */
  datatype Recipient = Recipient(pubkey: Option<string>, relay: Option<string>)

  /** The decoded award. */
  datatype BadgeAward = BadgeAward(
    id: string,
    pubkey: string,
    badgeAddress: string,
    awardedTo: seq<Recipient>,
    event: Event)

  /** `([, pubkey, relay]) => ({ pubkey, relay })`. */
  function RecipientOf(t: Tag): Recipient {
    Recipient(At(t, 1), At(t, 2))
  }

  /** `tags.filter(([n]) => n === 'p').map(RecipientOf)`. */
  function RecipientsOf(tags: seq<Tag>): (r: seq<Recipient>)
    ensures |r| == |Select(tags, "p", true)|
  {
    var ps := Select(tags, "p", true);
    seq(|ps|, k requires 0 <= k < |ps| => RecipientOf(ps[k]))
  }

  /** Recipients of joined tag lists are the joined recipients, and a single tag contributes one
      recipient exactly when it is a `p` tag: one entry per `p` tag, in order, duplicates kept. */
  lemma RecipientsOfAppend(a: seq<Tag>, b: seq<Tag>)
    ensures RecipientsOf(a + b) == RecipientsOf(a) + RecipientsOf(b)
  {
    SelectAppend(a, b, "p", true);
  }

  lemma RecipientsOfOne(t: Tag)
    ensures RecipientsOf([t]) == if Named(t, "p") then [RecipientOf(t)] else []
  {
    assert [t][1..] == [];
  }

  /** `parseBadgeAward`. */
  function ParseBadgeAward(event: Event): (a: BadgeAward)
    ensures a.id == event.id && a.pubkey == event.pubkey && a.event == event
    ensures Lacks(event.tags, "a") ==> a.badgeAddress == ""
    ensures forall i :: IsFirst(event.tags, "a", i) ==> a.badgeAddress == At(event.tags[i], 1).GetOr("")
    ensures a.awardedTo == RecipientsOf(event.tags)
  {
    var tags := event.tags;
    var badgeAddress := match FindTag(tags, "a") case Some(t) => At(t, 1).GetOr("") case None => "";
    BadgeAward(event.id, event.pubkey, badgeAddress, RecipientsOf(tags), event)
  }

  /** A tag other than `a` and `p`, wherever it sits, changes neither address nor recipients. */
  lemma OtherTagIgnored(e: Event, before: seq<Tag>, t: Tag, after: seq<Tag>)
    requires e.tags == before + [t] + after
    requires !Named(t, "a") && !Named(t, "p")
    ensures ParseBadgeAward(e).badgeAddress == ParseBadgeAward(e.(tags := before + after)).badgeAddress
    ensures ParseBadgeAward(e).awardedTo == ParseBadgeAward(e.(tags := before + after)).awardedTo
  {
    FindTagSkip(before, t, after, "a");
    SelectSkip(before, t, after, "p", true);
  }

  /** The worked example: an address tag and two `p` tags, the second with a relay hint. */
  lemma AwardExample(e: Event)
    requires e.tags == [["a", "30009:ISSUER:bravery"], ["p", "ALICE"], ["p", "BOB", "wss://relay"]]
    ensures ParseBadgeAward(e).badgeAddress == "30009:ISSUER:bravery"
    ensures ParseBadgeAward(e).awardedTo ==
      [Recipient(Some("ALICE"), None), Recipient(Some("BOB"), Some("wss://relay"))]
  {
    assert IsFirst(e.tags, "a", 0);
    var t0: Tag := ["a", "30009:ISSUER:bravery"];
    var t1: Tag := ["p", "ALICE"];
    var t2: Tag := ["p", "BOB", "wss://relay"];
    assert e.tags == [t0] + [t1] + [t2];
    RecipientsOfAppend([t0] + [t1], [t2]);
    RecipientsOfAppend([t0], [t1]);
    RecipientsOfOne(t0);
    RecipientsOfOne(t1);
    RecipientsOfOne(t2);
  }

  /** `events.map(parseBadgeAward)`: one award per event, in the same order. */
  function ParseAll(events: seq<Event>): (r: seq<BadgeAward>)
    ensures |r| == |events|
    ensures forall k :: 0 <= k < |events| ==> r[k] == ParseBadgeAward(events[k])
    decreases |events|
  {
    if |events| == 0 then [] else [ParseBadgeAward(events[0])] + ParseAll(events[1..])
  }
}
