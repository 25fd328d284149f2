/** The edit page: fill the form from a decoded badge, and on submit rebuild the tags and, when the
    original badge carried proof of work, mine them again at the original difficulty. */
module EditBadgePage {
  import opened Wrappers
  import opened Nostr
  import opened Pow
  import opened BadgeDefinitionHook
  import opened BadgeForm
  import CreateBadgePage

  /** `thumb?.url || ''`. */
  function UrlOf(t: Option<Thumb>): (r: string)
    ensures t.None? ==> r == ""
    ensures t.Some? ==> r == t.value.url.GetOr("")
  {
    match t
    case None => ""
    case Some(th) => th.url.GetOr("")
  }

  /** The URL a thumbnail slot is filled with: that of the first thumbnail of its size. */
  function SlotUrl(thumbs: seq<Thumb>, dims: string): string {
    UrlOf(FindThumb(thumbs, dims))
  }

  /** A slot holds the URL of the first thumbnail whose dimensions are exactly the slot's, or the
      empty string when no thumbnail has them. */
  lemma SlotUrlIsFirst(thumbs: seq<Thumb>, dims: string)
    ensures (forall j :: 0 <= j < |thumbs| ==> thumbs[j].dimensions != Some(dims)) ==> SlotUrl(thumbs, dims) == ""
    ensures forall j :: (0 <= j < |thumbs| && thumbs[j].dimensions == Some(dims)
                         && forall i :: 0 <= i < j ==> thumbs[i].dimensions != Some(dims)) ==>
                        SlotUrl(thumbs, dims) == thumbs[j].url.GetOr("")
  {
    var t := FindThumb(thumbs, dims);
    assert forall j :: (0 <= j < |thumbs| && thumbs[j].dimensions == Some(dims)
                        && forall i :: 0 <= i < j ==> thumbs[i].dimensions != Some(dims)) ==> t == Some(thumbs[j]);
  }

  /** The form as the page fills it from a loaded badge: every text field is the decoded value or
      the empty string, and each thumbnail slot holds its size's `SlotUrl`. */
  function FormFromBadge(b: BadgeDefinition): (v: Values)
    ensures v.d == b.d && v.name == b.name.GetOr("") && v.description == b.description.GetOr("")
    ensures v.image == b.image.GetOr("") && v.imageDimensions == b.imageDimensions.GetOr("")
    ensures forall k :: 0 <= k < |ThumbDimensions| ==> Slots(v)[k] == SlotUrl(b.thumbs, ThumbDimensions[k])
  {
    var v := Values(b.d, b.name.GetOr(""), b.description.GetOr(""), b.image.GetOr(""), b.imageDimensions.GetOr(""),
                    SlotUrl(b.thumbs, "512x512"), SlotUrl(b.thumbs, "256x256"), SlotUrl(b.thumbs, "64x64"),
                    SlotUrl(b.thumbs, "32x32"), SlotUrl(b.thumbs, "16x16"));
    assert ThumbDimensions[0] == "512x512" && ThumbDimensions[1] == "256x256" && ThumbDimensions[2] == "64x64"
        && ThumbDimensions[3] == "32x32" && ThumbDimensions[4] == "16x16";
    v
  }

  /** `badge?.difficulty || 0`. */
  function OriginalDifficulty(badge: Option<BadgeDefinition>): (r: nat)
    ensures badge.None? ==> r == 0
    ensures badge.Some? ==> r == badge.value.difficulty
  {
    match badge
    case None => 0
    case Some(b) => b.difficulty
  }

  /** The event a submit publishes. Nothing without a logged-in user or when mining gives up. A
      badge without proof of work (or no badge loaded) publishes the built tags as they are;
      otherwise the built tags are followed by the nonce tag of the first attempt whose id has at
      least the original difficulty. */
  method Submit(user: Option<string>, badge: Option<BadgeDefinition>, values: Values,
                hash: Preimage -> string, clock: nat -> int, nowMs: int)
    returns (published: Option<EventTemplate>)
    ensures user.None? ==> published.None?
    ensures published.Some? ==> published.value.kind == DefinitionKind && published.value.content == ""
    ensures user.Some? && OriginalDifficulty(badge) == 0 ==>
              published == Some(EventTemplate(DefinitionKind, "", BuildDefinitionTags(values)))
    ensures user.Some? && published.Some? && OriginalDifficulty(badge) > 0 ==>
              var target := OriginalDifficulty(badge);
              var draft := CreateBadgePage.DraftEvent(user.value, BuildDefinitionTags(values), nowMs);
              exists n: nat :: n <= MaxNonce
                && published.value.tags == BuildDefinitionTags(values) + [NonceTag(n, target)]
                && AttemptDifficulty(draft, target, hash, clock, n) >= target
                && forall k :: 0 <= k < n ==> AttemptDifficulty(draft, target, hash, clock, k) < target
    ensures user.Some? && published.None? ==>
              var target := OriginalDifficulty(badge);
              var draft := CreateBadgePage.DraftEvent(user.value, BuildDefinitionTags(values), nowMs);
              target > 0 && forall k :: 0 <= k <= MaxNonce ==> AttemptDifficulty(draft, target, hash, clock, k) < target
  {
    if user.None? {
      return None;
    }
    var tags := BuildDefinitionTags(values);
    var originalDifficulty := OriginalDifficulty(badge);
    if originalDifficulty > 0 {
      var draft := CreateBadgePage.DraftEvent(user.value, tags, nowMs);
      var mined, nonce, _ := MineEvent(draft, originalDifficulty, hash, clock);
      if mined.Failure? {
        return None;
      }
      SelectAll(tags, "nonce", false);
      var nonceTag := FindTag(mined.value.tags, "nonce");
      FindNonceAfterStrip(tags, NonceTag(nonce, originalDifficulty));
      if nonceTag.Some? {
        tags := tags + [nonceTag.value];
      }
      assert AttemptDifficulty(draft, originalDifficulty, hash, clock, nonce) >= originalDifficulty;
    }
    return Some(EventTemplate(DefinitionKind, "", tags));
  }

  /** Saving a loaded badge without touching the form keeps its identifier, text fields and image,
      and keeps, of its thumbnails, the first one of each standard size (with its URL set), in the
      order 512, 256, 64, 32, 16; other sizes and repeated sizes are dropped. */
  lemma ResaveUnchanged(b: BadgeDefinition, e: Event)
    requires e.tags == BuildDefinitionTags(FormFromBadge(b))
    ensures var r := ParseBadgeDefinition(e);
      && r.d == b.d
      && (b.name != Some("") ==> r.name == b.name)
      && (b.description != Some("") ==> r.description == b.description)
      && (b.image != Some("") ==> r.image == b.image)
      && r.thumbs == SetSlots(Slots(FormFromBadge(b)), ThumbDimensions)
  {
    DecodeBuiltTags(FormFromBadge(b), e);
  }

  /** Re-encoded thumbnails are the standard sizes only, at most one of each, each taken from the
      first thumbnail of that size. */
  lemma {:induction false} CanonicalThumbs(urls: seq<string>, dims: seq<string>, k: nat)
    requires |urls| == |dims| && k < |SetSlots(urls, dims)|
    ensures exists i :: 0 <= i < |urls| && SetSlots(urls, dims)[k] == Thumb(Some(urls[i]), Some(dims[i])) && urls[i] != ""
    decreases |urls|
  {
    if urls[0] != "" && k == 0 {
      assert SetSlots(urls, dims)[0] == Thumb(Some(urls[0]), Some(dims[0]));
    } else {
      var head := if urls[0] != "" then 1 else 0;
      assert SetSlots(urls, dims)[k] == SetSlots(urls[1..], dims[1..])[k - head];
      CanonicalThumbs(urls[1..], dims[1..], k - head);
      var i :| 0 <= i < |urls[1..]| && SetSlots(urls[1..], dims[1..])[k - head] == Thumb(Some(urls[1..][i]), Some(dims[1..][i])) && urls[1..][i] != "";
      assert SetSlots(urls, dims)[k] == Thumb(Some(urls[i + 1]), Some(dims[i + 1]));
    }
  }
}
