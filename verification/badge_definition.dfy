/** The NIP-58 badge definition decoder (kind 30009) and the record it produces. */
module BadgeDefinitionHook {
  import opened Wrappers
  import opened Nostr
  import opened Pow

  /** A thumbnail: `url` and optional `WxH` dimensions, either absent when its tag is short. */
  datatype Thumb = Thumb(url: Option<string>, dimensions: Option<string>)

  /** The decoded badge definition. */
  datatype BadgeDefinition = BadgeDefinition(
    id: string,
    pubkey: string,
    d: string,
    name: Option<string>,
    description: Option<string>,
    image: Option<string>,
    imageDimensions: Option<string>,
    thumbs: seq<Thumb>,
    difficulty: nat,
    rarity: Rarity,
    event: Event)

  /** `tags.find(([n]) => n === name)?.[i]`. */
  function FirstValue(tags: seq<Tag>, name: string, i: nat): (r: Option<string>)
    ensures Lacks(tags, name) ==> r == None
    ensures forall k :: IsFirst(tags, name, k) ==> r == At(tags[k], i)
  {
    match FindTag(tags, name)
    case Some(t) => At(t, i)
    case None => None
  }

  /** `([, url, dimensions]) => ({ url, dimensions })`. */
  function ThumbOf(t: Tag): Thumb {
    Thumb(At(t, 1), At(t, 2))
  }

  /** `tags.filter(([n]) => n === 'thumb').map(ThumbOf)`. */
  function ThumbsOf(tags: seq<Tag>): (r: seq<Thumb>)
    ensures |r| == |Select(tags, "thumb", true)|
  {
    var ts := Select(tags, "thumb", true);
    seq(|ts|, k requires 0 <= k < |ts| => ThumbOf(ts[k]))
  }

  /** Thumbnails of joined tag lists are the joined thumbnails, and a single tag contributes one
      thumbnail exactly when it is a `thumb` tag: one entry per thumb tag, in tag order. */
  lemma ThumbsOfAppend(a: seq<Tag>, b: seq<Tag>)
    ensures ThumbsOf(a + b) == ThumbsOf(a) + ThumbsOf(b)
  {
    SelectAppend(a, b, "thumb", true);
  }

  lemma ThumbsOfOne(t: Tag)
    ensures ThumbsOf([t]) == if Named(t, "thumb") then [ThumbOf(t)] else []
  {
    assert [t][1..] == [];
  }

  /** `thumbs.find((t) => t.dimensions === dims)`. */
  function FindThumb(thumbs: seq<Thumb>, dims: string): (r: Option<Thumb>)
    ensures r.None? <==> forall j :: 0 <= j < |thumbs| ==> thumbs[j].dimensions != Some(dims)
    ensures r.Some? ==> exists j :: 0 <= j < |thumbs| && r.value == thumbs[j] && thumbs[j].dimensions == Some(dims)
                          && forall i :: 0 <= i < j ==> thumbs[i].dimensions != Some(dims)
    decreases |thumbs|
  {
    if |thumbs| == 0 then None
    else if thumbs[0].dimensions == Some(dims) then Some(thumbs[0])
    else
      var r := FindThumb(thumbs[1..], dims);
      assert r.Some? ==> exists j :: 0 < j < |thumbs| && r.value == thumbs[j] && thumbs[j].dimensions == Some(dims)
                          && forall i :: 0 <= i < j ==> thumbs[i].dimensions != Some(dims);
      r
  }

  /** `parseBadgeDefinition` in useBadgeDefinition.ts. */
  function ParseBadgeDefinition(event: Event): (b: BadgeDefinition)
    ensures b.id == event.id && b.pubkey == event.pubkey && b.event == event
    ensures b.thumbs == ThumbsOf(event.tags)
    ensures b.difficulty <= 4 * |event.id|
    ensures BadgeRarity(b.rarity).difficulty <= b.difficulty
    ensures b.difficulty == CountLeadingZeroes(event.id) && b.rarity == GetRarityByDifficulty(b.difficulty)
  {
    var tags := event.tags;
    var d := FirstValue(tags, "d", 1).GetOr("");
    var name := FirstValue(tags, "name", 1);
    var description := FirstValue(tags, "description", 1);
    var imageTag := FindTag(tags, "image");
    var image := if imageTag.Some? then At(imageTag.value, 1) else None;
    var imageDimensions := if imageTag.Some? then At(imageTag.value, 2) else None;
    var thumbs := ThumbsOf(tags);
    var difficulty := CountLeadingZeroes(event.id);
    var rarity := GetRarityByDifficulty(difficulty);
    BadgeDefinition(event.id, event.pubkey, d, name, description, image, imageDimensions,
                    thumbs, difficulty, rarity, event)
  }

  /** The text fields come from the first tag of their name: `d` is its element 1 or `''`, name
      and description its element 1, image and dimensions elements 1 and 2 of the first `image`
      tag; later tags of the same name are ignored and a missing tag decodes as absent. */
  lemma DecodedFields(event: Event)
    ensures var b := ParseBadgeDefinition(event);
      && (Lacks(event.tags, "d") ==> b.d == "")
      && (forall i :: IsFirst(event.tags, "d", i) ==> b.d == At(event.tags[i], 1).GetOr(""))
      && (Lacks(event.tags, "name") ==> b.name == None)
      && (forall i :: IsFirst(event.tags, "name", i) ==> b.name == At(event.tags[i], 1))
      && (Lacks(event.tags, "description") ==> b.description == None)
      && (forall i :: IsFirst(event.tags, "description", i) ==> b.description == At(event.tags[i], 1))
      && (Lacks(event.tags, "image") ==> b.image == None && b.imageDimensions == None)
      && (forall i :: IsFirst(event.tags, "image", i) ==>
            b.image == At(event.tags[i], 1) && b.imageDimensions == At(event.tags[i], 2))
  {
  }

  /** Difficulty and rarity depend on the event id alone. */
  lemma RarityFromIdOnly(e1: Event, e2: Event)
    requires e1.id == e2.id
    ensures ParseBadgeDefinition(e1).difficulty == ParseBadgeDefinition(e2).difficulty == CountLeadingZeroes(e1.id)
    ensures ParseBadgeDefinition(e1).rarity == ParseBadgeDefinition(e2).rarity
  {
  }

  /** The tag names the decoder reads. */
  predicate IsDefinitionTagName(n: string) {
    n == "d" || n == "name" || n == "description" || n == "image" || n == "thumb"
  }

  /** The decoded fields, without the event they came from. */
  function Fields(b: BadgeDefinition): (string, Option<string>, Option<string>, Option<string>, Option<string>, seq<Thumb>, nat, Rarity) {
    (b.d, b.name, b.description, b.image, b.imageDimensions, b.thumbs, b.difficulty, b.rarity)
  }

  /** A tag with any other name (a `nonce`, say), wherever it sits, changes no decoded field. */
  lemma OtherTagIgnored(e: Event, before: seq<Tag>, t: Tag, after: seq<Tag>)
    requires e.tags == before + [t] + after
    requires |t| == 0 || !IsDefinitionTagName(t[0])
    ensures Fields(ParseBadgeDefinition(e)) == Fields(ParseBadgeDefinition(e.(tags := before + after)))
  {
    var rest := before + after;
    FindTagSkip(before, t, after, "d");
    FindTagSkip(before, t, after, "name");
    FindTagSkip(before, t, after, "description");
    FindTagSkip(before, t, after, "image");
    SelectSkip(before, t, after, "thumb", true);
  }
}
