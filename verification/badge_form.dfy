/** The badge definition form and the tag list both the create and the edit page build from it. */
module BadgeForm {
  import opened Wrappers
  import opened Nostr
  import opened BadgeDefinitionHook

  /** The form's fields; an empty string is an unset field. */
  datatype Values = Values(
    d: string,
    name: string,
    description: string,
    image: string,
    imageDimensions: string,
    thumb512: string,
    thumb256: string,
    thumb64: string,
    thumb32: string,
    thumb16: string)

  /** The thumbnail slots' dimension strings, in the order their tags are emitted. */
  const ThumbDimensions: seq<string> := ["512x512", "256x256", "64x64", "32x32", "16x16"]

  /** The thumbnail slot URLs, in the same order. */
  function Slots(v: Values): (r: seq<string>)
    ensures |r| == |ThumbDimensions|
  {
    [v.thumb512, v.thumb256, v.thumb64, v.thumb32, v.thumb16]
  }

  /** `if (value) tags.push([name, value])`. */
  function OptionalTag(name: string, value: string): seq<Tag> {
    if value != "" then [[name, value]] else []
  }

  /** The `image` tag: only with an image, with the dimensions only when they are set. */
  function ImageTags(image: string, dims: string): seq<Tag> {
    if image == "" then []
    else if dims != "" then [["image", image, dims]]
    else [["image", image]]
  }

  /** `if (url) tags.push(['thumb', url, dims])`. */
  function ThumbTag(url: string, dims: string): seq<Tag> {
    if url != "" then [["thumb", url, dims]] else []
  }

  /** One `thumb` tag per set slot, in slot order. */
  function SlotTags(urls: seq<string>, dims: seq<string>): (r: seq<Tag>)
    requires |urls| == |dims|
    ensures forall k :: 0 <= k < |r| ==> |r[k]| == 3 && r[k][0] == "thumb"
    decreases |urls|
  {
    if |urls| == 0 then [] else ThumbTag(urls[0], dims[0]) + SlotTags(urls[1..], dims[1..])
  }

  /** The thumbnail tags, largest first. */
  function ThumbTags(v: Values): seq<Tag> {
    SlotTags(Slots(v), ThumbDimensions)
  }

  /** The definition tags built on submit: the `d` tag first, then each optional tag only when
      its field is set, thumbnails in the fixed order 512, 256, 64, 32, 16. No `nonce` tag. */
  function BuildDefinitionTags(v: Values): (tags: seq<Tag>)
    ensures 1 <= |tags| && tags[0] == ["d", v.d]
    ensures forall k :: 0 <= k < |tags| ==> |tags[k]| >= 2 && !Named(tags[k], "nonce")
  {
    [["d", v.d]] + OptionalTag("name", v.name) + OptionalTag("description", v.description)
      + ImageTags(v.image, v.imageDimensions) + ThumbTags(v)
  }

  /** A set field, or `undefined`. */
  function NonEmpty(s: string): (r: Option<string>)
    ensures r.Some? <==> s != ""
  {
    if s == "" then None else Some(s)
  }

  /** The thumbnails of the set slots, each with its slot's dimensions, in slot order. */
  function SetSlots(urls: seq<string>, dims: seq<string>): (r: seq<Thumb>)
    requires |urls| == |dims|
    ensures |r| <= |urls|
    ensures forall k :: 0 <= k < |r| ==> r[k].url.Some? && r[k].url.value != "" && r[k].dimensions.Some? && r[k].dimensions.value in dims
    decreases |urls|
  {
    if |urls| == 0 then []
    else (if urls[0] != "" then [Thumb(Some(urls[0]), Some(dims[0]))] else []) + SetSlots(urls[1..], dims[1..])
  }

  lemma ThumbTagDecodes(url: string, dims: string)
    ensures ThumbsOf(ThumbTag(url, dims)) == if url != "" then [Thumb(Some(url), Some(dims))] else []
  {
    if url != "" {
      ThumbsOfOne(["thumb", url, dims]);
    }
  }

  /** The slot tags decode to the set slots, in slot order. */
  lemma {:induction false} SlotTagsDecode(urls: seq<string>, dims: seq<string>)
    requires |urls| == |dims|
    ensures ThumbsOf(SlotTags(urls, dims)) == SetSlots(urls, dims)
    decreases |urls|
  {
    if |urls| > 0 {
      ThumbsOfAppend(ThumbTag(urls[0], dims[0]), SlotTags(urls[1..], dims[1..]));
      ThumbTagDecodes(urls[0], dims[0]);
      SlotTagsDecode(urls[1..], dims[1..]);
    }
  }

  /** The built tags, split into their five groups. */
  lemma BuiltGroups(v: Values)
    ensures BuildDefinitionTags(v)
         == [["d", v.d]] + (OptionalTag("name", v.name) + (OptionalTag("description", v.description)
              + (ImageTags(v.image, v.imageDimensions) + ThumbTags(v))))
    ensures Lacks(ThumbTags(v), "name") && Lacks(ThumbTags(v), "description") && Lacks(ThumbTags(v), "image")
  {
  }

  lemma FindName(v: Values)
    ensures FindTag(BuildDefinitionTags(v), "name") == if v.name != "" then Some(["name", v.name]) else None
  {
    BuiltGroups(v);
    var nt := OptionalTag("name", v.name);
    var rest := OptionalTag("description", v.description) + (ImageTags(v.image, v.imageDimensions) + ThumbTags(v));
    assert Lacks(rest, "name");
    FindTagAppend([["d", v.d]], nt + rest, "name");
    FindTagAppend(nt, rest, "name");
    if v.name != "" { assert IsFirst(nt, "name", 0); }
  }

  lemma FindDescription(v: Values)
    ensures FindTag(BuildDefinitionTags(v), "description")
         == if v.description != "" then Some(["description", v.description]) else None
  {
    BuiltGroups(v);
    var before := [["d", v.d]] + OptionalTag("name", v.name);
    var st := OptionalTag("description", v.description);
    var rest := ImageTags(v.image, v.imageDimensions) + ThumbTags(v);
    assert Lacks(rest, "description");
    assert Lacks(before, "description");
    assert BuildDefinitionTags(v) == before + (st + rest);
    FindTagAppend(before, st + rest, "description");
    FindTagAppend(st, rest, "description");
    if v.description != "" { assert IsFirst(st, "description", 0); }
  }

  lemma FindImage(v: Values)
    ensures FindTag(BuildDefinitionTags(v), "image")
         == if v.image != "" then Some(ImageTags(v.image, v.imageDimensions)[0]) else None
  {
    BuiltGroups(v);
    var before := [["d", v.d]] + OptionalTag("name", v.name) + OptionalTag("description", v.description);
    var it := ImageTags(v.image, v.imageDimensions);
    assert Lacks(before, "image");
    assert BuildDefinitionTags(v) == before + (it + ThumbTags(v));
    FindTagAppend(before, it + ThumbTags(v), "image");
    FindTagAppend(it, ThumbTags(v), "image");
    if v.image != "" { assert IsFirst(it, "image", 0); }
  }

  lemma BuiltThumbs(v: Values)
    ensures ThumbsOf(BuildDefinitionTags(v)) == SetSlots(Slots(v), ThumbDimensions)
  {
    var before := [["d", v.d]] + OptionalTag("name", v.name) + OptionalTag("description", v.description)
      + ImageTags(v.image, v.imageDimensions);
    assert BuildDefinitionTags(v) == before + ThumbTags(v);
    ThumbsOfAppend(before, ThumbTags(v));
    SelectNone(before, "thumb", true);
    SlotTagsDecode(Slots(v), ThumbDimensions);
  }

  /** Decoding the built tags gives back the form: `d`, the set name and description, the image
      and its dimensions, and the set thumbnails in slot order; unset fields decode as absent. */
  lemma DecodeBuiltTags(v: Values, e: Event)
    requires e.tags == BuildDefinitionTags(v)
    ensures var b := ParseBadgeDefinition(e);
      && b.d == v.d
      && b.name == NonEmpty(v.name)
      && b.description == NonEmpty(v.description)
      && b.image == NonEmpty(v.image)
      && b.imageDimensions == (if v.image != "" then NonEmpty(v.imageDimensions) else None)
      && b.thumbs == SetSlots(Slots(v), ThumbDimensions)
  {
    assert IsFirst(e.tags, "d", 0);
    FindName(v);
    FindDescription(v);
    FindImage(v);
    BuiltThumbs(v);
  }
}
