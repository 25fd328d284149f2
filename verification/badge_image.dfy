/** The badge image component: which source it shows for a requested size. */
module BadgeImageView {
  import opened Wrappers
  import opened BadgeDefinitionHook

  /** The component's size prop. */
  datatype Size = XS | S | M | L | XL | Full

  /** `sizeMap`: the thumbnail dimensions each size asks for. */
  function SizeMap(size: Size): string {
    match size
    case XS => "16x16"
    case S => "32x32"
    case M => "64x64"
    case L => "256x256"
    case XL => "512x512"
    case Full => "1024x1024"
  }

  /** Distinct sizes ask for distinct dimensions. */
  lemma SizeMapInjective(a: Size, b: Size)
    requires SizeMap(a) == SizeMap(b)
    ensures a == b
  {
  }

  /** A string JavaScript treats as true: set and non-empty. */
  predicate Truthy(s: Option<string>) {
    s.Some? && s.value != ""
  }

  /** The source the effect picks on a fresh mount: for the full size an image wins; otherwise the
      first thumbnail of the size's dimensions, else the first thumbnail, else the image; with no
      image and no thumbnail, none. */
  function ImageSource(b: BadgeDefinition, size: Size): (r: Option<string>)
    ensures r.Some? ==> r == b.image || exists j :: 0 <= j < |b.thumbs| && r == b.thumbs[j].url
    ensures size == Full && Truthy(b.image) ==> r == b.image
    ensures !(size == Full && Truthy(b.image)) ==>
              forall j :: (0 <= j < |b.thumbs| && b.thumbs[j].dimensions == Some(SizeMap(size))
                           && forall i :: 0 <= i < j ==> b.thumbs[i].dimensions != Some(SizeMap(size))) ==>
                          r == b.thumbs[j].url
    ensures !(size == Full && Truthy(b.image)) && |b.thumbs| > 0
            && (forall j :: 0 <= j < |b.thumbs| ==> b.thumbs[j].dimensions != Some(SizeMap(size))) ==>
              r == b.thumbs[0].url
    ensures |b.thumbs| == 0 ==> r == if Truthy(b.image) then b.image else None
  {
    if size == Full && Truthy(b.image) then b.image
    else
      match FindThumb(b.thumbs, SizeMap(size))
      case Some(t) => t.url
      case None =>
        if |b.thumbs| > 0 then b.thumbs[0].url
        else if Truthy(b.image) then b.image
        else None
  }

  /** `!imgSrc`: the placeholder renders when no source, or an empty one, was picked. */
  predicate ShowsPlaceholder(b: BadgeDefinition, size: Size) {
    !Truthy(ImageSource(b, size))
  }

  /** A badge with neither image nor thumbnails shows the placeholder at every size, and one with a
      set image never does when it has no thumbnails. */
  lemma PlaceholderExactlyWithoutSources(b: BadgeDefinition, size: Size)
    requires |b.thumbs| == 0
    ensures ShowsPlaceholder(b, size) <==> !Truthy(b.image)
  {
  }
}
