/** Nostr events and their tag lists (NIP-01), with the array operations the hooks apply to them. */
module Nostr {
  import opened Wrappers

  /** A tag: an ordered list of strings whose first element names it. */
  type Tag = seq<string>

  /** A Nostr event as the client sees it. */
  datatype Event = Event(
    id: string,
    pubkey: string,
    createdAt: int,
    kind: int,
    tags: seq<Tag>,
    content: string,
    sig: string)

  /** The fields NIP-01 serialises, `[0, pubkey, created_at, kind, tags, content]`, from which
      the event id is hashed. The hash itself is a parameter wherever it is used. */
  datatype Preimage = Preimage(pubkey: string, createdAt: int, kind: int, tags: seq<Tag>, content: string)

  function PreimageOf(e: Event): Preimage {
    Preimage(e.pubkey, e.createdAt, e.kind, e.tags, e.content)
  }

  /** What a page hands to the publisher: kind, content and tags; signing and stamping happen there. */
  datatype EventTemplate = EventTemplate(kind: int, content: string, tags: seq<Tag>)

  const DeletionKind := 5
  const AwardKind := 8
  const ProfileBadgesKind := 30008
  const DefinitionKind := 30009

  /** `t[i]`: the element, or `undefined` past the end. */
  function At(t: seq<string>, i: nat): (r: Option<string>)
    ensures r.Some? <==> i < |t|
    ensures r.Some? ==> r.value == t[i]
  {
    if i < |t| then Some(t[i]) else None
  }

  /** The tag's first element is `name` (`t[0] === name`; an empty tag has no name). */
  predicate Named(t: Tag, name: string) {
    |t| > 0 && t[0] == name
  }

  /** No tag is named `name`. */
  predicate Lacks(tags: seq<Tag>, name: string) {
    forall i :: 0 <= i < |tags| ==> !Named(tags[i], name)
  }

  /** `i` is the position of the first tag named `name`. */
  predicate IsFirst(tags: seq<Tag>, name: string, i: int) {
    0 <= i < |tags| && Named(tags[i], name) && forall j :: 0 <= j < i ==> !Named(tags[j], name)
  }

  /** The first position at or after `from` holding a tag named `name`. */
  function FindFrom(tags: seq<Tag>, name: string, from: nat): (r: Option<nat>)
    requires from <= |tags|
    ensures r.Some? ==> from <= r.value < |tags| && Named(tags[r.value], name)
    ensures r.Some? ==> forall j :: from <= j < r.value ==> !Named(tags[j], name)
    ensures r.None? ==> forall j :: from <= j < |tags| ==> !Named(tags[j], name)
    decreases |tags| - from
  {
    if from == |tags| then None
    else if Named(tags[from], name) then Some(from)
    else FindFrom(tags, name, from + 1)
  }

  /** `tags.find(([n]) => n === name)`. */
  function FindTag(tags: seq<Tag>, name: string): (r: Option<Tag>)
    ensures r.None? <==> Lacks(tags, name)
    ensures forall i :: IsFirst(tags, name, i) ==> r == Some(tags[i])
  {
    match FindFrom(tags, name, 0)
    case Some(i) => Some(tags[i])
    case None => None
  }

  /** A search over two lists joined finds in the first list if it can, else in the second. */
  lemma FindTagAppend(a: seq<Tag>, b: seq<Tag>, name: string)
    ensures FindTag(a + b, name) == if FindTag(a, name).Some? then FindTag(a, name) else FindTag(b, name)
  {
    match FindFrom(a, name, 0)
    case Some(i) =>
      assert IsFirst(a, name, i);
      assert IsFirst(a + b, name, i);
    case None =>
      match FindFrom(b, name, 0)
      case Some(j) =>
        assert IsFirst(b, name, j);
        assert IsFirst(a + b, name, |a| + j);
      case None =>
        assert Lacks(a + b, name);
  }

  /** A tag with another name, wherever it sits, does not change what a search finds. */
  lemma FindTagSkip(before: seq<Tag>, t: Tag, after: seq<Tag>, name: string)
    requires !Named(t, name)
    ensures FindTag(before + [t] + after, name) == FindTag(before + after, name)
  {
    FindTagAppend(before + [t], after, name);
    FindTagAppend(before, [t], name);
    FindTagAppend(before, after, name);
    assert Lacks([t], name);
  }

  /** `tags.filter(([n]) => n === name)` when `keep`, `tags.filter(([n]) => n !== name)` otherwise. */
  function Select(tags: seq<Tag>, name: string, keep: bool): (r: seq<Tag>)
    ensures |r| <= |tags|
    ensures forall k :: 0 <= k < |r| ==> Named(r[k], name) == keep
    decreases |tags|
  {
    if |tags| == 0 then []
    else (if Named(tags[0], name) == keep then [tags[0]] else []) + Select(tags[1..], name, keep)
  }

  /** Filtering distributes over concatenation: it keeps the relative order of what it keeps. */
  lemma {:induction false} SelectAppend(a: seq<Tag>, b: seq<Tag>, name: string, keep: bool)
    ensures Select(a + b, name, keep) == Select(a, name, keep) + Select(b, name, keep)
    decreases |a|
  {
    if |a| > 0 {
      var ab := a + b;
      assert ab[0] == a[0];
      assert ab[1..] == a[1..] + b;
      SelectAppend(a[1..], b, name, keep);
      assert Select(ab, name, keep) == (if Named(a[0], name) == keep then [a[0]] else []) + Select(a[1..] + b, name, keep);
    } else {
      assert a + b == b;
    }
  }

  /** Filtering a list whose every tag passes returns it whole. */
  lemma {:induction false} SelectAll(a: seq<Tag>, name: string, keep: bool)
    requires forall k :: 0 <= k < |a| ==> Named(a[k], name) == keep
    ensures Select(a, name, keep) == a
    decreases |a|
  {
    if |a| > 0 {
      SelectAll(a[1..], name, keep);
    }
  }

  /** Filtering a list whose every tag fails returns nothing. */
  lemma {:induction false} SelectNone(a: seq<Tag>, name: string, keep: bool)
    requires forall k :: 0 <= k < |a| ==> Named(a[k], name) != keep
    ensures Select(a, name, keep) == []
    decreases |a|
  {
    if |a| > 0 {
      SelectNone(a[1..], name, keep);
    }
  }

  /** A tag that fails the filter, wherever it sits, does not change what the filter keeps. */
  lemma SelectSkip(before: seq<Tag>, t: Tag, after: seq<Tag>, name: string, keep: bool)
    requires Named(t, name) != keep
    ensures Select(before + [t] + after, name, keep) == Select(before + after, name, keep)
  {
    SelectNone([t], name, keep);
    SelectAppend(before, [t], name, keep);
    assert Select(before + [t], name, keep) == Select(before, name, keep);
    SelectAppend(before + [t], after, name, keep);
    SelectAppend(before, after, name, keep);
  }

  /** The address of a badge definition, `30009:<pubkey>:<d>` (`naddr` kind, issuer, slug). */
  function BadgeAddress(pubkey: string, d: string): string {
    "30009:" + pubkey + ":" + d
  }
}
