/** The NIP-58 profile badges decoder (kind 30008, `d` = `profile_badges`): consecutive `a` then
    `e` tags form one displayed badge each; anything else is skipped. */
module ProfileBadgesHook {
  import opened Wrappers
  import opened Nostr

  /** One displayed badge: the definition address, the award event id and its relay hint. */
  datatype ProfileBadge = ProfileBadge(badgeAddress: Option<string>, awardEventId: Option<string>, relay: Option<string>)

  /** The decoded list. */
  datatype ProfileBadges = ProfileBadges(pubkey: string, badges: seq<ProfileBadge>, event: Event)

  /** Tags `i` and `i + 1` are an `a` tag immediately followed by an `e` tag. */
  predicate IsPairAt(tags: seq<Tag>, i: int) {
    0 <= i && i + 1 < |tags| && Named(tags[i], "a") && Named(tags[i + 1], "e")
  }

  /** Two pairs never overlap: the second tag of a pair is an `e`, never an `a`. */
  lemma PairsDisjoint(tags: seq<Tag>, i: int)
    requires IsPairAt(tags, i)
    ensures !IsPairAt(tags, i + 1)
  {
  }

  /** The entry read from the pair at `i`. */
  function EntryAt(tags: seq<Tag>, i: nat): ProfileBadge
    requires i + 1 < |tags|
  {
    ProfileBadge(At(tags[i], 1), At(tags[i + 1], 1), At(tags[i + 1], 2))
  }

  /** The greedy scan from position `i`: on a pair, take it and jump two; otherwise step one. */
  function ScanFrom(tags: seq<Tag>, i: nat): (r: seq<ProfileBadge>)
    requires i <= |tags|
    ensures 2 * |r| <= |tags| - i
    decreases |tags| - i
  {
    if i + 1 >= |tags| then []
    else if IsPairAt(tags, i) then [EntryAt(tags, i)] + ScanFrom(tags, i + 2)
    else ScanFrom(tags, i + 1)
  }

  /** Every position from `i` on that holds an `a` tag directly followed by an `e` tag, ascending. */
  function PairPositions(tags: seq<Tag>, i: nat): (r: seq<nat>)
    requires i <= |tags|
    ensures forall k :: 0 <= k < |r| ==> i <= r[k] && IsPairAt(tags, r[k])
    ensures forall k :: 0 < k < |r| ==> r[k - 1] + 2 <= r[k]
    decreases |tags| - i
  {
    if i + 1 >= |tags| then []
    else (if IsPairAt(tags, i) then [i] else []) + PairPositions(tags, i + 1)
  }

  /** No pair from `i` on is missed. */
  lemma {:induction false} PairPositionsComplete(tags: seq<Tag>, i: nat)
    requires i <= |tags|
    ensures forall j :: i <= j && IsPairAt(tags, j) ==> j in PairPositions(tags, i)
    decreases |tags| - i
  {
    if i + 1 < |tags| {
      PairPositionsComplete(tags, i + 1);
    }
  }

  /** The entries read at the given positions, in order. */
  function EntriesAt(tags: seq<Tag>, ps: seq<nat>): seq<ProfileBadge>
    requires forall k :: 0 <= k < |ps| ==> ps[k] + 1 < |tags|
  {
    seq(|ps|, k requires 0 <= k < |ps| => EntryAt(tags, ps[k]))
  }

  lemma EntriesAtCons(tags: seq<Tag>, p: nat, ps: seq<nat>)
    requires p + 1 < |tags|
    requires forall k :: 0 <= k < |ps| ==> ps[k] + 1 < |tags|
    ensures EntriesAt(tags, [p] + ps) == [EntryAt(tags, p)] + EntriesAt(tags, ps)
  {
  }

  /** One pair step of the scan: taking the pair at `i` and jumping two reads what the pair
      positions from `i` read. */
  lemma ScanPairStep(tags: seq<Tag>, i: nat)
    requires IsPairAt(tags, i)
    requires ScanFrom(tags, i + 2) == EntriesAt(tags, PairPositions(tags, i + 2))
    ensures ScanFrom(tags, i) == EntriesAt(tags, PairPositions(tags, i))
  {
    var rest := PairPositions(tags, i + 2);
    PairsDisjoint(tags, i);
    assert PairPositions(tags, i + 1) == rest;
    assert PairPositions(tags, i) == [i] + rest;
    EntriesAtCons(tags, i, rest);
  }

  /** One skip step of the scan: a position that is no pair adds no entry. */
  lemma ScanSkipStep(tags: seq<Tag>, i: nat)
    requires i + 1 < |tags| && !IsPairAt(tags, i)
    requires ScanFrom(tags, i + 1) == EntriesAt(tags, PairPositions(tags, i + 1))
    ensures ScanFrom(tags, i) == EntriesAt(tags, PairPositions(tags, i))
  {
    assert PairPositions(tags, i) == PairPositions(tags, i + 1);
  }

  /** The greedy scan takes exactly the entries at every adjacent `a`/`e` position, in order:
      greediness loses nothing, since pairs cannot overlap. */
  lemma {:induction false} ScanIsAllPairs(tags: seq<Tag>, i: nat)
    requires i <= |tags|
    ensures ScanFrom(tags, i) == EntriesAt(tags, PairPositions(tags, i))
    decreases |tags| - i
  {
    if i + 1 < |tags| {
      if IsPairAt(tags, i) {
        ScanIsAllPairs(tags, i + 2);
        ScanPairStep(tags, i);
      } else {
        ScanIsAllPairs(tags, i + 1);
        ScanSkipStep(tags, i);
      }
    }
  }

  /** The scan is positional: a prefix in front shifts it without changing what it reads. */
  lemma {:induction false} ScanShift(prefix: seq<Tag>, tags: seq<Tag>, i: nat)
    requires i <= |tags|
    ensures ScanFrom(prefix + tags, |prefix| + i) == ScanFrom(tags, i)
    decreases |tags| - i
  {
    var all := prefix + tags;
    var j := |prefix| + i;
    if i + 1 < |tags| {
      assert all[j] == tags[i] && all[j + 1] == tags[i + 1];
      assert IsPairAt(all, j) == IsPairAt(tags, i);
      if IsPairAt(tags, i) {
        ScanShift(prefix, tags, i + 2);
        assert EntryAt(all, j) == EntryAt(tags, i);
        assert ScanFrom(all, j) == [EntryAt(all, j)] + ScanFrom(all, j + 2);
      } else {
        ScanShift(prefix, tags, i + 1);
        assert ScanFrom(all, j) == ScanFrom(all, j + 1);
      }
    }
  }

  /** The badges of a tag list: the scan from the start. */
  function Badges(tags: seq<Tag>): (r: seq<ProfileBadge>)
    ensures 2 * |r| <= |tags|
    ensures r == EntriesAt(tags, PairPositions(tags, 0))
  {
    ScanIsAllPairs(tags, 0);
    ScanFrom(tags, 0)
  }

  /** `parseProfileBadges`, following the source's loop: `i` runs to `tags.length - 1`, and after
      taking a pair the extra `i++` skips its `e` tag. */
  method ParseProfileBadges(event: Event) returns (r: ProfileBadges)
    ensures r.pubkey == event.pubkey && r.event == event
    ensures r.badges == EntriesAt(event.tags, PairPositions(event.tags, 0))
  {
    var tags := event.tags;
    var badges: seq<ProfileBadge> := [];
    var i := 0;
    while i < |tags| - 1
      invariant 0 <= i <= |tags|
      invariant badges + ScanFrom(tags, i) == ScanFrom(tags, 0)
      decreases |tags| - i
    {
      if Named(tags[i], "a") && Named(tags[i + 1], "e") {
        badges := badges + [EntryAt(tags, i)];
        i := i + 1;
      }
      i := i + 1;
    }
    ScanIsAllPairs(tags, 0);
    r := ProfileBadges(event.pubkey, badges, event);
  }

  /** Fewer than two tags give no badges. */
  lemma ShortListEmpty(tags: seq<Tag>)
    requires |tags| < 2
    ensures Badges(tags) == []
  {
  }

  /** `[d, a1, e1, a2, x, e2]` gives one badge, from `a1`/`e1`: `a2` is not directly followed by `e2`. */
  lemma OrphanDropped(d: Tag, a1: Tag, e1: Tag, a2: Tag, x: Tag, e2: Tag)
    requires Named(d, "d") && Named(a1, "a") && Named(e1, "e") && Named(a2, "a") && Named(e2, "e")
    requires !Named(x, "e") && !Named(x, "a")
    ensures Badges([d, a1, e1, a2, x, e2]) ==
      [ProfileBadge(At(a1, 1), At(e1, 1), At(e1, 2))]
  {
    var tags := [d, a1, e1, a2, x, e2];
    assert !IsPairAt(tags, 0) && IsPairAt(tags, 1) && !IsPairAt(tags, 3) && !IsPairAt(tags, 4);
    assert ScanFrom(tags, 4) == ScanFrom(tags, 5) == [];
    assert ScanFrom(tags, 3) == [];
    assert ScanFrom(tags, 1) == [EntryAt(tags, 1)];
    assert ScanFrom(tags, 0) == ScanFrom(tags, 1);
  }

  /** `[a1, a2, e]` gives one badge, built from `a2` and `e`. */
  lemma LaterAddressWins(a1: Tag, a2: Tag, e: Tag)
    requires Named(a1, "a") && Named(a2, "a") && Named(e, "e")
    ensures Badges([a1, a2, e]) == [ProfileBadge(At(a2, 1), At(e, 1), At(e, 2))]
  {
    var tags := [a1, a2, e];
    assert !IsPairAt(tags, 0) && IsPairAt(tags, 1);
    assert ScanFrom(tags, 3) == [];
    assert ScanFrom(tags, 1) == [EntryAt(tags, 1)];
    assert ScanFrom(tags, 0) == ScanFrom(tags, 1);
  }
}
