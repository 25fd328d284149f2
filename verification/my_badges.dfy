/** The my-badges page: the selection of award ids (a `Set`, kept in insertion order) and the
    kind 30008 profile badges list saved from it. */
module MyBadgesPage {
  import opened Wrappers
  import opened Nostr
  import opened BadgeAwardsHook
  import ProfileBadgesHook

  /** No id occurs twice, as in a `Set`. */
  predicate Distinct(s: seq<string>) {
    forall i, j :: 0 <= i < j < |s| ==> s[i] != s[j]
  }

  /** `set.delete(id)`: the other ids, in their insertion order. */
  function Without(s: seq<string>, id: string): seq<string>
    decreases |s|
  {
    if |s| == 0 then [] else (if s[0] == id then [] else [s[0]]) + Without(s[1..], id)
  }

  /** Deleting keeps exactly the other ids, keeps them distinct, and changes nothing when the id
      is absent. */
  lemma {:induction false} WithoutSpec(s: seq<string>, id: string)
    ensures forall x :: x in Without(s, id) <==> x in s && x != id
    ensures Distinct(s) ==> Distinct(Without(s, id))
    ensures id !in s ==> Without(s, id) == s
    decreases |s|
  {
    if |s| > 0 {
      WithoutSpec(s[1..], id);
      var rest := Without(s[1..], id);
      assert forall x :: x in s <==> x == s[0] || x in s[1..];
      if Distinct(s) {
        assert Distinct(s[1..]);
        assert s[0] !in rest;
      }
      if id !in s {
        assert [s[0]] + s[1..] == s;
      }
    }
  }

  lemma {:induction false} WithoutAppend(a: seq<string>, b: seq<string>, id: string)
    ensures Without(a + b, id) == Without(a, id) + Without(b, id)
    decreases |a|
  {
    if |a| == 0 {
      assert a + b == b;
    } else {
      assert (a + b)[0] == a[0] && (a + b)[1..] == a[1..] + b;
      WithoutAppend(a[1..], b, id);
    }
  }

  /** `handleToggleAward`: a selected id is removed, any other is added at the end. The id's
      membership flips and every other id keeps its membership. */
  function Toggle(selected: seq<string>, id: string): (r: seq<string>)
    requires Distinct(selected)
    ensures Distinct(r)
    ensures id in r <==> id !in selected
    ensures forall x :: x != id ==> (x in r <==> x in selected)
    ensures id !in selected ==> r == selected + [id]
  {
    WithoutSpec(selected, id);
    if id in selected then Without(selected, id) else selected + [id]
  }

  /** Toggling twice restores the selection as a set; an id that was selected comes back at the end
      of the insertion order, so the order is restored only when it was not selected. */
  lemma ToggleTwice(selected: seq<string>, id: string)
    requires Distinct(selected)
    ensures forall x :: x in Toggle(Toggle(selected, id), id) <==> x in selected
    ensures id !in selected ==> Toggle(Toggle(selected, id), id) == selected
    ensures id in selected ==> Toggle(Toggle(selected, id), id) == Without(selected, id) + [id]
  {
    WithoutSpec(selected, id);
    if id !in selected {
      WithoutAppend(selected, [id], id);
      assert Without([id], id) == [];
    }
  }

  /** `awards.find((a) => a.id === id)` over a loaded list. */
  function FindIn(list: seq<BadgeAward>, id: string): (r: Option<BadgeAward>)
    ensures r.None? <==> forall k :: 0 <= k < |list| ==> list[k].id != id
    ensures r.Some? ==> r.value.id == id && r.value in list
    decreases |list|
  {
    if |list| == 0 then None
    else if list[0].id == id then Some(list[0])
    else FindIn(list[1..], id)
  }

  /** `find` returns the FIRST award with the id: the one at the least index that has it. */
  lemma {:induction false} FindInFirst(list: seq<BadgeAward>, id: string, j: nat)
    requires j < |list| && list[j].id == id
    requires forall i :: 0 <= i < j ==> list[i].id != id
    ensures FindIn(list, id) == Some(list[j])
    decreases j
  {
    if j > 0 {
      FindInFirst(list[1..], id, j - 1);
    }
  }

  /** `awards?.find((a) => a.id === id)`: nothing while the awards are not loaded. */
  function FindAward(awards: Option<seq<BadgeAward>>, id: string): Option<BadgeAward> {
    match awards
    case None => None
    case Some(list) => FindIn(list, id)
  }

  /** The award found for one id, as a list of zero or one. */
  function Found(awards: Option<seq<BadgeAward>>, id: string): seq<BadgeAward> {
    match FindAward(awards, id)
    case Some(a) => [a]
    case None => []
  }

  /** The awards of the selected ids that have one, in selection order. */
  function Matched(awards: Option<seq<BadgeAward>>, ids: seq<string>): (r: seq<BadgeAward>)
    ensures |r| <= |ids|
    decreases |ids|
  {
    if |ids| == 0 then [] else Found(awards, ids[0]) + Matched(awards, ids[1..])
  }

  /** The matched awards are loaded awards of selected ids, and every selected id that has a
      loaded award contributes it. */
  lemma {:induction false} MatchedMembers(awards: Option<seq<BadgeAward>>, ids: seq<string>)
    ensures forall m :: m in Matched(awards, ids) ==> m.id in ids && awards.Some? && m in awards.value
    ensures forall id :: id in ids && FindAward(awards, id).Some? ==> FindAward(awards, id).value in Matched(awards, ids)
    decreases |ids|
  {
    if |ids| > 0 {
      MatchedMembers(awards, ids[1..]);
      assert forall id :: id in ids ==> id == ids[0] || id in ids[1..];
    }
  }

  lemma {:induction false} MatchedAppend(awards: Option<seq<BadgeAward>>, ids: seq<string>, id: string)
    ensures Matched(awards, ids + [id]) == Matched(awards, ids) + Found(awards, id)
    decreases |ids|
  {
    if |ids| == 0 {
      assert [id][1..] == [];
    } else {
      var longer := ids + [id];
      assert longer[0] == ids[0];
      assert longer[1..] == ids[1..] + [id];
      MatchedAppend(awards, ids[1..], id);
      assert Matched(awards, longer) == Found(awards, ids[0]) + Matched(awards, ids[1..] + [id]);
    }
  }

  /** The two tags one award contributes: its badge address, then its id. */
  function PairOf(a: BadgeAward): seq<Tag> {
    [["a", a.badgeAddress], ["e", a.id]]
  }

  /** The pairs of a list of awards, in order. */
  function AwardPairs(ms: seq<BadgeAward>): (r: seq<Tag>)
    ensures |r| == 2 * |ms|
    decreases |ms|
  {
    if |ms| == 0 then [] else PairOf(ms[0]) + AwardPairs(ms[1..])
  }

  lemma {:induction false} AwardPairsAppend(ms: seq<BadgeAward>, m: BadgeAward)
    ensures AwardPairs(ms + [m]) == AwardPairs(ms) + PairOf(m)
    decreases |ms|
  {
    if |ms| == 0 {
      assert [m][1..] == [];
    } else {
      assert (ms + [m])[1..] == ms[1..] + [m];
      AwardPairsAppend(ms[1..], m);
    }
  }

  /** The first tag of the saved list. */
  const ProfileDTag: Tag := ["d", "profile_badges"]

  /** `handleSaveProfileBadges`: nothing without a user; otherwise a kind 30008 event with empty
      content whose tags are the `d` tag followed, for each selected id in selection order that has
      a loaded award, by that award's address tag and id tag. Ids without an award add nothing. */
  method SaveProfileBadges(user: Option<string>, awards: Option<seq<BadgeAward>>, selected: seq<string>)
    returns (r: Option<EventTemplate>)
    ensures r.None? <==> user.None?
    ensures r.Some? ==> r.value.kind == ProfileBadgesKind && r.value.content == ""
    ensures r.Some? ==> r.value.tags == [ProfileDTag] + AwardPairs(Matched(awards, selected))
    ensures r.Some? ==> |r.value.tags| == 1 + 2 * |Matched(awards, selected)|
  {
    if user.None? {
      return None;
    }
    var tags: seq<Tag> := [ProfileDTag];
    var i := 0;
    while i < |selected|
      invariant 0 <= i <= |selected|
      invariant tags == [ProfileDTag] + AwardPairs(Matched(awards, selected[..i]))
    {
      var award := FindAward(awards, selected[i]);
      ghost var before := tags;
      if award.Some? {
        tags := tags + [["a", award.value.badgeAddress]];
        tags := tags + [["e", award.value.id]];
      }
      SaveStep(awards, selected, i, before, tags);
      i := i + 1;
    }
    assert selected[..|selected|] == selected;
    return Some(EventTemplate(ProfileBadgesKind, "", tags));
  }

  /** One more selected id adds its award's pair, or nothing when it has no loaded award. */
  lemma PairsStep(awards: Option<seq<BadgeAward>>, selected: seq<string>, i: nat)
    requires i < |selected|
    ensures AwardPairs(Matched(awards, selected[..i + 1]))
         == AwardPairs(Matched(awards, selected[..i]))
            + (match FindAward(awards, selected[i]) case Some(a) => PairOf(a) case None => [])
  {
    var before := Matched(awards, selected[..i]);
    assert selected[..i + 1] == selected[..i] + [selected[i]];
    MatchedAppend(awards, selected[..i], selected[i]);
    match FindAward(awards, selected[i])
    case Some(a) =>
      assert Matched(awards, selected[..i + 1]) == before + [a];
      AwardPairsAppend(before, a);
    case None =>
      assert Matched(awards, selected[..i + 1]) == before;
  }

  /** The loop invariant of SaveProfileBadges survives one more selected id. */
  lemma SaveStep(awards: Option<seq<BadgeAward>>, selected: seq<string>, i: nat, before: seq<Tag>, after: seq<Tag>)
    requires i < |selected|
    requires before == [ProfileDTag] + AwardPairs(Matched(awards, selected[..i]))
    requires FindAward(awards, selected[i]).Some? ==>
               after == before + [["a", FindAward(awards, selected[i]).value.badgeAddress]]
                               + [["e", FindAward(awards, selected[i]).value.id]]
    requires FindAward(awards, selected[i]).None? ==> after == before
    ensures after == [ProfileDTag] + AwardPairs(Matched(awards, selected[..i + 1]))
  {
    PairsStep(awards, selected, i);
  }

  /** What the profile badges decoder reads back for a list of awards. */
  function Displayed(ms: seq<BadgeAward>): seq<ProfileBadgesHook.ProfileBadge> {
    seq(|ms|, k requires 0 <= k < |ms| => ProfileBadgesHook.ProfileBadge(Some(ms[k].badgeAddress), Some(ms[k].id), None))
  }

  lemma {:induction false} ScanAwardPairs(ms: seq<BadgeAward>)
    ensures ProfileBadgesHook.ScanFrom(AwardPairs(ms), 0) == Displayed(ms)
    decreases |ms|
  {
    if |ms| > 0 {
      var tags := AwardPairs(ms);
      var rest := AwardPairs(ms[1..]);
      assert ProfileBadgesHook.IsPairAt(tags, 0);
      ScanAwardPairs(ms[1..]);
      ProfileBadgesHook.ScanShift(PairOf(ms[0]), rest, 0);
      assert Displayed(ms) == [Displayed(ms)[0]] + Displayed(ms[1..]);
    }
  }

  /** Decoding a saved list gives the matched awards' addresses and ids, in selection order. */
  lemma SavedBadgesDecode(awards: Option<seq<BadgeAward>>, selected: seq<string>)
    ensures ProfileBadgesHook.Badges([ProfileDTag] + AwardPairs(Matched(awards, selected)))
         == Displayed(Matched(awards, selected))
  {
    var ms := Matched(awards, selected);
    var tags := [ProfileDTag] + AwardPairs(ms);
    ScanAwardPairs(ms);
    ProfileBadgesHook.ScanShift([ProfileDTag], AwardPairs(ms), 0);
    if |tags| >= 2 {
      assert !ProfileBadgesHook.IsPairAt(tags, 0);
    }
  }
}
