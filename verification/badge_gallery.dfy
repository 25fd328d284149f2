/** The gallery page's search filter over the loaded definitions, and the address it queries
    awards by. */
module BadgeGalleryPage {
  import opened Wrappers
  import opened Nostr
  import Text
  import opened BadgeDefinitionHook
  import ManageBadgesPage
  import BadgeAwardCardView

  /** An optional field that contains the lowercased query once lowercased; an absent field never
      does (`badge.name?.toLowerCase().includes(query)`). */
  predicate FieldMatches(field: Option<string>, query: string) {
    field.Some? && Text.Includes(Text.ToLower(field.value), query)
  }

  /** The filter's predicate: an empty query keeps everything; otherwise the lowercased query must
      occur in the lowercased name, `d` or description. */
  predicate Matches(b: BadgeDefinition, searchQuery: string) {
    searchQuery == "" ||
      var query := Text.ToLower(searchQuery);
      FieldMatches(b.name, query) || Text.Includes(Text.ToLower(b.d), query) || FieldMatches(b.description, query)
  }

  /** `badges.filter(...)`: the matching badges, in their loaded order. */
  function FilterBadges(badges: seq<BadgeDefinition>, searchQuery: string): (r: seq<BadgeDefinition>)
    ensures |r| <= |badges|
    ensures forall b :: b in r <==> b in badges && Matches(b, searchQuery)
    decreases |badges|
  {
    if |badges| == 0 then []
    else (if Matches(badges[0], searchQuery) then [badges[0]] else []) + FilterBadges(badges[1..], searchQuery)
  }

  /** `badges?.filter(...)`: nothing while the badges are not loaded. */
  function FilteredBadges(badges: Option<seq<BadgeDefinition>>, searchQuery: string): (r: Option<seq<BadgeDefinition>>)
    ensures r.Some? <==> badges.Some?
    ensures r.Some? ==> forall b :: b in r.value <==> b in badges.value && Matches(b, searchQuery)
  {
    match badges
    case None => None
    case Some(bs) => Some(FilterBadges(bs, searchQuery))
  }

  /** An empty query keeps every badge, in order. */
  lemma {:induction false} EmptyQueryKeepsAll(badges: seq<BadgeDefinition>)
    ensures FilterBadges(badges, "") == badges
    decreases |badges|
  {
    if |badges| > 0 {
      EmptyQueryKeepsAll(badges[1..]);
      assert [badges[0]] + badges[1..] == badges;
    }
  }

  /** Filtering a concatenation filters each part. */
  lemma {:induction false} FilterAppend(a: seq<BadgeDefinition>, b: seq<BadgeDefinition>, searchQuery: string)
    ensures FilterBadges(a + b, searchQuery) == FilterBadges(a, searchQuery) + FilterBadges(b, searchQuery)
    decreases |a|
  {
    if |a| == 0 {
      assert a + b == b;
    } else {
      assert (a + b)[0] == a[0] && (a + b)[1..] == a[1..] + b;
      FilterAppend(a[1..], b, searchQuery);
    }
  }

  /** `a` is `b` with some elements left out, the rest in their order. */
  predicate IsSubsequence<T(==)>(a: seq<T>, b: seq<T>)
    decreases |b|
  {
    if |a| == 0 then true
    else if |b| == 0 then false
    else (a[0] == b[0] && IsSubsequence(a[1..], b[1..])) || IsSubsequence(a, b[1..])
  }

  /** The filtered list is an order-preserving subsequence of the loaded one. */
  lemma {:induction false} FilterIsSubsequence(badges: seq<BadgeDefinition>, searchQuery: string)
    ensures IsSubsequence(FilterBadges(badges, searchQuery), badges)
    decreases |badges|
  {
    if |badges| > 0 {
      var rest := FilterBadges(badges[1..], searchQuery);
      FilterIsSubsequence(badges[1..], searchQuery);
      if Matches(badges[0], searchQuery) {
        assert FilterBadges(badges, searchQuery) == [badges[0]] + rest;
        assert ([badges[0]] + rest)[1..] == rest;
      } else {
        assert FilterBadges(badges, searchQuery) == rest;
        if |rest| > 0 {
          assert IsSubsequence(rest, badges[1..]);
        }
      }
    }
  }

  /** A query and its lowercase form select the same badges. */
  lemma QueryCaseInsensitive(badges: seq<BadgeDefinition>, searchQuery: string)
    ensures FilterBadges(badges, searchQuery) == FilterBadges(badges, Text.ToLower(searchQuery))
  {
    Text.ToLowerIdempotent(searchQuery);
    assert forall b :: Matches(b, searchQuery) == Matches(b, Text.ToLower(searchQuery));
    SameFilter(badges, searchQuery, Text.ToLower(searchQuery));
  }

  lemma {:induction false} SameFilter(badges: seq<BadgeDefinition>, q1: string, q2: string)
    requires forall b :: Matches(b, q1) == Matches(b, q2)
    ensures FilterBadges(badges, q1) == FilterBadges(badges, q2)
    decreases |badges|
  {
    if |badges| > 0 {
      SameFilter(badges[1..], q1, q2);
    }
  }

  /** The awards query of the detail dialog: the selected badge's address, nothing with no badge
      selected. */
  function AwardsQueryAddress(selected: Option<BadgeDefinition>): (r: Option<string>)
    ensures r.Some? <==> selected.Some?
    ensures r.Some? ==> Text.StartsWith(r.value, "30009:")
  {
    match selected
    case None => None
    case Some(b) => Some(BadgeAddress(b.pubkey, b.d))
  }

  /** The dialog queries by the address an award of the selected badge carries in its `a` tag,
      so the awards the manage page publishes for it are the ones it finds. */
  lemma AwardsQueryIsAwardAddress(b: BadgeDefinition, entries: seq<string>, decode: string -> ManageBadgesPage.Decoded)
    requires entries != [] && ManageBadgesPage.AllAccepted(entries, decode)
    ensures ManageBadgesPage.AwardFromEntries(b, entries, decode).Success?
    ensures AwardsQueryAddress(Some(b))
         == Some(ManageBadgesPage.AwardFromEntries(b, entries, decode).value.tags[0][1])
  {
    ManageBadgesPage.AwardTags(b, entries, decode);
  }

  /** The queried address names the selected badge: split back, it gives the badge's issuer and
      its whole `d`. */
  lemma AwardsQueryNamesBadge(b: BadgeDefinition)
    requires BadgeAwardCardView.ColonFree(b.pubkey)
    ensures BadgeAwardCardView.SplitAddressWhole(AwardsQueryAddress(Some(b)).value) == (Some(b.pubkey), Some(b.d))
  {
    BadgeAwardCardView.WholeRoundTrip(b.pubkey, b.d);
  }
}
