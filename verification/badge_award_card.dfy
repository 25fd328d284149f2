/** The award card: the definition address split back into its pubkey and `d`, and the recipient
    count label. */
module BadgeAwardCardView {
  import opened Wrappers
  import opened Nostr
  import Text

  /** `address.split(":")`, fields 1 and 2; a missing field is `undefined`. */
  function SplitAddress(address: string): (r: (Option<string>, Option<string>))
    ensures var parts := Text.Split(address, {':'});
      && (r.0.Some? <==> |parts| >= 2) && (r.1.Some? <==> |parts| >= 3)
      && (r.0.Some? ==> r.0.value == parts[1]) && (r.1.Some? ==> r.1.value == parts[2])
  {
    var parts := Text.Split(address, {':'});
    (At(parts, 1), At(parts, 2))
  }

  predicate ColonFree(s: string) {
    forall j :: 0 <= j < |s| ==> s[j] != ':'
  }

  /** The colon fields of an address built from a colon-free pubkey: the kind, the pubkey, and
      then the fields of the `d`. */
  lemma AddressFields(pubkey: string, d: string)
    requires ColonFree(pubkey)
    ensures Text.Split(BadgeAddress(pubkey, d), {':'}) == ["30009", pubkey] + Text.Split(d, {':'})
  {
    var kind := "30009";
    assert BadgeAddress(pubkey, d) == kind + [':'] + (pubkey + [':'] + d);
    assert ColonFree(kind);
    LeadingFields(kind, pubkey, d);
  }

  lemma LeadingFields(a: string, b: string, rest: string)
    requires ColonFree(a) && ColonFree(b)
    ensures Text.Split(a + [':'] + (b + [':'] + rest), {':'}) == [a, b] + Text.Split(rest, {':'})
  {
    LeadingField(b, rest);
    LeadingField(a, b + [':'] + rest);
  }

  lemma LeadingField(a: string, rest: string)
    requires ColonFree(a)
    ensures Text.Split(a + [':'] + rest, {':'}) == [a] + Text.Split(rest, {':'})
  {
    Text.SplitAround(a, ':', rest, {':'});
    Text.SplitPlain(a, {':'});
  }

  /** An address built from a colon-free pubkey and `d` splits back into exactly them. */
  lemma SplitRoundTrip(pubkey: string, d: string)
    requires ColonFree(pubkey) && ColonFree(d)
    ensures SplitAddress(BadgeAddress(pubkey, d)) == (Some(pubkey), Some(d))
  {
    AddressFields(pubkey, d);
    Text.SplitPlain(d, {':'});
  }

  /** A `d` holding a colon comes back cut at its first colon. */
  lemma ColonInDTruncates(pubkey: string, d1: string, d2: string)
    requires ColonFree(pubkey) && ColonFree(d1)
    ensures SplitAddress(BadgeAddress(pubkey, d1 + [':'] + d2)).1 == Some(d1)
  {
    AddressFields(pubkey, d1 + [':'] + d2);
    Text.SplitAround(d1, ':', d2, {':'});
    Text.SplitPlain(d1, {':'});
  }

  /** The split the address format calls for: the pubkey is field 1 and the `d` is everything
      after the second colon, colons included (`parts.slice(2).join(':')`). */
  function SplitAddressWhole(address: string): (r: (Option<string>, Option<string>))
    ensures r.0 == SplitAddress(address).0
    ensures r.1.Some? <==> SplitAddress(address).1.Some?
  {
    var parts := Text.Split(address, {':'});
    (At(parts, 1), if |parts| >= 3 then Some(Text.Join(parts[2..], ':')) else None)
  }

  /** With the whole remainder taken, any `d` comes back intact, colons and all. */
  lemma WholeRoundTrip(pubkey: string, d: string)
    requires ColonFree(pubkey)
    ensures SplitAddressWhole(BadgeAddress(pubkey, d)) == (Some(pubkey), Some(d))
  {
    var parts := Text.Split(BadgeAddress(pubkey, d), {':'});
    var rest := Text.Split(d, {':'});
    AddressFields(pubkey, d);
    assert parts[2..] == rest;
    Text.JoinSplit(d, ':');
  }

  /** An empty address has neither field. */
  lemma EmptyAddress()
    ensures SplitAddress("") == (None, None)
  {
  }

  /** "person" for exactly one recipient, "people" otherwise. */
  function RecipientLabel(count: nat): (r: string)
    ensures r == "person" <==> count == 1
    ensures r == "person" || r == "people"
  {
    if count == 1 then "person" else "people"
  }
}
