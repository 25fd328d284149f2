/** The manage page's award and delete actions: parse the recipient list, check every entry, and
    build the kind 8 award or the kind 5 deletion for a badge. */
module ManageBadgesPage {
  import opened Wrappers
  import opened Nostr
  import Text
  import opened BadgeDefinitionHook
  import BadgeAwardsHook

  /** The characters the recipient list is split on (`/[\n,]/`). */
  const RecipientSeparators: set<char> := {'\n', ','}

  /** `.filter((p) => p.length > 0)`. */
  function DropEmpty(pieces: seq<string>): (r: seq<string>)
    ensures |r| <= |pieces|
    ensures forall k :: 0 <= k < |r| ==> r[k] != "" && r[k] in pieces
    ensures forall s :: s in pieces && s != "" ==> s in r
    decreases |pieces|
  {
    if |pieces| == 0 then []
    else (if pieces[0] != "" then [pieces[0]] else []) + DropEmpty(pieces[1..])
  }

  /** Dropping distributes over concatenation, and a single string is kept exactly when it is
      non-empty: the non-empty strings remain, in order, duplicates included. */
  lemma {:induction false} DropEmptyAppend(a: seq<string>, b: seq<string>)
    ensures DropEmpty(a + b) == DropEmpty(a) + DropEmpty(b)
    decreases |a|
  {
    if |a| == 0 {
      assert a + b == b;
    } else {
      assert (a + b)[1..] == a[1..] + b;
      DropEmptyAppend(a[1..], b);
    }
  }

  lemma DropEmptyOne(s: string)
    ensures DropEmpty([s]) == if s == "" then [] else [s]
  {
    assert [s][1..] == [];
  }

  /** Dropping the empty strings of a list whose non-empty strings are clean leaves clean strings. */
  lemma {:induction false} DropEmptyKeeps(pieces: seq<string>)
    requires forall k :: 0 <= k < |pieces| && pieces[k] != "" ==> CleanEntry(pieces[k])
    ensures forall k :: 0 <= k < |DropEmpty(pieces)| ==> CleanEntry(DropEmpty(pieces)[k])
    decreases |pieces|
  {
    if |pieces| > 0 {
      DropEmptyKeeps(pieces[1..]);
    }
  }

  /** A usable entry: non-empty, no blank at either end, no separator inside. */
  predicate CleanEntry(s: string) {
    && s != ""
    && !Text.IsTrimmable(s[0]) && !Text.IsTrimmable(s[|s| - 1])
    && forall j :: 0 <= j < |s| ==> s[j] !in RecipientSeparators
  }

  /** `.map((p) => p.trim())` over separator-free pieces: the non-empty results are clean. */
  function TrimEach(pieces: seq<string>): (r: seq<string>)
    requires forall k, j :: 0 <= k < |pieces| && 0 <= j < |pieces[k]| ==> pieces[k][j] !in RecipientSeparators
    ensures |r| == |pieces|
    ensures forall k :: 0 <= k < |r| ==> r[k] == Text.Trim(pieces[k])
    ensures forall k :: 0 <= k < |r| && r[k] != "" ==> CleanEntry(r[k])
  {
    var r := seq(|pieces|, k requires 0 <= k < |pieces| => Text.Trim(pieces[k]));
    assert forall k :: 0 <= k < |r| && r[k] != "" ==> CleanEntry(r[k]) by {
      forall k | 0 <= k < |r| && r[k] != ""
        ensures CleanEntry(r[k])
      {
        Text.TrimWithout(pieces[k], RecipientSeparators);
      }
    }
    r
  }

  /** The recipient entries typed into the award dialog: the pieces between newlines and commas,
      trimmed, the empty ones dropped. Every entry is clean. */
  function RecipientEntries(input: string): (r: seq<string>)
    ensures forall k :: 0 <= k < |r| ==> CleanEntry(r[k])
  {
    var trimmed := TrimEach(Text.Split(input, RecipientSeparators));
    DropEmptyKeeps(trimmed);
    DropEmpty(trimmed)
  }

  /** Text without a newline or comma is one entry, trimmed, unless it is blank. */
  lemma RecipientEntriesPlain(x: string)
    requires forall j :: 0 <= j < |x| ==> x[j] !in RecipientSeparators
    ensures RecipientEntries(x) == if Text.Trim(x) == "" then [] else [Text.Trim(x)]
  {
    Text.SplitPlain(x, RecipientSeparators);
    assert TrimEach([x]) == [Text.Trim(x)];
    DropEmptyOne(Text.Trim(x));
  }

  /** A newline or comma splits the input into two lists typed one after the other: the entries
      of the whole are those of the part before it followed by those of the part after it. With
      RecipientEntriesPlain this fixes every entry, its order and its multiplicity. */
  lemma RecipientEntriesAround(x: string, c: char, y: string)
    requires c in RecipientSeparators
    ensures RecipientEntries(x + [c] + y) == RecipientEntries(x) + RecipientEntries(y)
  {
    var px := Text.Split(x, RecipientSeparators);
    var py := Text.Split(y, RecipientSeparators);
    Text.SplitAround(x, c, y, RecipientSeparators);
    var tx, ty := TrimEach(px), TrimEach(py);
    TrimEachAppend(px, py);
    assert RecipientEntries(x + [c] + y) == DropEmpty(tx + ty);
    DropEmptyAppend(tx, ty);
  }

  lemma TrimEachAppend(a: seq<string>, b: seq<string>)
    requires forall k, j :: 0 <= k < |a| && 0 <= j < |a[k]| ==> a[k][j] !in RecipientSeparators
    requires forall k, j :: 0 <= k < |b| && 0 <= j < |b[k]| ==> b[k][j] !in RecipientSeparators
    ensures forall k, j :: 0 <= k < |a + b| && 0 <= j < |(a + b)[k]| ==> (a + b)[k][j] !in RecipientSeparators
    ensures TrimEach(a + b) == TrimEach(a) + TrimEach(b)
  {
    assert forall k :: 0 <= k < |a + b| ==> (a + b)[k] == if k < |a| then a[k] else b[k - |a|];
  }

  /** Every piece that is not blank is an entry, trimmed. */
  lemma NonBlankPiecesKept(input: string)
    ensures var pieces := Text.Split(input, RecipientSeparators);
      forall k :: 0 <= k < |pieces| && Text.Trim(pieces[k]) != "" ==> Text.Trim(pieces[k]) in RecipientEntries(input)
  {
    var pieces := Text.Split(input, RecipientSeparators);
    var trimmed := TrimEach(pieces);
    assert RecipientEntries(input) == DropEmpty(trimmed);
    forall k | 0 <= k < |pieces| && Text.Trim(pieces[k]) != ""
      ensures Text.Trim(pieces[k]) in RecipientEntries(input)
    {
      assert trimmed[k] == Text.Trim(pieces[k]);
      assert trimmed[k] in trimmed;
    }
  }

  /** Keys without separators split back out of their joined form. */
  lemma {:induction false} SplitJoin(keys: seq<string>, sep: char)
    requires |keys| >= 1 && sep in RecipientSeparators
    requires forall k, j :: 0 <= k < |keys| && 0 <= j < |keys[k]| ==> keys[k][j] !in RecipientSeparators
    ensures Text.Split(Text.Join(keys, sep), RecipientSeparators) == keys
    decreases |keys|
  {
    Text.SplitPlain(keys[0], RecipientSeparators);
    if |keys| > 1 {
      Text.SplitAround(keys[0], sep, Text.Join(keys[1..], sep), RecipientSeparators);
      SplitJoin(keys[1..], sep);
    }
  }

  /** A list of keys typed one per line (or comma-separated), each non-empty with no blank at either
      end, is read back as exactly those keys in that order. */
  lemma EntriesOfJoined(keys: seq<string>, sep: char)
    requires |keys| >= 1 && sep in RecipientSeparators
    requires forall k :: 0 <= k < |keys| ==> CleanEntry(keys[k])
    ensures RecipientEntries(Text.Join(keys, sep)) == keys
  {
    SplitJoin(keys, sep);
    var trimmed := seq(|keys|, k requires 0 <= k < |keys| => Text.Trim(keys[k]));
    assert trimmed == keys;
    DropAllKept(keys);
  }

  lemma {:induction false} DropAllKept(pieces: seq<string>)
    requires forall k :: 0 <= k < |pieces| ==> pieces[k] != ""
    ensures DropEmpty(pieces) == pieces
    decreases |pieces|
  {
    if |pieces| > 0 {
      DropAllKept(pieces[1..]);
      assert [pieces[0]] + pieces[1..] == pieces;
    }
  }

  /** What `nip19.decode` does with an entry: an npub's hex key, another NIP-19 kind, or a throw. */
  datatype Decoded = Npub(hex: string) | OtherKind | Throws

  /** Why an entry was refused; each keeps the entry's first 20 characters for the message. */
  datatype EntryError =
    | InvalidNpub(shown: string)
    | NotNpubOrHex(shown: string)
    | DecodeFailed(shown: string)

  predicate IsHexChar(c: char) {
    '0' <= c <= '9' || 'a' <= c <= 'f' || 'A' <= c <= 'F'
  }

  /** `/^[0-9a-f]{64}$/i`. */
  predicate IsHexKey(s: string) {
    |s| == 64 && forall k :: 0 <= k < |s| ==> IsHexChar(s[k])
  }

  /** One entry of the list: an `npub1…` entry is decoded, a 64-digit hex key of either case is
      lowercased, anything else is refused. */
  function ClassifyEntry(entry: string, decode: string -> Decoded): (r: Result<string, EntryError>)
    ensures Text.StartsWith(entry, "npub1") ==> (r.Success? <==> decode(entry).Npub?)
    ensures Text.StartsWith(entry, "npub1") && r.Success? ==> r.value == decode(entry).hex
    ensures !Text.StartsWith(entry, "npub1") ==> (r.Success? <==> IsHexKey(entry))
    ensures !Text.StartsWith(entry, "npub1") && r.Success? ==>
              |r.value| == 64 && forall k :: 0 <= k < 64 ==> ('0' <= r.value[k] <= '9' || 'a' <= r.value[k] <= 'f')
    ensures r.Failure? ==> r.error.shown == Text.Head(entry, 20)
    ensures Text.StartsWith(entry, "npub1") && decode(entry).OtherKind? ==> r == Failure(InvalidNpub(Text.Head(entry, 20)))
    ensures Text.StartsWith(entry, "npub1") && decode(entry).Throws? ==> r == Failure(DecodeFailed(Text.Head(entry, 20)))
    ensures !Text.StartsWith(entry, "npub1") && !IsHexKey(entry) ==> r == Failure(NotNpubOrHex(Text.Head(entry, 20)))
  {
    if Text.StartsWith(entry, "npub1") then
      match decode(entry)
      case Npub(hex) => Success(hex)
      case OtherKind => Failure(InvalidNpub(Text.Head(entry, 20)))
      case Throws => Failure(DecodeFailed(Text.Head(entry, 20)))
    else if IsHexKey(entry) then Success(Text.ToLower(entry))
    else Failure(NotNpubOrHex(Text.Head(entry, 20)))
  }

  /** A hex key and its lowercase form are accepted alike, as the same key. */
  lemma HexCaseInsensitive(entry: string, decode: string -> Decoded)
    requires IsHexKey(entry)
    ensures ClassifyEntry(entry, decode) == ClassifyEntry(Text.ToLower(entry), decode) == Success(Text.ToLower(entry))
  {
    var low := Text.ToLower(entry);
    assert !Text.StartsWith(entry, "npub1") by { assert !IsHexChar('n'); assert entry[0] == entry[..5][0]; }
    assert !Text.StartsWith(low, "npub1") by { assert low[0] == Text.LowerChar(entry[0]); assert low[0] == low[..5][0]; }
    assert IsHexKey(low);
    Text.ToLowerIdempotent(entry);
  }

  /** The refusals, in entry order. */
  function Errors(rs: seq<Result<string, EntryError>>): (r: seq<EntryError>)
    ensures |r| <= |rs|
    ensures r == [] <==> forall k :: 0 <= k < |rs| ==> rs[k].Success?
    ensures r != [] ==> exists k :: 0 <= k < |rs| && rs[k] == Failure(r[0]) && forall j :: 0 <= j < k ==> rs[j].Success?
    ensures |rs| == 1 ==> r == if rs[0].Failure? then [rs[0].error] else []
    decreases |rs|
  {
    if |rs| == 0 then []
    else
      var rest := Errors(rs[1..]);
      assert rest != [] ==> exists k :: 1 <= k < |rs| && rs[k] == Failure(rest[0]) && forall j :: 1 <= j < k ==> rs[j].Success?;
      if rs[0].Failure? then [rs[0].error] + rest else rest
  }

  /** The refusals of two lists checked one after the other are those of the first, then those
      of the second: with the single-entry case of Errors, one refusal per refused entry, in order. */
  lemma {:induction false} ErrorsAppend(a: seq<Result<string, EntryError>>, b: seq<Result<string, EntryError>>)
    ensures Errors(a + b) == Errors(a) + Errors(b)
    decreases |a|
  {
    if |a| == 0 {
      assert a + b == b;
    } else {
      assert (a + b)[1..] == a[1..] + b;
      ErrorsAppend(a[1..], b);
    }
  }

  /** There are exactly as many refusals as refused entries. */
  lemma {:induction false} ErrorsCount(rs: seq<Result<string, EntryError>>)
    ensures |Errors(rs)| == |set k | 0 <= k < |rs| && rs[k].Failure?|
    decreases |rs|
  {
    if |rs| > 0 {
      var n := |rs| - 1;
      var front := rs[..n];
      ErrorsCount(front);
      assert front + [rs[n]] == rs;
      ErrorsAppend(front, [rs[n]]);
      var before := set k | 0 <= k < |front| && front[k].Failure?;
      var all := set k | 0 <= k < |rs| && rs[k].Failure?;
      if rs[n].Failure? {
        assert all == before + {n};
      } else {
        assert all == before;
      }
    }
  }

  /** The accepted keys, in entry order. */
  function Pubkeys(rs: seq<Result<string, EntryError>>): (r: seq<string>)
    decreases |rs|
  {
    if |rs| == 0 then []
    else (if rs[0].Success? then [rs[0].value] else []) + Pubkeys(rs[1..])
  }

  /** With no refusal every entry gives its key, in order. */
  lemma {:induction false} PubkeysWhenAllAccepted(rs: seq<Result<string, EntryError>>)
    requires forall k :: 0 <= k < |rs| ==> rs[k].Success?
    ensures |Pubkeys(rs)| == |rs|
    ensures forall k :: 0 <= k < |rs| ==> Pubkeys(rs)[k] == rs[k].value
    decreases |rs|
  {
    if |rs| > 0 {
      PubkeysWhenAllAccepted(rs[1..]);
    }
  }

  /** Every entry of the list, checked. */
  function Classify(entries: seq<string>, decode: string -> Decoded): (r: seq<Result<string, EntryError>>)
    ensures |r| == |entries|
    ensures forall k :: 0 <= k < |entries| ==> r[k] == ClassifyEntry(entries[k], decode)
  {
    seq(|entries|, k requires 0 <= k < |entries| => ClassifyEntry(entries[k], decode))
  }

  /** Why an award was not built. */
  datatype AwardError =
    | NoBadgeSelected
    | NoEntries
    | InvalidEntries(count: nat, first: EntryError)
    | NoValidPubkeys

  /** One `p` tag per recipient key. */
  function PTags(keys: seq<string>): (r: seq<Tag>)
    ensures |r| == |keys|
    ensures forall k :: 0 <= k < |r| ==> r[k] == ["p", keys[k]]
  {
    seq(|keys|, k requires 0 <= k < |keys| => ["p", keys[k]])
  }

  /** Every entry of the list is accepted. */
  predicate AllAccepted(entries: seq<string>, decode: string -> Decoded) {
    forall k :: 0 <= k < |entries| ==> ClassifyEntry(entries[k], decode).Success?
  }

  /** The award built for a selected badge from the parsed entries: an empty list, or a list with
      any refused entry, is reported without publishing (the count of refusals and the first one);
      otherwise the award is built. The no-valid-key error is never produced. */
  function AwardFromEntries(b: BadgeDefinition, entries: seq<string>, decode: string -> Decoded)
    : (r: Result<EventTemplate, AwardError>)
    ensures r == Failure(NoEntries) <==> entries == []
    ensures r.Success? <==> entries != [] && AllAccepted(entries, decode)
    ensures r != Failure(NoValidPubkeys) && r != Failure(NoBadgeSelected)
  {
    if |entries| == 0 then Failure(NoEntries)
    else
      var checked := Classify(entries, decode);
      var errors := Errors(checked);
      if |errors| > 0 then Failure(InvalidEntries(|errors|, errors[0]))
      else
        var pubkeys := Pubkeys(checked);
        PubkeysWhenAllAccepted(checked);
        if |pubkeys| == 0 then Failure(NoValidPubkeys)
        else Success(EventTemplate(AwardKind, "", [["a", BadgeAddress(b.pubkey, b.d)]] + PTags(pubkeys)))
  }

  /** The award dialog's submit: nothing without a badge; otherwise the award built from the
      entries typed into the dialog, or why it was not built. */
  function HandleAward(badge: Option<BadgeDefinition>, input: string, decode: string -> Decoded)
    : (r: Result<EventTemplate, AwardError>)
    ensures badge.None? ==> r == Failure(NoBadgeSelected)
    ensures badge.Some? ==> (r == Failure(NoEntries) <==> RecipientEntries(input) == [])
    ensures r.Success? <==>
              badge.Some? && RecipientEntries(input) != [] && AllAccepted(RecipientEntries(input), decode)
    ensures r != Failure(NoValidPubkeys)
  {
    if badge.None? then Failure(NoBadgeSelected)
    else AwardFromEntries(badge.value, RecipientEntries(input), decode)
  }

  /** A list with a refused entry reports the number of refused entries, and the first refused
      entry's reason. */
  lemma InvalidReportsFirst(b: BadgeDefinition, entries: seq<string>, decode: string -> Decoded)
    requires !AllAccepted(entries, decode)
    ensures var r := AwardFromEntries(b, entries, decode);
      && r.Failure? && r.error.InvalidEntries?
      && r.error.count == |set k | 0 <= k < |entries| && ClassifyEntry(entries[k], decode).Failure?|
      && exists k :: 0 <= k < |entries| && ClassifyEntry(entries[k], decode) == Failure(r.error.first)
           && forall j :: 0 <= j < k ==> ClassifyEntry(entries[j], decode).Success?
  {
    var checked := Classify(entries, decode);
    var errors := Errors(checked);
    assert AwardFromEntries(b, entries, decode) == Failure(InvalidEntries(|errors|, errors[0]));
    FirstRefusal(entries, decode);
    ErrorsCount(checked);
    assert (set k | 0 <= k < |checked| && checked[k].Failure?)
        == (set k | 0 <= k < |entries| && ClassifyEntry(entries[k], decode).Failure?);
  }

  lemma FirstRefusal(entries: seq<string>, decode: string -> Decoded)
    requires Errors(Classify(entries, decode)) != []
    ensures exists k :: 0 <= k < |entries| && ClassifyEntry(entries[k], decode) == Failure(Errors(Classify(entries, decode))[0])
              && forall j :: 0 <= j < k ==> ClassifyEntry(entries[j], decode).Success?
  {
    var checked := Classify(entries, decode);
    var k :| 0 <= k < |checked| && checked[k] == Failure(Errors(checked)[0]) && forall j :: 0 <= j < k ==> checked[j].Success?;
    assert ClassifyEntry(entries[k], decode) == checked[k];
  }

  /** The keys of a list whose every entry is accepted, in entry order. */
  function AcceptedKeys(entries: seq<string>, decode: string -> Decoded): (r: seq<string>)
    requires AllAccepted(entries, decode)
  {
    seq(|entries|, k requires 0 <= k < |entries| => ClassifyEntry(entries[k], decode).value)
  }

  /** A built award is a kind 8 event with empty content, the badge's address in the first tag and
      then one `p` tag per entry, in entry order, carrying that entry's key. */
  lemma AwardTags(b: BadgeDefinition, entries: seq<string>, decode: string -> Decoded)
    requires entries != [] && AllAccepted(entries, decode)
    ensures AwardFromEntries(b, entries, decode)
         == Success(EventTemplate(AwardKind, "", [["a", BadgeAddress(b.pubkey, b.d)]] + PTags(AcceptedKeys(entries, decode))))
  {
    var checked := Classify(entries, decode);
    PubkeysWhenAllAccepted(checked);
    assert Pubkeys(checked) == AcceptedKeys(entries, decode);
  }

  /** What the awards hook decodes from a published award: the badge's address and the accepted
      keys, in entry order, with no relay hints. */
  lemma AwardDecodes(b: BadgeDefinition, entries: seq<string>, decode: string -> Decoded, e: Event)
    requires entries != [] && AllAccepted(entries, decode)
    requires e.tags == [["a", BadgeAddress(b.pubkey, b.d)]] + PTags(AcceptedKeys(entries, decode))
    ensures AwardFromEntries(b, entries, decode).Success?
    ensures AwardFromEntries(b, entries, decode).value.tags == e.tags
    ensures var a := BadgeAwardsHook.ParseBadgeAward(e);
      && a.badgeAddress == BadgeAddress(b.pubkey, b.d)
      && a.awardedTo == seq(|entries|, k requires 0 <= k < |entries| =>
                              BadgeAwardsHook.Recipient(Some(ClassifyEntry(entries[k], decode).value), None))
  {
    AwardTags(b, entries, decode);
    AwardOfKeys(BadgeAddress(b.pubkey, b.d), AcceptedKeys(entries, decode), e);
  }

  /** An award event whose tags are one address tag followed by `p` tags decodes to that address
      and those keys, in order. */
  lemma AwardOfKeys(addr: string, keys: seq<string>, e: Event)
    requires e.tags == [["a", addr]] + PTags(keys)
    ensures BadgeAwardsHook.ParseBadgeAward(e).badgeAddress == addr
    ensures BadgeAwardsHook.ParseBadgeAward(e).awardedTo
         == seq(|keys|, k requires 0 <= k < |keys| => BadgeAwardsHook.Recipient(Some(keys[k]), None))
  {
    var head: seq<Tag> := [["a", addr]];
    assert IsFirst(e.tags, "a", 0);
    BadgeAwardsHook.RecipientsOfAppend(head, PTags(keys));
    SelectNone(head, "p", true);
    SelectAll(PTags(keys), "p", true);
  }

  /** The delete dialog's confirm: a kind 5 event naming the badge's address. */
  function HandleDelete(badge: Option<BadgeDefinition>): (r: Option<EventTemplate>)
    ensures r.Some? <==> badge.Some?
    ensures r.Some? ==> r.value.kind == DeletionKind && r.value.content == "Badge deleted"
    ensures r.Some? ==> r.value.tags == [["a", BadgeAddress(badge.value.pubkey, badge.value.d)]]
  {
    match badge
    case None => None
    case Some(b) => Some(EventTemplate(DeletionKind, "Badge deleted", [["a", BadgeAddress(b.pubkey, b.d)]]))
  }

  /** A deletion names the same badge address an award of that badge names. */
  lemma DeleteNamesAwardedAddress(b: BadgeDefinition, entries: seq<string>, decode: string -> Decoded)
    requires entries != [] && AllAccepted(entries, decode)
    ensures HandleDelete(Some(b)).value.tags[0] == AwardFromEntries(b, entries, decode).value.tags[0]
  {
    AwardTags(b, entries, decode);
  }
}
