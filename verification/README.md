# badgestr: a Dafny model of the badge codecs and proof of work

badgestr is a Nostr client for badges. Issuers create badge definitions (NIP-58 kind 30009), award them to people (kind 8) and delete them (kind 5). Recipients choose which of their awards to show (profile badges, kind 30008, `d` = `profile_badges`). A definition can carry NIP-13 proof of work. The number of leading zero bits of its event id decides its rarity tier: Common, Uncommon, Rare, Epic or Legendary.

This project models the logic under the UI:

- the proof-of-work code: the leading-zero count, the bounded nonce miner, and the rarity table with its lookup;
- the three NIP-58 decoders that turn tag lists into records;
- the encoders the pages run on submit:
  - definition tags, with optional re-mining;
  - award and deletion tags, including the parsing and checking of the recipient list;
  - the profile-badge list;
- the small pure helpers the views use: thumbnail choice, the gallery search, the award-card address split, and the selection toggle.

Tags are `seq<seq<string>>`. A missing array element, JavaScript's `undefined`, is an `Option`. The event hash (`getEventHash`), the clock (`Date.now`) and the NIP-19 decoder (`nip19.decode`) are parameters that the model never interprets.

Modules, one per source file (plus two shared ones):

| module | file | models |
|---|---|---|
| `Wrappers` | wrappers.dfy | `Option` (`undefined`, `??`) and `Result` |
| `Text` | text.dfy | the JavaScript string builtins used: `trim`, `toLowerCase`, `includes`, `startsWith`, `slice`, `split`, number `toString`, and the `join` that the corrected address split under Findings needs |
| `Nostr` | nostr.dfy | events, tags, `find` and `filter` on tag names, the badge address |
| `Pow` | pow.dfy | src/lib/pow.ts |
| `BadgeDefinitionHook` | badge_definition.dfy | src/hooks/useBadgeDefinition.ts |
| `BadgeDefinitionsHook` | badge_definitions.dfy | src/hooks/useBadgeDefinitions.ts |
| `BadgeAwardsHook` | badge_awards.dfy | src/hooks/useBadgeAwards.ts |
| `ProfileBadgesHook` | profile_badges.dfy | src/hooks/useProfileBadges.ts |
| `BadgeForm` | badge_form.dfy | the definition tags that CreateBadge.tsx and EditBadge.tsx both build |
| `CreateBadgePage` | create_badge.dfy | src/pages/CreateBadge.tsx |
| `EditBadgePage` | edit_badge.dfy | src/pages/EditBadge.tsx |
| `ManageBadgesPage` | manage_badges.dfy | src/pages/ManageBadges.tsx |
| `MyBadgesPage` | my_badges.dfy | src/pages/MyBadges.tsx |
| `BadgeGalleryPage` | badge_gallery.dfy | src/pages/BadgeGallery.tsx |
| `BadgeImageView` | badge_image.dfy | src/components/badges/BadgeImage.tsx |
| `BadgeAwardCardView` | badge_award_card.dfy | src/components/badges/BadgeAwardCard.tsx |

Where the model follows the code rather than a description of it:

- A character that is not a hex digit makes `parseInt` return `NaN`, and `Math.clz32(NaN)` is 32. Such a character therefore adds 4 to the zero count and ends it. It is not treated as an error.
- The edit page re-mines at the badge's exact original bit count, not at its tier's threshold.
- It appends only the mined event's `nonce` tag to the tags it built.
- The recipient parser does not remove duplicate keys.

## Model

| member | source | states |
|---|---|---|
| Pow.ParseNibble | src/lib/pow.ts:10 | a character parses, to a value below 16, exactly when it is a hex digit of either case; anything else is `NaN`; the value is fixed by ParseNibbleTable and ParseNibbleValue |
| Pow.ParseNibbleTable | src/lib/pow.ts:10 | every digit of `0123456789abcdef` and `0123456789ABCDEF` parses to its position in the table |
| Pow.ParseNibbleValue | src/lib/pow.ts:10 | whatever parses is the table's digit at the parsed value, so `parseInt(c, 16)` is the digit's value |
| Pow.NibbleLeadingZeros | src/lib/pow.ts:14 | `clz32(v) - 28` of a nibble value is the number of leading zero bits of its 4-bit binary expansion |
| Pow.CountLeadingZeroes | src/lib/pow.ts:6-20 | the count never exceeds 4 bits per character of the id |
| Pow.CountIsLeadingZeroBits | src/lib/pow.ts:6-20 | on a hex id, the count equals the leading zero bits of the id's binary expansion, so it is the NIP-13 difficulty |
| Pow.CountZeros | src/lib/pow.ts:6-20 | n zero digits count 4n, so the empty id counts 0 |
| Pow.PrependZero | src/lib/pow.ts:9-13 | a leading zero digit adds exactly 4 to the count of the rest |
| Pow.FirstNonZeroNibble | src/lib/pow.ts:14-15 | the first non-zero digit adds 3 (for 1), 2 (for 2-3), 1 (for 4-7) or 0 (for 8-f), and nothing after it is read |
| Pow.NonHexStops | src/lib/pow.ts:10-15 | a non-hex character adds 4 and ends the count |
| Pow.CountExamples | src/lib/pow.ts:9-19 | "00f…" counts 8, "0fff…" counts 4, "8fff…" counts 0, whatever follows |
| Pow.GetRarityByDifficulty | src/lib/pow.ts:88-94 | the tier returned has a threshold no higher than the difficulty and is the highest such tier; negative difficulties give Common |
| Pow.RarityMonotone | src/lib/pow.ts:88-94 | more leading zero bits never give a lower tier |
| Pow.RarityOfThreshold | src/lib/pow.ts:75-94 | each tier's own threshold from `BADGE_RARITY` maps back to that tier |
| Pow.RarityBoundaries | src/lib/pow.ts:75-94 | 0, 16, 21, 32 and 64 open the five tiers, and 15, 20, 31 and 63 still belong to the tier below |
| Pow.NonceTag | src/lib/pow.ts:39 | the nonce tag is named `nonce` and has exactly three elements |
| Pow.NonceTagSpellsValues | src/lib/pow.ts:39 | element 1 is the nonce in decimal digits; element 2 is the target in decimal digits, preceded by a minus sign when the target is negative |
| Pow.StripNonce | src/lib/pow.ts:35 | no `nonce` tag survives the filter |
| Pow.StripAfterNonce | src/lib/pow.ts:40-43 | re-filtering after a nonce tag was appended gives back exactly the non-nonce tags, so every attempt starts from the same tags |
| Pow.FindNonceAfterStrip | src/lib/pow.ts:40-43 | the appended nonce tag is the only nonce tag of an attempt, so `find` returns it |
| Pow.StepIsAttempt | src/lib/pow.ts:37-49 | one pass of the loop body produces that nonce's candidate, whatever earlier passes left behind, and keeps pubkey, kind, content and the non-nonce tags |
| Pow.ProgressReportsShape | src/lib/pow.ts:55-57 | progress is reported exactly at nonces divisible by 10,000, with that attempt's difficulty: ceil(n / 10,000) reports in the first n attempts |
| Pow.ProgressStep | src/lib/pow.ts:55-57 | an attempt adds a report exactly when its nonce is divisible by 10,000, before the success check |
| Pow.MineEvent | src/lib/pow.ts:26-70 | on success the id is the hash of the returned fields and has at least `target` leading zero bits; the tags are the input's non-nonce tags in order plus one `['nonce', n, target]`; every earlier nonce fell short; n ≤ 10,000,000; failure comes only after nonces 0..10,000,000 all fell short; a target ≤ 0 succeeds at nonce 0; the reports match the progress schedule |
| Nostr.FindTag | src/hooks/useBadgeDefinition.ts:22-25 | `find` by name is absent exactly when no tag has the name, and is otherwise the first tag that does |
| Nostr.FindTagAppend | src/hooks/useBadgeDefinition.ts:22-25 | `find` on joined lists finds in the first list when it can, else in the second |
| Nostr.FindTagSkip | src/hooks/useBadgeDefinition.ts:22-25 | a tag with another name, wherever it sits, does not change what `find` returns |
| Nostr.Select | src/hooks/useBadgeDefinition.ts:28-29 | `filter` by name keeps only tags whose name test matches and never grows the list |
| Nostr.SelectAppend | src/hooks/useBadgeDefinition.ts:28-29 | `filter` distributes over concatenation, so kept tags stay in their order |
| Nostr.SelectSkip | src/hooks/useBadgeDefinition.ts:28-29 | a tag the filter rejects, wherever it sits, does not change what the filter keeps |
| Text.Trim | src/pages/ManageBadges.tsx:55 | the trimmed string is an infix of the input, every character of the input before or after it is ECMAScript white space or a line terminator, and it neither starts nor ends with one; a string already without such ends is unchanged |
| Text.ToLower | src/pages/BadgeGallery.tsx:75 | lowercasing keeps the length and maps every character by itself (ASCII letters only) |
| Text.ToLowerIdempotent | src/pages/BadgeGallery.tsx:75 | lowercasing twice is lowercasing once |
| Text.Head | src/pages/ManageBadges.tsx:79 | `slice(0, 20)` is the prefix of length min(20, length) |
| Text.Split | src/pages/ManageBadges.tsx:54 | a split has at least one piece, and no piece contains a separator |
| Text.SplitAround | src/pages/ManageBadges.tsx:54 | splitting at a separator concatenates the splits of both sides |
| Text.JoinSplit | src/components/badges/BadgeAwardCard.tsx:16 | joining the pieces of a split on one character with that character restores the string |
| Text.NatToString | src/lib/pow.ts:39 | a nonce's decimal string is non-empty, all digits, a single digit exactly below 10, and starts with `0` only when it is `0` |
| Text.NatToStringValue | src/lib/pow.ts:39 | the digits of `nonce.toString()` read in base 10 give back the nonce |
| Text.NatToStringInjective | src/lib/pow.ts:39 | distinct nonces are spelled differently |
| Text.IntToStringValue | src/lib/pow.ts:39 | `targetDifficulty.toString()` is its digits, with a leading minus sign exactly for a negative target, and they read back as its value |
| BadgeDefinitionHook.FirstValue | src/hooks/useBadgeDefinition.ts:22-24 | `find(...)?.[i]` is element i of the first tag with the name, or absent when there is no such tag or it is too short |
| BadgeDefinitionHook.ThumbsOf | src/hooks/useBadgeDefinition.ts:28-30 | one thumbnail per `thumb` tag |
| BadgeDefinitionHook.ThumbsOfAppend | src/hooks/useBadgeDefinition.ts:28-30 | thumbnails of joined tag lists are the joined thumbnails, so their order is tag order |
| BadgeDefinitionHook.ThumbsOfOne | src/hooks/useBadgeDefinition.ts:28-30 | a single tag gives one thumbnail, url = element 1 and dimensions = element 2, exactly when it is a `thumb` tag |
| BadgeDefinitionHook.FindThumb | src/pages/EditBadge.tsx:89-93 | the thumbnail search is absent exactly when no thumbnail has the dimensions, and otherwise is the first one that does |
| BadgeDefinitionHook.ParseBadgeDefinition | src/hooks/useBadgeDefinition.ts:20-49 | id, pubkey and event pass through; the thumbnails are those of the event's tags, one per `thumb` tag in tag order, by ThumbsOfAppend and ThumbsOfOne; the difficulty is the id's leading-zero count, at most 4 × id length, and the rarity is the tier that count selects, so its threshold is met |
| BadgeDefinitionHook.DecodedFields | src/hooks/useBadgeDefinition.ts:22-27 | `d` is element 1 of the first `d` tag or `''`; name and description are element 1 of the first tag of their name; image and dimensions are elements 1 and 2 of the first `image` tag; later duplicates are ignored and a missing tag decodes as absent |
| BadgeDefinitionHook.RarityFromIdOnly | src/hooks/useBadgeDefinition.ts:33-34 | difficulty is the leading-zero count of the id, and difficulty and rarity depend on the id alone |
| BadgeDefinitionHook.OtherTagIgnored | src/hooks/useBadgeDefinition.ts:20-48 | a tag with a name the decoder does not read (a `nonce`, say), wherever it sits, changes no decoded field |
| BadgeDefinitionsHook.CopiesAgree | src/hooks/useBadgeDefinitions.ts:7-36 | the second copy of the decoder decodes every event exactly as the first |
| BadgeDefinitionsHook.ParseAll | src/hooks/useBadgeDefinitions.ts:58 | one definition per returned event, each decoded by this hook's copy of the decoder, same length and order |
| BadgeAwardsHook.RecipientsOf | src/hooks/useBadgeAwards.ts:16-18 | one recipient per `p` tag |
| BadgeAwardsHook.RecipientsOfAppend | src/hooks/useBadgeAwards.ts:16-18 | recipients of joined tag lists are the joined recipients: tag order, duplicates kept |
| BadgeAwardsHook.RecipientsOfOne | src/hooks/useBadgeAwards.ts:16-18 | a single tag gives one recipient, key = element 1 and relay = element 2 (absent if missing), exactly when it is a `p` tag |
| BadgeAwardsHook.ParseBadgeAward | src/hooks/useBadgeAwards.ts:13-27 | id, pubkey and event pass through; the address is element 1 of the first `a` tag or `''`; the recipients are those of the event's tags, one per `p` tag in tag order with pubkey and relay from elements 1 and 2, by RecipientsOfAppend and RecipientsOfOne |
| BadgeAwardsHook.OtherTagIgnored | src/hooks/useBadgeAwards.ts:13-26 | a tag other than `a` and `p`, wherever it sits, changes neither address nor recipients |
| BadgeAwardsHook.AwardExample | src/hooks/useBadgeAwards.ts:15-18 | an address tag and two `p` tags, one with a relay hint, decode to that address and those two recipients in order |
| BadgeAwardsHook.ParseAll | src/hooks/useBadgeAwards.ts:65 | one award per returned event, same length and order |
| ProfileBadgesHook.PairsDisjoint | src/hooks/useProfileBadges.ts:32 | the `e` tag of a pair never starts another pair, so no tag feeds two entries |
| ProfileBadgesHook.ScanFrom | src/hooks/useProfileBadges.ts:22-34 | the scan yields at most half as many entries as there are tags left |
| ProfileBadgesHook.PairPositions | src/hooks/useProfileBadges.ts:26 | each listed position holds an `a` tag directly followed by an `e` tag, and positions ascend at least two apart |
| ProfileBadgesHook.PairPositionsComplete | src/hooks/useProfileBadges.ts:22-34 | every adjacent `a`/`e` position is listed |
| ProfileBadgesHook.ScanIsAllPairs | src/hooks/useProfileBadges.ts:22-34 | the greedy scan reads exactly the entries at every adjacent `a`/`e` position, in tag order: being greedy loses nothing |
| ProfileBadgesHook.ScanShift | src/hooks/useProfileBadges.ts:22-34 | the scan is positional: tags in front shift it without changing what it reads |
| ProfileBadgesHook.Badges | src/hooks/useProfileBadges.ts:17-41 | the entries are those of the adjacent `a`/`e` pairs in tag order, and there are at most ⌊tags/2⌋ of them |
| ProfileBadgesHook.ParseProfileBadges | src/hooks/useProfileBadges.ts:17-41 | the source's loop, with its extra `i++`, yields the entries of the adjacent `a`/`e` pairs (address = a[1], id = e[1], relay = e[2]) in tag order, and passes the pubkey through |
| ProfileBadgesHook.ShortListEmpty | src/hooks/useProfileBadges.ts:22 | fewer than two tags give no entry |
| ProfileBadgesHook.OrphanDropped | src/hooks/useProfileBadges.ts:22-34 | `[d, a1, e1, a2, x, e2]` gives exactly the entry of `a1`/`e1` |
| ProfileBadgesHook.LaterAddressWins | src/hooks/useProfileBadges.ts:22-33 | `[a1, a2, e]` gives one entry, built from `a2` and `e` |
| BadgeForm.SlotTags | src/pages/CreateBadge.tsx:115-119 | every thumbnail tag is a three-element `thumb` tag |
| BadgeForm.BuildDefinitionTags | src/pages/CreateBadge.tsx:104-119 | the first tag is `['d', d]`; every tag has a value; none is a `nonce` tag |
| BadgeForm.SetSlots | src/pages/CreateBadge.tsx:115-119 | only set slots give thumbnails, each with its slot's dimensions |
| BadgeForm.ThumbTagDecodes | src/pages/CreateBadge.tsx:115 | a slot's tag decodes to its url and dimensions when set, and to nothing when empty |
| BadgeForm.SlotTagsDecode | src/pages/CreateBadge.tsx:115-119 | the thumbnail tags decode to the set slots in slot order 512, 256, 64, 32, 16 |
| BadgeForm.FindName | src/pages/CreateBadge.tsx:106 | the built tags have a `name` tag exactly when the name is set, carrying that name |
| BadgeForm.FindDescription | src/pages/CreateBadge.tsx:107 | the built tags have a `description` tag exactly when the description is set, carrying it |
| BadgeForm.FindImage | src/pages/CreateBadge.tsx:108-114 | the built tags have an `image` tag exactly when the image is set |
| BadgeForm.BuiltThumbs | src/pages/CreateBadge.tsx:115-119 | the built tags' thumbnails are the set slots in slot order |
| BadgeForm.DecodeBuiltTags | src/pages/CreateBadge.tsx:104-119 | decoding the built tags gives back `d`, the set name, description and image, the image dimensions only when both image and dimensions are set, and the set thumbnails in slot order |
| CreateBadgePage.DraftEvent | src/pages/CreateBadge.tsx:138-146 | the event handed to the miner has kind 30009, empty content, the built tags, the user's pubkey and the submit time rounded down to seconds |
| CreateBadgePage.Submit | src/pages/CreateBadge.tsx:101-174 | nothing without a user; kind 30009 with empty content; a tier with difficulty 0 publishes the built tags unchanged; any other tier publishes the built tags plus the nonce tag of the first attempt that meets the tier's difficulty; nothing is published only when every attempt up to 10,000,000 fell short |
| CreateBadgePage.MinedTagsDecode | src/pages/CreateBadge.tsx:148-153 | a mined badge decodes to the same fields as the unmined tags: the nonce tag is invisible to the decoder |
| CreateBadgePage.MinedRarityAtLeast | src/pages/CreateBadge.tsx:121-126 | an id that meets the chosen tier's difficulty decodes to that tier or a rarer one |
| EditBadgePage.UrlOf | src/pages/EditBadge.tsx:95-99 | a slot's text is the found thumbnail's url, or `''` when there is no thumbnail or it has no url |
| EditBadgePage.SlotUrlIsFirst | src/pages/EditBadge.tsx:89-99 | a slot holds the url of the first thumbnail whose dimensions equal the slot's string exactly, or `''` when none does |
| EditBadgePage.FormFromBadge | src/pages/EditBadge.tsx:80-100 | the text fields are the decoded values or `''`, and each slot is filled from the first thumbnail of its size |
| EditBadgePage.OriginalDifficulty | src/pages/EditBadge.tsx:151 | the loaded badge's exact bit count, 0 with no badge |
| EditBadgePage.Submit | src/pages/EditBadge.tsx:129-214 | nothing without a user; kind 30009 with empty content; with no original work the built tags are published unchanged; otherwise they are followed by the nonce tag of the first attempt reaching the original bit count (not the tier threshold); nothing is published only when mining gave up |
| EditBadgePage.ResaveUnchanged | src/pages/EditBadge.tsx:80-147 | saving a loaded badge without edits keeps `d`, the (non-empty) name, description and image, and keeps of the thumbnails the first of each standard size, in slot order |
| EditBadgePage.CanonicalThumbs | src/pages/EditBadge.tsx:143-147 | every re-encoded thumbnail is a set slot with a standard size's dimensions, so thumbnails of other sizes, and second ones of a size, are dropped |
| ManageBadgesPage.DropEmpty | src/pages/ManageBadges.tsx:56 | exactly the non-empty pieces remain; order and multiplicity by DropEmptyAppend and DropEmptyOne |
| ManageBadgesPage.DropEmptyAppend | src/pages/ManageBadges.tsx:56 | dropping distributes over concatenation, so the kept pieces stay in order with duplicates |
| ManageBadgesPage.DropEmptyOne | src/pages/ManageBadges.tsx:56 | a single piece is kept exactly when it is non-empty |
| ManageBadgesPage.TrimEach | src/pages/ManageBadges.tsx:55 | each piece is trimmed, and each non-empty result is a clean entry |
| ManageBadgesPage.RecipientEntries | src/pages/ManageBadges.tsx:53-56 | every entry is non-empty, has no blank at either end and holds no newline or comma; which entries, in what order, by RecipientEntriesPlain and RecipientEntriesAround |
| ManageBadgesPage.RecipientEntriesPlain | src/pages/ManageBadges.tsx:53-56 | text without a newline or comma gives its trim as the one entry, or none when that is empty |
| ManageBadgesPage.RecipientEntriesAround | src/pages/ManageBadges.tsx:53-56 | the entries of text split at a newline or comma are the entries before it followed by those after it, so entries keep input order and duplicates |
| ManageBadgesPage.TrimEachAppend | src/pages/ManageBadges.tsx:55 | trimming each piece distributes over concatenation |
| ManageBadgesPage.NonBlankPiecesKept | src/pages/ManageBadges.tsx:53-56 | every piece between separators that is not blank becomes an entry, trimmed |
| ManageBadgesPage.SplitJoin | src/pages/ManageBadges.tsx:54 | keys without separators split back out of their joined form |
| ManageBadgesPage.EntriesOfJoined | src/pages/ManageBadges.tsx:53-56 | clean keys typed one per line, or separated by commas, are read back as exactly those keys in that order |
| ManageBadgesPage.ClassifyEntry | src/pages/ManageBadges.tsx:71-90 | an `npub1` entry is accepted exactly when the decoder yields an npub, giving its hex; any other entry is accepted exactly when it is 64 hex digits, giving them lowercase; a refusal is an invalid npub when the decoder yields another kind, a decode failure when it throws, and not npub or hex otherwise, each showing the first 20 characters |
| ManageBadgesPage.HexCaseInsensitive | src/pages/ManageBadges.tsx:81-83 | a hex key and its lowercase form are accepted alike, as the lowercase key |
| ManageBadgesPage.Classify | src/pages/ManageBadges.tsx:71-90 | every entry is checked, in order |
| ManageBadgesPage.Errors | src/pages/ManageBadges.tsx:68-95 | there are no refusals exactly when every entry was accepted; the first refusal is that of the first refused entry; one checked entry gives its refusal or none |
| ManageBadgesPage.ErrorsAppend | src/pages/ManageBadges.tsx:68-90 | refusals of two lists checked one after the other are the first list's then the second's, so refusals follow entry order |
| ManageBadgesPage.ErrorsCount | src/pages/ManageBadges.tsx:92-95 | `errors.length` is the number of refused entries |
| ManageBadgesPage.PubkeysWhenAllAccepted | src/pages/ManageBadges.tsx:68-90 | with no refusal there is one key per entry, in entry order |
| ManageBadgesPage.PTags | src/pages/ManageBadges.tsx:114-116 | one `['p', key]` per key, in order |
| ManageBadgesPage.AwardFromEntries | src/pages/ManageBadges.tsx:58-116 | an empty list is reported exactly when there is no entry; an award is built exactly when the list is non-empty and every entry is accepted; the no-valid-pubkeys error never occurs |
| ManageBadgesPage.HandleAward | src/pages/ManageBadges.tsx:49-116 | with no badge, nothing; an empty list is reported exactly when no entry is left after parsing; an award is built exactly when a badge is selected, the parsed list is non-empty and every entry is accepted; the no-valid-pubkeys error never occurs |
| ManageBadgesPage.InvalidReportsFirst | src/pages/ManageBadges.tsx:92-99 | a list with a refused entry builds no award and reports the number of refused entries and the reason of the first refused entry |
| ManageBadgesPage.AwardTags | src/pages/ManageBadges.tsx:110-123 | an award is kind 8 with empty content, the tag `['a', '30009:<pubkey>:<d>']` first, then one `p` tag per entry's key in entry order, without deduplication |
| ManageBadgesPage.AwardOfKeys | src/pages/ManageBadges.tsx:110-116 | an address tag followed by `p` tags decodes to that address and those keys in order |
| ManageBadgesPage.AwardDecodes | src/pages/ManageBadges.tsx:110-116 | an award is built for a fully accepted list, and the awards decoder reads back from its tags the badge's address and exactly the accepted keys in entry order, without relay hints |
| ManageBadgesPage.HandleDelete | src/pages/ManageBadges.tsx:141-150 | a deletion exists exactly when a badge is selected: kind 5, content "Badge deleted", and the single tag `['a', '30009:<pubkey>:<d>']` |
| ManageBadgesPage.DeleteNamesAwardedAddress | src/pages/ManageBadges.tsx:149 | the deletion's tag is the same address tag an award of the badge starts with |
| MyBadgesPage.WithoutSpec | src/pages/MyBadges.tsx:36 | `delete` keeps exactly the other ids, keeps them distinct, and changes nothing when the id is absent |
| MyBadgesPage.Toggle | src/pages/MyBadges.tsx:32-42 | the toggled id's membership flips, every other id keeps its membership, ids stay distinct, and a new id is added at the end |
| MyBadgesPage.ToggleTwice | src/pages/MyBadges.tsx:32-42 | toggling twice restores the membership; a previously selected id moves to the end of insertion order |
| MyBadgesPage.FindIn | src/pages/MyBadges.tsx:52 | the award found has the id and is a loaded award, and none is found exactly when no loaded award has the id; FindInFirst fixes which one |
| MyBadgesPage.FindInFirst | src/pages/MyBadges.tsx:52 | `find` returns the loaded award at the least index whose id matches |
| MyBadgesPage.Matched | src/pages/MyBadges.tsx:51-56 | no more awards are matched than ids are selected |
| MyBadgesPage.MatchedMembers | src/pages/MyBadges.tsx:51-56 | matched awards are loaded awards of selected ids, and each selected id with a loaded award contributes it |
| MyBadgesPage.AwardPairs | src/pages/MyBadges.tsx:54-55 | each award contributes exactly two tags |
| MyBadgesPage.SaveProfileBadges | src/pages/MyBadges.tsx:44-64 | nothing exactly when there is no user; otherwise kind 30008 with empty content and tags `['d','profile_badges']` followed by `['a', address]`, `['e', id]` for each selected id with a loaded award, in selection order; length 1 + 2 × matched |
| MyBadgesPage.ScanAwardPairs | src/pages/MyBadges.tsx:51-56 | the profile-badge decoder reads each saved pair back as its award's address and id |
| MyBadgesPage.SavedBadgesDecode | src/pages/MyBadges.tsx:47-57 | decoding a saved list gives the matched awards' addresses and ids in selection order |
| BadgeGalleryPage.FilterBadges | src/pages/BadgeGallery.tsx:73-81 | a badge is kept exactly when it is loaded and the query is empty or, lowercased, occurs in its lowercased name, `d` or description |
| BadgeGalleryPage.FilteredBadges | src/pages/BadgeGallery.tsx:73-81 | there is a result exactly when badges are loaded, and it keeps exactly the matching badges |
| BadgeGalleryPage.EmptyQueryKeepsAll | src/pages/BadgeGallery.tsx:74 | an empty query keeps every badge, in order |
| BadgeGalleryPage.FilterAppend | src/pages/BadgeGallery.tsx:73 | filtering a concatenation filters each part |
| BadgeGalleryPage.FilterIsSubsequence | src/pages/BadgeGallery.tsx:73 | the result is an order-preserving subsequence of the loaded badges |
| BadgeGalleryPage.QueryCaseInsensitive | src/pages/BadgeGallery.tsx:75 | a query and its lowercase form select the same badges |
| BadgeGalleryPage.AwardsQueryAddress | src/pages/BadgeGallery.tsx:64-66 | the awards query has an address exactly when a badge is selected, and it starts `30009:` |
| BadgeGalleryPage.AwardsQueryIsAwardAddress | src/pages/BadgeGallery.tsx:64-66 | the queried address is the `a` tag value of the award the manage page builds for the selected badge |
| BadgeGalleryPage.AwardsQueryNamesBadge | src/pages/BadgeGallery.tsx:64-66 | split back with the whole remainder taken, the queried address gives the selected badge's issuer and `d` |
| BadgeImageView.SizeMapInjective | src/components/badges/BadgeImage.tsx:10-17 | distinct sizes ask for distinct dimensions |
| BadgeImageView.ImageSource | src/components/badges/BadgeImage.tsx:31-53 | full size with an image set shows the image; otherwise the first thumbnail of the size's dimensions, else the first thumbnail, else the image; any source is the image or some thumbnail's url |
| BadgeImageView.PlaceholderExactlyWithoutSources | src/components/badges/BadgeImage.tsx:55-67 | without thumbnails the placeholder shows exactly when there is no image |
| BadgeAwardCardView.SplitAddress | src/components/badges/BadgeAwardCard.tsx:16-18 | pubkey and `d` are colon fields 1 and 2, each absent when the address has too few fields |
| BadgeAwardCardView.SplitRoundTrip | src/components/badges/BadgeAwardCard.tsx:16-18 | an address built from a colon-free pubkey and `d` splits back into exactly them |
| BadgeAwardCardView.ColonInDTruncates | src/components/badges/BadgeAwardCard.tsx:16-18 | a `d` holding a colon comes back cut at its first colon |
| BadgeAwardCardView.EmptyAddress | src/components/badges/BadgeAwardCard.tsx:16-18 | an empty address has neither field |
| BadgeAwardCardView.SplitAddressWhole | src/components/badges/BadgeAwardCard.tsx:16-18 | the corrected split reads the same pubkey, and has a `d` exactly when the as-written split does |
| BadgeAwardCardView.WholeRoundTrip | src/components/badges/BadgeAwardCard.tsx:16-18 | with the whole remainder taken as `d`, every address built from a colon-free pubkey splits back into that pubkey and `d`, colons included |
| BadgeAwardCardView.RecipientLabel | src/components/badges/BadgeAwardCard.tsx:55 | the label is "person" exactly when there is one recipient, and "people" otherwise |

## Findings

| source | as written | input that shows it | evidently intended | confidence | as-written member | corrected member |
|---|---|---|---|---|---|---|
| src/components/badges/BadgeAwardCard.tsx:16-18 | the `d` of an address is colon field 2 of `split(":")` | `30009:<pubkey>:a:b` gives `d` = `a`, so the card looks up a different definition than the one awarded | everything after the second colon (`parts.slice(2).join(":")`), since a NIP-01 `d` may contain colons | medium, not executed | BadgeAwardCardView.ColonInDTruncates | BadgeAwardCardView.WholeRoundTrip |

## Left out

- Rendering, zod form validation, toasts, routing, navigation, SEO metadata and loading states are presentation. This includes the card title `name || d || "Loading..."`.
- Relay queries, `useQuery` caching, abort timeouts and retries are network I/O. The query filters built in the hooks are not modelled.
- `getEventHash` is a parameter `hash: Preimage -> string`, and no SHA-256 is modelled. `Date.now` is a parameter `clock`, read once per mining attempt, plus `nowMs` for the draft timestamp.
- `nip19.decode` is a parameter `decode: string -> Decoded`. Its three outcomes are an npub's hex key, another NIP-19 kind, or a throw. Bech32 itself is not modelled.
- `estimateMiningTime` and `formatMiningTime` use floating point (`Math.pow`, `Math.round`).
- The `setTimeout` and promise wrappers around mining are left out. When mining throws, the page's promise never resolves. The model renders this as "nothing is published" (`None`).
- The publisher (`useNostrPublish`) is not part of this model. The model stops at the kind, content and tags handed to it. Signing, stamping `created_at` and sending are not modelled, so nothing is claimed about whether the published event keeps the mined id.
- The `useState` initializer on the my-badges page (src/pages/MyBadges.tsx:82-87) is a React state quirk. It is not modelled, and the selection starts from whatever list is given.
- BadgeImageView.ImageSource models a fresh mount. React keeps the previous `imgSrc` when the effect sets nothing, and that carry-over is not modelled.
- Image upload (Blossom), including the `1024x1024` dimensions it fills in, is I/O and is not modelled.
- The rarity chosen in the create form is passed in as a `Rarity` value, since the form offers only the five tiers.
- The login check is modelled as `user: Option<string>`, the user's pubkey.
- Text.Head: counts `char`s, which are Unicode scalar values, while JavaScript's `slice` and `length` count UTF-16 code units. An entry with a character outside the Basic Multilingual Plane in its first 20 units is therefore cut at a different place in the refusal message. UTF-16 encoding is not modelled.
- Text.ToLower: maps only ASCII letters, because Unicode case mapping tables are not modelled. Hex keys are ASCII, so the recipient check is unaffected. Gallery queries, names, `d` and descriptions are free text and may hold non-ASCII letters. For those letters the model's search (BadgeGalleryPage.FilterBadges) is case-sensitive, where JavaScript's `toLowerCase` would make it case-insensitive.
- Pow.Clz32: defined only on the values below 16 that it receives here (a nibble, or the 0 that `NaN` converts to), not on all 32-bit integers.
- Nostr.Select: states only which tags can be kept and a length bound. Order and completeness are stated by Nostr.SelectAppend and Nostr.SelectSkip.
- MyBadgesPage.Matched: states only a length bound. Membership is stated by MyBadgesPage.MatchedMembers.
- CreateBadgePage.Submit: the progress callback (`setMiningProgress`) is not surfaced. Its reports are stated on Pow.MineEvent.
