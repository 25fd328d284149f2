/** NIP-13 proof of work: the leading-zero-bit count of an event id, the miner that searches
    nonces until the count reaches a target, and the rarity tiers derived from the count. */
module Pow {
  import opened Wrappers
  import opened Nostr
  import Text

  // ---------------------------------------------------------------------------------------
  // Difficulty: leading zero bits of a hex id
  // ---------------------------------------------------------------------------------------

  /** The hex digits in value order, in both cases. */
  const HexDigitsLower: string := "0123456789abcdef"
  const HexDigitsUpper: string := "0123456789ABCDEF"

  /** `parseInt(c, 16)` on one character: a hex digit of either case, `NaN` (None) otherwise. */
  function ParseNibble(c: char): (r: Option<nat>)
    ensures r.Some? ==> r.value < 16
    ensures r.Some? <==> ('0' <= c <= '9' || 'a' <= c <= 'f' || 'A' <= c <= 'F')
  {
    if '0' <= c <= '9' then Some(c as int - '0' as int)
    else if 'a' <= c <= 'f' then Some(c as int - 'a' as int + 10)
    else if 'A' <= c <= 'F' then Some(c as int - 'A' as int + 10)
    else None
  }

  /** Each digit of either case parses to its position in the digit table. */
  lemma ParseNibbleTable()
    ensures forall v :: 0 <= v < 16 ==> ParseNibble(HexDigitsLower[v]) == Some(v) && ParseNibble(HexDigitsUpper[v]) == Some(v)
  {
    forall v | 0 <= v < 16
      ensures ParseNibble(HexDigitsLower[v]) == Some(v) && ParseNibble(HexDigitsUpper[v]) == Some(v)
    {
      TableChar(v);
    }
  }

  /** Whatever parses is the table's digit at the parsed value, so the value is the digit's. */
  lemma ParseNibbleValue(c: char)
    requires ParseNibble(c).Some?
    ensures c == HexDigitsLower[ParseNibble(c).value] || c == HexDigitsUpper[ParseNibble(c).value]
  {
    var v := ParseNibble(c).value;
    TableChar(v);
    if 'A' <= c <= 'F' {
      assert HexDigitsUpper[v] as int == c as int;
    } else {
      assert HexDigitsLower[v] as int == c as int;
    }
  }

  lemma TableChar(v: nat)
    requires v < 16
    ensures HexDigitsLower[v] as int == if v < 10 then '0' as int + v else 'a' as int + v - 10
    ensures HexDigitsUpper[v] as int == if v < 10 then '0' as int + v else 'A' as int + v - 10
  {
  }

  predicate IsHex(s: string) {
    forall k :: 0 <= k < |s| ==> ParseNibble(s[k]).Some?
  }

  /** `Math.clz32` on the values it meets here: a nibble value, or 0, which is what `ToUint32`
      makes of `NaN`. */
  function Clz32(x: nat): (r: nat)
    requires x < 16
    ensures 28 <= r <= 32
  {
    if x == 0 then 32 else if x == 1 then 31 else if x < 4 then 30 else if x < 8 then 29 else 28
  }

  /** `countLeadingZeroes`: walk the id nibble by nibble, adding 4 per zero nibble and stopping
      at the first other character, which adds `clz32(value) - 28`. A character that is not a
      hex digit parses to `NaN`, whose `clz32` is 32, so it adds 4 and stops. */
  function CountLeadingZeroes(hex: string): (r: nat)
    ensures r <= 4 * |hex|
    decreases |hex|
  {
    if |hex| == 0 then 0
    else match ParseNibble(hex[0])
      case Some(v) => if v == 0 then 4 + CountLeadingZeroes(hex[1..]) else Clz32(v) - 28
      case None => Clz32(0) - 28
  }

  /** The four bits of a nibble value, most significant first. */
  function NibbleBits(v: nat): (r: seq<bool>)
    requires v < 16
    ensures |r| == 4
  {
    [v / 8 % 2 == 1, v / 4 % 2 == 1, v / 2 % 2 == 1, v % 2 == 1]
  }

  /** The binary expansion of a hex string, four bits per digit. */
  function HexBits(hex: string): (r: seq<bool>)
    requires IsHex(hex)
    ensures |r| == 4 * |hex|
    decreases |hex|
  {
    if |hex| == 0 then [] else NibbleBits(ParseNibble(hex[0]).value) + HexBits(hex[1..])
  }

  /** The number of leading zero (false) bits. */
  function LeadingZeroBits(bits: seq<bool>): (r: nat)
    ensures r <= |bits|
    decreases |bits|
  {
    if |bits| == 0 || bits[0] then 0 else 1 + LeadingZeroBits(bits[1..])
  }

  /** Counting across a join: the first part's count, plus the second's when the first is all zero. */
  lemma {:induction false} LeadingZeroBitsAppend(a: seq<bool>, b: seq<bool>)
    ensures LeadingZeroBits(a + b) ==
      if LeadingZeroBits(a) < |a| then LeadingZeroBits(a) else |a| + LeadingZeroBits(b)
    decreases |a|
  {
    if |a| > 0 {
      assert (a + b)[0] == a[0];
      assert (a + b)[1..] == a[1..] + b;
      LeadingZeroBitsAppend(a[1..], b);
    } else {
      assert a + b == b;
    }
  }

  /** Leading zeros of a 4-bit group: the position of its first set bit, 4 if none. */
  lemma LeadingZeroBitsOfFour(b: seq<bool>)
    requires |b| == 4
    ensures LeadingZeroBits(b) == if b[0] then 0 else if b[1] then 1 else if b[2] then 2 else if b[3] then 3 else 4
  {
    var b1 := b[1..];
    var b2 := b1[1..];
    var b3 := b2[1..];
    assert LeadingZeroBits(b3[1..]) == 0;
    assert LeadingZeroBits(b3) == if b[3] then 0 else 1;
    assert LeadingZeroBits(b2) == if b[2] then 0 else 1 + LeadingZeroBits(b3);
    assert LeadingZeroBits(b1) == if b[1] then 0 else 1 + LeadingZeroBits(b2);
  }

  /** Per nibble, `clz32(v) - 28` is the number of leading zero bits of its 4-bit expansion. */
  lemma NibbleLeadingZeros(v: nat)
    requires v < 16
    ensures LeadingZeroBits(NibbleBits(v)) == Clz32(v) - 28
  {
    LeadingZeroBitsOfFour(NibbleBits(v));
  }

  /** On a well-formed hex id the count is exactly the number of leading zero bits of its
      binary expansion. */
  lemma {:induction false} CountIsLeadingZeroBits(hex: string)
    requires IsHex(hex)
    ensures CountLeadingZeroes(hex) == LeadingZeroBits(HexBits(hex))
    decreases |hex|
  {
    if |hex| > 0 {
      var v := ParseNibble(hex[0]).value;
      LeadingZeroBitsAppend(NibbleBits(v), HexBits(hex[1..]));
      NibbleLeadingZeros(v);
      if v == 0 {
        CountIsLeadingZeroBits(hex[1..]);
      }
    }
  }

  /** `n` zero digits. */
  function Zeros(n: nat): (r: string)
    ensures |r| == n
  {
    seq(n, _ => '0')
  }

  /** A string of n zero digits counts 4n; in particular the empty string counts 0. */
  lemma {:induction false} CountZeros(n: nat)
    ensures CountLeadingZeroes(Zeros(n)) == 4 * n
  {
    if n > 0 {
      assert Zeros(n)[1..] == Zeros(n - 1);
      CountZeros(n - 1);
    }
  }

  /** Prepending a zero digit adds exactly 4. */
  lemma PrependZero(hex: string)
    ensures CountLeadingZeroes("0" + hex) == 4 + CountLeadingZeroes(hex)
  {
    assert ("0" + hex)[1..] == hex;
  }

  /** The first non-zero nibble decides the rest: 1 adds 3, 2-3 add 2, 4-7 add 1, 8-f add 0,
      and nothing after it is read. */
  lemma FirstNonZeroNibble(c: char, rest: string)
    requires ParseNibble(c).Some? && ParseNibble(c).value > 0
    ensures var v := ParseNibble(c).value;
      CountLeadingZeroes([c] + rest) ==
        if v == 1 then 3 else if v < 4 then 2 else if v < 8 then 1 else 0
  {
  }

  /** A character that is not a hex digit adds 4 and stops the count. */
  lemma NonHexStops(c: char, rest: string)
    requires ParseNibble(c).None?
    ensures CountLeadingZeroes([c] + rest) == 4
  {
  }

  /** Worked values: "00f…" counts 8, "0fff…" counts 4, "8fff…" counts 0. */
  lemma CountExamples(rest: string)
    ensures CountLeadingZeroes("00f" + rest) == 8
    ensures CountLeadingZeroes("0fff" + rest) == 4
    ensures CountLeadingZeroes("8fff" + rest) == 0
  {
    assert ("00f" + rest)[1..] == "0f" + rest;
    assert ("0f" + rest)[1..] == "f" + rest;
    assert CountLeadingZeroes("f" + rest) == 0;
    assert CountLeadingZeroes("0f" + rest) == 4;
    assert ("0fff" + rest)[1..] == "fff" + rest;
  }

  // ---------------------------------------------------------------------------------------
  // Rarity
  // ---------------------------------------------------------------------------------------

  /** The five rarity tiers, in increasing order. */
  datatype Rarity = Common | Uncommon | Rare | Epic | Legendary

  /** One row of `BADGE_RARITY`. */
  datatype RarityInfo = RarityInfo(name: string, difficulty: nat, color: string)

  /** `BADGE_RARITY`. */
  function BadgeRarity(r: Rarity): RarityInfo {
    match r
    case Common => RarityInfo("Common", 0, "#9CA3AF")
    case Uncommon => RarityInfo("Uncommon", 16, "#10B981")
    case Rare => RarityInfo("Rare", 21, "#3B82F6")
    case Epic => RarityInfo("Epic", 32, "#8B5CF6")
    case Legendary => RarityInfo("Legendary", 64, "#F59E0B")
  }

  /** Position of a tier in the order Common < Uncommon < Rare < Epic < Legendary. */
  function Rank(r: Rarity): nat {
    match r
    case Common => 0
    case Uncommon => 1
    case Rare => 2
    case Epic => 3
    case Legendary => 4
  }

  /** `getRarityByDifficulty`: the highest tier whose threshold the difficulty meets (Common
      below every threshold). */
  function GetRarityByDifficulty(difficulty: int): (r: Rarity)
    ensures difficulty >= 0 ==> BadgeRarity(r).difficulty <= difficulty
    ensures difficulty < 0 ==> r == Common
    ensures forall t: Rarity :: BadgeRarity(t).difficulty <= difficulty ==> Rank(t) <= Rank(r)
  {
    if difficulty >= 64 then Legendary
    else if difficulty >= 32 then Epic
    else if difficulty >= 21 then Rare
    else if difficulty >= 16 then Uncommon
    else Common
  }

  /** More work never lowers the tier. */
  lemma RarityMonotone(d1: int, d2: int)
    requires d1 <= d2
    ensures Rank(GetRarityByDifficulty(d1)) <= Rank(GetRarityByDifficulty(d2))
  {
    var r1 := GetRarityByDifficulty(d1);
    if d1 >= 0 {
      assert BadgeRarity(r1).difficulty <= d2;
    }
  }

  /** Each tier's own threshold classifies as that tier. */
  lemma RarityOfThreshold(r: Rarity)
    ensures GetRarityByDifficulty(BadgeRarity(r).difficulty) == r
  {
  }

  /** The boundaries: 0, 16, 21, 32, 64 open the five tiers, and 63 is still Epic. */
  lemma RarityBoundaries()
    ensures GetRarityByDifficulty(0) == Common && GetRarityByDifficulty(15) == Common
    ensures GetRarityByDifficulty(16) == Uncommon && GetRarityByDifficulty(20) == Uncommon
    ensures GetRarityByDifficulty(21) == Rare && GetRarityByDifficulty(31) == Rare
    ensures GetRarityByDifficulty(32) == Epic && GetRarityByDifficulty(63) == Epic
    ensures GetRarityByDifficulty(64) == Legendary
  {
  }

  // ---------------------------------------------------------------------------------------
  // Mining
  // ---------------------------------------------------------------------------------------

  /** The last nonce tried before mining gives up. */
  const MaxNonce: nat := 10_000_000
  /** Progress is reported at every nonce divisible by this. */
  const ProgressInterval: nat := 10_000

  /** `['nonce', nonce.toString(), targetDifficulty.toString()]`. */
  function NonceTag(nonce: nat, target: int): (t: Tag)
    ensures Named(t, "nonce") && |t| == 3
  {
    ["nonce", Text.NatToString(nonce), Text.IntToString(target)]
  }

  /** The tag spells the nonce in decimal, and the target in decimal with a minus sign when it is
      negative. */
  lemma NonceTagSpellsValues(nonce: nat, target: int)
    ensures var t := NonceTag(nonce, target);
      && Text.IsDigits(t[1]) && Text.DecimalValue(t[1]) == nonce
      && (target >= 0 ==> Text.IsDigits(t[2]) && Text.DecimalValue(t[2]) == target)
      && (target < 0 ==> |t[2]| >= 2 && t[2][0] == '-' && Text.IsDigits(t[2][1..]) && Text.DecimalValue(t[2][1..]) == -target)
  {
    Text.NatToStringValue(nonce);
    Text.IntToStringValue(target);
  }

  /** `tags.filter(([tagName]) => tagName !== 'nonce')`. */
  function StripNonce(tags: seq<Tag>): (r: seq<Tag>)
    ensures forall k :: 0 <= k < |r| ==> !Named(r[k], "nonce")
  {
    Select(tags, "nonce", false)
  }

  /** Stripping after appending one nonce tag to stripped tags gives the stripped tags back. */
  lemma StripAfterNonce(tags: seq<Tag>, t: Tag)
    requires Named(t, "nonce")
    ensures StripNonce(StripNonce(tags) + [t]) == StripNonce(tags)
  {
    SelectAppend(StripNonce(tags), [t], "nonce", false);
    SelectAll(StripNonce(tags), "nonce", false);
  }

  /** The first nonce tag of stripped tags followed by one nonce tag is that tag. */
  lemma FindNonceAfterStrip(tags: seq<Tag>, t: Tag)
    requires Named(t, "nonce")
    ensures FindTag(StripNonce(tags) + [t], "nonce") == Some(t)
  {
    FindTagAppend(StripNonce(tags), [t], "nonce");
    assert IsFirst([t], "nonce", 0);
  }

  /** A clock reading in milliseconds as a Unix timestamp in seconds, `Math.floor(ms / 1000)`;
      Dafny's division by a positive constant already rounds down. */
  function Seconds(ms: int): int {
    ms / 1000
  }

  /** The candidate event hashed at attempt `nonce`: the input's non-nonce tags in order plus one
      nonce tag, the clock's time at that attempt, and the id the hash gives those fields. */
  function Attempt(event: Event, target: int, hash: Preimage -> string, clock: nat -> int, nonce: nat): (e: Event)
  {
    var unsigned := event.(tags := StripNonce(event.tags) + [NonceTag(nonce, target)],
                           createdAt := Seconds(clock(nonce)));
    unsigned.(id := hash(PreimageOf(unsigned)))
  }

  /** The difficulty reached at attempt `nonce`. */
  function AttemptDifficulty(event: Event, target: int, hash: Preimage -> string, clock: nat -> int, nonce: nat): nat {
    CountLeadingZeroes(Attempt(event, target, hash, clock, nonce).id)
  }

  /** One pass of the loop body on the event being mined: re-filter the tags and append the
      current nonce tag, refresh the timestamp from the clock, recompute the id. */
  function Step(mined: Event, target: int, hash: Preimage -> string, clock: nat -> int, nonce: nat): Event {
    var withNonce := mined.(tags := StripNonce(mined.tags) + [NonceTag(nonce, target)]);
    var stamped := withNonce.(createdAt := Seconds(clock(nonce)));
    stamped.(id := hash(PreimageOf(stamped)))
  }

  /** The fields mining never touches, and the non-nonce tags, agree. */
  predicate SameDraft(mined: Event, event: Event) {
    && StripNonce(mined.tags) == StripNonce(event.tags)
    && mined.pubkey == event.pubkey && mined.kind == event.kind
    && mined.content == event.content && mined.sig == event.sig
  }

  /** A pass of the loop body on any event with the same draft yields exactly the candidate
      `Attempt` describes, because re-filtering never changes the non-nonce tags. */
  lemma StepIsAttempt(mined: Event, event: Event, target: int, hash: Preimage -> string, clock: nat -> int, nonce: nat)
    requires SameDraft(mined, event)
    ensures Step(mined, target, hash, clock, nonce) == Attempt(event, target, hash, clock, nonce)
    ensures SameDraft(Step(mined, target, hash, clock, nonce), event)
  {
    StripAfterNonce(event.tags, NonceTag(nonce, target));
  }

  /** A call to `onProgress(nonce, difficulty)`. */
  datatype Progress = Progress(nonce: nat, difficulty: nat)

  /** The progress calls made during the first `n` attempts. */
  function ProgressReports(event: Event, target: int, hash: Preimage -> string, clock: nat -> int, n: nat): seq<Progress>
  {
    if n == 0 then []
    else
      var before := ProgressReports(event, target, hash, clock, n - 1);
      if (n - 1) % ProgressInterval == 0
      then before + [Progress(n - 1, AttemptDifficulty(event, target, hash, clock, n - 1))]
      else before
  }

  /** Progress is reported exactly at the nonces divisible by 10,000: the k-th report is attempt
      10,000 k, with that attempt's difficulty, and the first n attempts make ceil(n / 10,000). */
  lemma {:induction false} ProgressReportsShape(event: Event, target: int, hash: Preimage -> string, clock: nat -> int, n: nat)
    ensures var r := ProgressReports(event, target, hash, clock, n);
      && |r| == (n + ProgressInterval - 1) / ProgressInterval
      && forall k :: 0 <= k < |r| ==> r[k] == Progress(k * ProgressInterval,
           AttemptDifficulty(event, target, hash, clock, k * ProgressInterval))
  {
    if n > 0 {
      ProgressReportsShape(event, target, hash, clock, n - 1);
      ReportCountStep(n - 1);
    }
  }

  /** The count ceil(m / 10,000) grows by one at m + 1 exactly when 10,000 divides m, and then the
      earlier reports number m / 10,000. */
  lemma ReportCountStep(m: nat)
    ensures (m + ProgressInterval) / ProgressInterval
         == (m + ProgressInterval - 1) / ProgressInterval + (if m % ProgressInterval == 0 then 1 else 0)
    ensures m % ProgressInterval == 0 ==> (m + ProgressInterval - 1) / ProgressInterval * ProgressInterval == m
  {
    var q, rem := m / ProgressInterval, m % ProgressInterval;
    assert m == q * ProgressInterval + rem;
    assert (m + ProgressInterval) / ProgressInterval == q + 1;
    if rem == 0 {
      assert (m + ProgressInterval - 1) / ProgressInterval == q;
    } else {
      assert (m + ProgressInterval - 1) / ProgressInterval == q + 1;
    }
  }

  /** The reports after one more attempt: one more exactly when its nonce is divisible by 10,000. */
  lemma ProgressStep(event: Event, target: int, hash: Preimage -> string, clock: nat -> int, n: nat, difficulty: nat)
    requires difficulty == AttemptDifficulty(event, target, hash, clock, n)
    ensures ProgressReports(event, target, hash, clock, n + 1) ==
      ProgressReports(event, target, hash, clock, n) + (if n % ProgressInterval == 0 then [Progress(n, difficulty)] else [])
  {
  }

  /** Every one of the first `n` attempts fell short of the target. */
  predicate AllFail(event: Event, target: int, hash: Preimage -> string, clock: nat -> int, n: nat) {
    n == 0 || (AllFail(event, target, hash, clock, n - 1) && AttemptDifficulty(event, target, hash, clock, n - 1) < target)
  }

  lemma AllFailStep(event: Event, target: int, hash: Preimage -> string, clock: nat -> int, n: nat)
    requires AllFail(event, target, hash, clock, n)
    requires AttemptDifficulty(event, target, hash, clock, n) < target
    ensures AllFail(event, target, hash, clock, n + 1)
  {
  }

  lemma {:induction false} AllFailMeans(event: Event, target: int, hash: Preimage -> string, clock: nat -> int, n: nat)
    requires AllFail(event, target, hash, clock, n)
    ensures forall k :: 0 <= k < n ==> AttemptDifficulty(event, target, hash, clock, k) < target
  {
    if n > 0 {
      AllFailMeans(event, target, hash, clock, n - 1);
    }
  }

  /** Why mining gives up. */
  datatype MiningError = MiningExceededAttempts

  /** `mineEvent`. Returns the mined event (or the give-up error), the nonce of the last attempt,
      and the progress reports an `onProgress` callback would receive. */
  method MineEvent(event: Event, target: int, hash: Preimage -> string, clock: nat -> int)
    returns (r: Result<Event, MiningError>, nonce: nat, progress: seq<Progress>)
    ensures r.Success? ==> nonce <= MaxNonce && r.value == Attempt(event, target, hash, clock, nonce)
    ensures r.Success? ==> CountLeadingZeroes(r.value.id) >= target
    ensures r.Success? ==> r.value.id == hash(PreimageOf(r.value))
    ensures r.Success? ==> r.value.tags == StripNonce(event.tags) + [NonceTag(nonce, target)]
    ensures r.Failure? ==> nonce == MaxNonce + 1
    ensures forall k :: 0 <= k < nonce ==> AttemptDifficulty(event, target, hash, clock, k) < target
    ensures r.Success? ==> progress == ProgressReports(event, target, hash, clock, nonce + 1)
    ensures r.Failure? ==> progress == ProgressReports(event, target, hash, clock, nonce)
    ensures target <= 0 ==> r.Success? && nonce == 0
  {
    nonce := 0;
    progress := [];
    var mined := event.(tags := StripNonce(event.tags));
    SelectAll(StripNonce(event.tags), "nonce", false);
    while true
      invariant nonce <= MaxNonce
      invariant target <= 0 ==> nonce == 0
      invariant SameDraft(mined, event)
      invariant AllFail(event, target, hash, clock, nonce)
      invariant progress == ProgressReports(event, target, hash, clock, nonce)
      decreases MaxNonce - nonce
    {
      StepIsAttempt(mined, event, target, hash, clock, nonce);
      mined := Step(mined, target, hash, clock, nonce);
      var difficulty := CountLeadingZeroes(mined.id);
      assert difficulty == AttemptDifficulty(event, target, hash, clock, nonce);
      ProgressStep(event, target, hash, clock, nonce, difficulty);
      if nonce % ProgressInterval == 0 {
        progress := progress + [Progress(nonce, difficulty)];
      }
      if difficulty >= target {
        r := Success(mined);
        AllFailMeans(event, target, hash, clock, nonce);
        return;
      }
      AllFailStep(event, target, hash, clock, nonce);
      nonce := nonce + 1;
      if nonce > MaxNonce {
        r := Failure(MiningExceededAttempts);
        AllFailMeans(event, target, hash, clock, nonce);
        return;
      }
    }
  }
}
