/** The `fusion-htlc` contract: the same escrow lifecycle as `htlc-near`, with a
    hex-string hashlock, a swap id derived by SHA-256 from the swap's defining
    fields (and checked for absence), the revealed secret stored on claim, a
    basis-point fee taken from the claim payout, and a paginated account query.
    A failing `require!` is a NEAR panic, which reverts the whole call. */
module FusionHtlc {
  import opened Wrappers
  import opened Encoding
  import opened NearRuntime

  /** `hashlock.len()` counts UTF-8 bytes: 32 digest bytes as hex. */
  const HashlockHexLength := 64
  const FeeDenominator := 10000
  const MaxFeeRate := 1000
  const DefaultFeeRate := 30
  /** NEAR contracts run as wasm32, where `as usize` keeps the low 32 bits of a u64. */
  const UsizeModulus := 0x1_0000_0000

  /** One swap record (`HTLCSwap`). `token` is always None (native NEAR). */
  datatype HTLCSwap = HTLCSwap(
    sender: AccountId,
    receiver: AccountId,
    amount: nat,
    token: Option<AccountId>,
    hashlock: string,
    timelock: nat,  // block timestamp in nanoseconds
    secret: Option<string>,
    isClaimed: bool,
    isRefunded: bool,
    ethTxHash: Option<string>)

  /** One constructor per panic message of the contract. */
  datatype Error =
    | AmountNotPositive     // "Amount must be greater than 0"
    | TimelockNotInFuture   // "Timelock must be in the future"
    | HashlockWrongLength   // "Hashlock must be 32 bytes hex string"
    | SwapAlreadyExists     // "Swap already exists"
    | SwapNotFound          // "Swap not found"
    | AlreadyClaimed        // "Swap already claimed"
    | AlreadyRefunded       // "Swap already refunded"
    | SwapExpired           // "Swap expired"
    | InvalidSecret         // "Invalid secret"
    | NotReceiver           // "Only receiver can claim"
    | NotExpired            // "Swap not expired yet"
    | NotSender             // "Only sender can refund"
    | NotOwner              // "Only owner can set fee"
    | FeeRateTooHigh        // "Fee rate cannot exceed 10%"

  predicate Finalized(s: HTLCSwap) {
    s.isClaimed || s.isRefunded
  }

  predicate Involves(s: HTLCSwap, account: AccountId) {
    s.sender == account || s.receiver == account
  }

  // ---------------------------------------------------------------------------
  // Hashing helpers

  /** `hash_secret`: lowercase hex of SHA-256 over the secret's UTF-8 bytes. */
  function HashSecret(secret: string, sha256: Sha256): (h: string)
    ensures |h| == HashlockHexLength && |Utf8Encode(h)| == HashlockHexLength
    ensures forall k :: 0 <= k < |h| ==> IsHexChar(h[k])
  {
    var h := HexEncode(sha256(Utf8Encode(secret)));
    Utf8EncodeAscii(h);
    h
  }

  /** A hashlock matches a secret exactly when it is the hex form of the secret's digest:
      the comparison is full, case-sensitive string equality. */
  lemma HashSecretMatches(secret: string, hashlock: string, sha256: Sha256)
    ensures HashSecret(secret, sha256) == hashlock <==> HexDecode(hashlock) == Some(sha256(Utf8Encode(secret)))
  {
    HexEncodingExact(hashlock, sha256(Utf8Encode(secret)));
  }

  /** A hashlock with any character other than 0-9 and a-f (an upper-case digit, say, or
      a multi-byte character) passes the length check of `initiate_swap` but matches no secret. */
  lemma NonHexHashlockMatchesNothing(secret: string, hashlock: string, i: nat, sha256: Sha256)
    requires i < |hashlock| && !IsHexChar(hashlock[i])
    ensures HashSecret(secret, sha256) != hashlock
  {
  }

  /** The text `format!("{}-{}-{}-{}", sender, receiver, hashlock, timelock)`. */
  function SwapIdInput(sender: AccountId, receiver: AccountId, hashlock: string, timelock: nat): (s: string)
    ensures |s| == |sender| + |receiver| + |hashlock| + |DecimalString(timelock)| + 3
    ensures s[..|sender| + 1] == sender + "-"
    ensures s[|s| - |DecimalString(timelock)| - 1..] == "-" + DecimalString(timelock)
  {
    sender + "-" + receiver + "-" + hashlock + "-" + DecimalString(timelock)
  }

  /** Account ids may contain '-', so different (sender, receiver) pairs can share a swap id. */
  lemma SwapIdAmbiguous(hashlock: string, timelock: nat, sha256: Sha256)
    ensures GenerateSwapId("ab-cd", "ef", hashlock, timelock, sha256) == GenerateSwapId("ab", "cd-ef", hashlock, timelock, sha256)
  {
    var rest := "-" + hashlock + "-" + DecimalString(timelock);
    assert SwapIdInput("ab-cd", "ef", hashlock, timelock) == "ab-cd-ef" + rest;
    assert SwapIdInput("ab", "cd-ef", hashlock, timelock) == "ab-cd-ef" + rest;
  }

  /** `generate_swap_id`: a function of the four defining fields alone (no clock, no counter). */
  function GenerateSwapId(sender: AccountId, receiver: AccountId, hashlock: string, timelock: nat, sha256: Sha256): (id: string)
    ensures |id| == 2 * DigestLength
    ensures forall k :: 0 <= k < |id| ==> IsHexChar(id[k])
  {
    HexEncode(sha256(Utf8Encode(SwapIdInput(sender, receiver, hashlock, timelock))))
  }

  // ---------------------------------------------------------------------------
  // Fee arithmetic of `claim_swap`

  /** `amount * fee_rate / 10000`, rounded down. */
  function Fee(amount: nat, feeRate: nat): (fee: nat)
    ensures fee * FeeDenominator <= amount * feeRate < (fee + 1) * FeeDenominator
  {
    amount * feeRate / FeeDenominator
  }

  lemma FeeAtMostTenth(amount: nat, feeRate: nat)
    requires feeRate <= MaxFeeRate
    ensures 10 * Fee(amount, feeRate) <= amount
  {
    var fee := Fee(amount, feeRate);
    assert amount * feeRate <= amount * MaxFeeRate;
    assert fee * FeeDenominator <= amount * MaxFeeRate;
  }

  /** `amount - fee`: what the claimer receives. */
  function Payout(amount: nat, feeRate: nat): (payout: nat)
    requires feeRate <= MaxFeeRate
    ensures payout + Fee(amount, feeRate) == amount
  {
    FeeAtMostTenth(amount, feeRate);
    amount - Fee(amount, feeRate)
  }

  /** With the fee rate capped at 10%, the fee is at most a tenth of the amount and a
      positive amount always leaves a positive payout. */
  lemma PayoutBounds(amount: nat, feeRate: nat)
    requires feeRate <= MaxFeeRate
    ensures Fee(amount, feeRate) <= amount / 10
    ensures amount >= 1 ==> Payout(amount, feeRate) >= 1
    ensures feeRate == 0 ==> Payout(amount, feeRate) == amount
  {
    FeeAtMostTenth(amount, feeRate);
  }

  // ---------------------------------------------------------------------------
  // The checks of each entry point, in the order the contract makes them:
  // the first one that fails, or None when the call goes through.

  function InitiateFailure(
    swaps: map<string, HTLCSwap>, receiver: AccountId, hashlock: string, timelock: nat,
    caller: AccountId, deposit: nat, nowNs: nat, sha256: Sha256): (e: Option<Error>)
    ensures e == None <==>
      && deposit > 0
      && timelock > nowNs
      && |Utf8Encode(hashlock)| == HashlockHexLength
      && GenerateSwapId(caller, receiver, hashlock, timelock, sha256) !in swaps
  {
    if deposit == 0 then Some(AmountNotPositive)
    else if timelock <= nowNs then Some(TimelockNotInFuture)
    else if |Utf8Encode(hashlock)| != HashlockHexLength then Some(HashlockWrongLength)
    else if GenerateSwapId(caller, receiver, hashlock, timelock, sha256) in swaps then Some(SwapAlreadyExists)
    else None
  }

  function ClaimFailure(
    swaps: map<string, HTLCSwap>, swapId: string, secret: string,
    caller: AccountId, nowNs: nat, sha256: Sha256): (e: Option<Error>)
    ensures e == None <==>
      && swapId in swaps
      && !Finalized(swaps[swapId])
      && nowNs < swaps[swapId].timelock
      && HashSecret(secret, sha256) == swaps[swapId].hashlock
      && caller == swaps[swapId].receiver
  {
    if swapId !in swaps then Some(SwapNotFound)
    else
      var s := swaps[swapId];
      if s.isClaimed then Some(AlreadyClaimed)
      else if s.isRefunded then Some(AlreadyRefunded)
      else if nowNs >= s.timelock then Some(SwapExpired)
      else if HashSecret(secret, sha256) != s.hashlock then Some(InvalidSecret)
      else if caller != s.receiver then Some(NotReceiver)
      else None
  }

  function RefundFailure(swaps: map<string, HTLCSwap>, swapId: string, caller: AccountId, nowNs: nat): (e: Option<Error>)
    ensures e == None <==>
      && swapId in swaps
      && !Finalized(swaps[swapId])
      && nowNs >= swaps[swapId].timelock
      && caller == swaps[swapId].sender
  {
    if swapId !in swaps then Some(SwapNotFound)
    else
      var s := swaps[swapId];
      if s.isClaimed then Some(AlreadyClaimed)
      else if s.isRefunded then Some(AlreadyRefunded)
      else if nowNs < s.timelock then Some(NotExpired)
      else if caller != s.sender then Some(NotSender)
      else None
  }

  function SetFeeRateFailure(owner: AccountId, caller: AccountId, newRate: nat): (e: Option<Error>)
    ensures e == None <==> caller == owner && newRate <= MaxFeeRate
  {
    if caller != owner then Some(NotOwner)
    else if newRate > MaxFeeRate then Some(FeeRateTooHigh)
    else None
  }

  /** Once a swap is stored, a second `initiate_swap` with the same sender, receiver, hashlock
      and timelock fails, whatever the deposit and the clock; with the first two checks
      passed, it fails because the swap exists. */
  lemma DuplicateInitiateRejected(
    swaps: map<string, HTLCSwap>, receiver: AccountId, hashlock: string, timelock: nat,
    caller: AccountId, deposit: nat, nowNs: nat, sha256: Sha256,
    stored: HTLCSwap, deposit2: nat, nowNs2: nat)
    requires InitiateFailure(swaps, receiver, hashlock, timelock, caller, deposit, nowNs, sha256) == None
    ensures var swaps2 := swaps[GenerateSwapId(caller, receiver, hashlock, timelock, sha256) := stored];
      && InitiateFailure(swaps2, receiver, hashlock, timelock, caller, deposit2, nowNs2, sha256) != None
      && (deposit2 > 0 && timelock > nowNs2 ==>
            InitiateFailure(swaps2, receiver, hashlock, timelock, caller, deposit2, nowNs2, sha256) == Some(SwapAlreadyExists))
  {
  }

  /** A swap stored by "ab-cd" for "ef" blocks "ab" from opening a swap for "cd-ef" with the
      same hashlock and timelock: that call fails as if the swap already existed. */
  lemma ForeignSwapBlocksInitiate(
    swaps: map<string, HTLCSwap>, hashlock: string, timelock: nat, deposit: nat, nowNs: nat, sha256: Sha256)
    requires GenerateSwapId("ab-cd", "ef", hashlock, timelock, sha256) in swaps
    requires deposit > 0 && timelock > nowNs && |Utf8Encode(hashlock)| == HashlockHexLength
    ensures InitiateFailure(swaps, "cd-ef", hashlock, timelock, "ab", deposit, nowNs, sha256) == Some(SwapAlreadyExists)
  {
    SwapIdAmbiguous(hashlock, timelock, sha256);
  }

  /** A claimed or refunded swap rejects every later claim and refund on the flag check,
      before the secret, the clock or the caller is looked at. */
  lemma FinalizedSwapRejected(
    swaps: map<string, HTLCSwap>, swapId: string, secret: string,
    claimer: AccountId, refunder: AccountId, claimTime: nat, refundTime: nat, sha256: Sha256)
    requires swapId in swaps && Finalized(swaps[swapId])
    ensures ClaimFailure(swaps, swapId, secret, claimer, claimTime, sha256) in {Some(AlreadyClaimed), Some(AlreadyRefunded)}
    ensures RefundFailure(swaps, swapId, refunder, refundTime) in {Some(AlreadyClaimed), Some(AlreadyRefunded)}
  {
  }

  /** The claim window (nowNs < timelock) and the refund window (nowNs >= timelock), both
      in nanoseconds, never overlap. */
  lemma ClaimRefundExclusive(
    swaps: map<string, HTLCSwap>, swapId: string, secret: string,
    claimer: AccountId, refunder: AccountId, nowNs: nat, sha256: Sha256)
    ensures !(ClaimFailure(swaps, swapId, secret, claimer, nowNs, sha256) == None
              && RefundFailure(swaps, swapId, refunder, nowNs) == None)
  {
  }

  /** ... and they cover all times: while a swap is open, at every instant exactly one of
      "receiver claims with the secret" and "sender refunds" succeeds. */
  lemma OpenSwapHasOneExit(swaps: map<string, HTLCSwap>, swapId: string, secret: string, nowNs: nat, sha256: Sha256)
    requires swapId in swaps && !Finalized(swaps[swapId])
    requires HashSecret(secret, sha256) == swaps[swapId].hashlock
    ensures (ClaimFailure(swaps, swapId, secret, swaps[swapId].receiver, nowNs, sha256) == None)
         != (RefundFailure(swaps, swapId, swaps[swapId].sender, nowNs) == None)
  {
  }

  // ---------------------------------------------------------------------------
  // `get_swaps_by_account`: filter, then skip, then take

  /** The stored (id, swap) pairs that involve `account`, in the order of `ids`. */
  function MatchingEntries(ids: seq<string>, swaps: map<string, HTLCSwap>, account: AccountId): (r: seq<(string, HTLCSwap)>)
    requires forall k :: 0 <= k < |ids| ==> ids[k] in swaps
    ensures |r| <= |ids|
    ensures forall k :: 0 <= k < |r| ==> r[k].0 in swaps && r[k].1 == swaps[r[k].0] && Involves(r[k].1, account)
  {
    if ids == [] then []
    else
      var rest := MatchingEntries(ids[1..], swaps, account);
      if Involves(swaps[ids[0]], account) then [(ids[0], swaps[ids[0]])] + rest else rest
  }

  /** Every match comes from the store's key order... */
  lemma {:induction false} MatchingEntriesFromIds(ids: seq<string>, swaps: map<string, HTLCSwap>, account: AccountId, k: nat)
    requires forall k :: 0 <= k < |ids| ==> ids[k] in swaps
    requires k < |MatchingEntries(ids, swaps, account)|
    ensures MatchingEntries(ids, swaps, account)[k].0 in ids
  {
    var r := MatchingEntries(ids, swaps, account);
    var rest := MatchingEntries(ids[1..], swaps, account);
    if Involves(swaps[ids[0]], account) {
      if k > 0 {
        assert r[k] == rest[k - 1];
        MatchingEntriesFromIds(ids[1..], swaps, account, k - 1);
      }
    } else {
      MatchingEntriesFromIds(ids[1..], swaps, account, k);
    }
  }

  /** ... and every stored swap that involves the account is among the matches. */
  lemma {:induction false} MatchingEntriesComplete(ids: seq<string>, swaps: map<string, HTLCSwap>, account: AccountId, k: nat)
    requires forall k :: 0 <= k < |ids| ==> ids[k] in swaps
    requires k < |ids| && Involves(swaps[ids[k]], account)
    ensures (ids[k], swaps[ids[k]]) in MatchingEntries(ids, swaps, account)
  {
    if k > 0 {
      assert ids[1..][k - 1] == ids[k];
      MatchingEntriesComplete(ids[1..], swaps, account, k - 1);
    }
  }

  /** The matches keep the store's order. */
  lemma {:induction false} MatchingEntriesInStoreOrder(
    ids: seq<string>, swaps: map<string, HTLCSwap>, account: AccountId, i: nat, j: nat)
    requires forall k :: 0 <= k < |ids| ==> ids[k] in swaps
    requires NoDuplicates(ids)
    requires i < j < |MatchingEntries(ids, swaps, account)|
    ensures var r := MatchingEntries(ids, swaps, account);
      r[i].0 in ids && r[j].0 in ids && IndexOf(ids, r[i].0) < IndexOf(ids, r[j].0)
  {
    var r := MatchingEntries(ids, swaps, account);
    MatchingEntriesFromIds(ids, swaps, account, i);
    MatchingEntriesFromIds(ids, swaps, account, j);
    var tail := ids[1..];
    var rest := MatchingEntries(tail, swaps, account);
    NoDuplicatesTail(ids);
    if Involves(swaps[ids[0]], account) {
      assert r == [(ids[0], swaps[ids[0]])] + rest;
      assert r[j] == rest[j - 1];
      MatchingEntriesFromIds(tail, swaps, account, j - 1);
      NotHead(ids, rest[j - 1].0);
      if i > 0 {
        assert r[i] == rest[i - 1];
        MatchingEntriesInStoreOrder(tail, swaps, account, i - 1, j - 1);
        MatchingEntriesFromIds(tail, swaps, account, i - 1);
        NotHead(ids, rest[i - 1].0);
      }
    } else {
      assert r == rest;
      MatchingEntriesInStoreOrder(tail, swaps, account, i, j);
      MatchingEntriesFromIds(tail, swaps, account, i);
      MatchingEntriesFromIds(tail, swaps, account, j);
      NotHead(ids, rest[i].0);
      NotHead(ids, rest[j].0);
    }
  }

  // The two facts below are stated apart so that MatchingEntriesInStoreOrder's proof
  // context stays small.
  lemma NoDuplicatesTail(ids: seq<string>)
    requires NoDuplicates(ids) && |ids| > 0
    ensures NoDuplicates(ids[1..])
  {
  }

  lemma NotHead(ids: seq<string>, x: string)
    requires NoDuplicates(ids) && |ids| > 0 && x in ids[1..]
    ensures x != ids[0] && IndexOf(ids, x) == 1 + IndexOf(ids[1..], x)
  {
  }

  /** `Iterator::skip`. */
  function Skip<T>(s: seq<T>, n: nat): (r: seq<T>)
    ensures |r| == if n >= |s| then 0 else |s| - n
    ensures forall k :: 0 <= k < |r| ==> r[k] == s[n + k]
  {
    if n >= |s| then [] else s[n..]
  }

  /** `Iterator::take`. */
  function Take<T>(s: seq<T>, n: nat): (r: seq<T>)
    ensures |r| == if n >= |s| then |s| else n
    ensures forall k :: 0 <= k < |r| ==> r[k] == s[k]
  {
    if n >= |s| then s else s[..n]
  }

  // ---------------------------------------------------------------------------
  // The table invariant and the steps that keep it

  /** What every stored swap satisfies: its amount is positive, it holds native NEAR, it is
      in at most one final state, and a secret is recorded exactly when it is claimed. */
  predicate SwapWellFormed(s: HTLCSwap) {
    && s.amount > 0
    && s.token == None
    && !(s.isClaimed && s.isRefunded)
    && (s.secret.Some? <==> s.isClaimed)
  }

  /** What a stored swap satisfies through the hash: its key is the id derived from its
      fields, its hashlock is 64 bytes long, and a recorded secret opens the hashlock. */
  ghost predicate SwapHashesAgree(id: string, s: HTLCSwap, sha256: Sha256) {
    && id == GenerateSwapId(s.sender, s.receiver, s.hashlock, s.timelock, sha256)
    && |Utf8Encode(s.hashlock)| == HashlockHexLength
    && (s.secret.Some? ==> HashSecret(s.secret.value, sha256) == s.hashlock)
  }

  ghost predicate HashesAgree(swaps: map<string, HTLCSwap>, sha256: Sha256) {
    forall id {:trigger SwapHashesAgree(id, swaps[id], sha256)} :: id in swaps ==> SwapHashesAgree(id, swaps[id], sha256)
  }

  lemma HashesAgreeUpdate(swaps: map<string, HTLCSwap>, sha256: Sha256, id: string, s: HTLCSwap)
    requires HashesAgree(swaps, sha256) && SwapHashesAgree(id, s, sha256)
    ensures HashesAgree(swaps[id := s], sha256)
  {
    var swaps2 := swaps[id := s];
    forall x | x in swaps2 ensures SwapHashesAgree(x, swaps2[x], sha256) {
      if x != id { assert swaps2[x] == swaps[x]; }
    }
  }

  /** Changing only the final-state fields of a stored swap keeps the hashes agreeing,
      provided a recorded secret opens the hashlock. */
  lemma HashesAgreeFinalize(swaps: map<string, HTLCSwap>, sha256: Sha256, id: string, s: HTLCSwap)
    requires HashesAgree(swaps, sha256) && id in swaps
    requires s.sender == swaps[id].sender && s.receiver == swaps[id].receiver
    requires s.hashlock == swaps[id].hashlock && s.timelock == swaps[id].timelock
    requires s.secret.Some? ==> HashSecret(s.secret.value, sha256) == s.hashlock
    ensures HashesAgree(swaps[id := s], sha256)
  {
    assert SwapHashesAgree(id, swaps[id], sha256);
    HashesAgreeUpdate(swaps, sha256, id, s);
  }

  /** The keys in `ids` are distinct and are exactly those of `swaps`; each swap is well
      formed; each received exactly one deposit, of its amount from its sender; and each
      has been paid out exactly once if it is claimed or refunded and never otherwise: a
      refund returns the full amount to the sender, a claim pays at most the amount to the
      receiver. */
  ghost predicate TableInvariant(swaps: map<string, HTLCSwap>, ids: seq<string>, deposits: seq<Movement>, payouts: seq<Movement>)
  {
    && KeyOrder(swaps, ids)
    && (forall id :: id in swaps ==> SwapWellFormed(swaps[id]))
    && DepositedOnce(swaps, deposits)
    && PaidOutOnceFinalized(swaps, payouts)
  }

  ghost predicate DepositedOnce(swaps: map<string, HTLCSwap>, deposits: seq<Movement>) {
    && (forall id {:trigger CountFor(deposits, id)} :: id in swaps ==> CountFor(deposits, id) == 1)
    && (forall k :: 0 <= k < |deposits| ==> DepositFits(deposits[k], swaps))
  }

  ghost predicate PaidOutOnceFinalized(swaps: map<string, HTLCSwap>, payouts: seq<Movement>) {
    && (forall id {:trigger CountFor(payouts, id)} :: id in swaps ==> CountFor(payouts, id) == if Finalized(swaps[id]) then 1 else 0)
    && (forall k :: 0 <= k < |payouts| ==> PayoutFits(payouts[k], swaps))
  }

  predicate DepositFits(d: Movement, swaps: map<string, HTLCSwap>) {
    d.id in swaps && d.account == swaps[d.id].sender && d.amount == swaps[d.id].amount
  }

  predicate PayoutFits(p: Movement, swaps: map<string, HTLCSwap>) {
    && p.id in swaps
    && Finalized(swaps[p.id])
    && (swaps[p.id].isClaimed ==> p.account == swaps[p.id].receiver && p.amount <= swaps[p.id].amount)
    && (swaps[p.id].isRefunded ==> p.account == swaps[p.id].sender && p.amount == swaps[p.id].amount)
  }

  lemma {:induction false} CountForZero(log: seq<Movement>, id: string, k: nat)
    requires CountFor(log, id) == 0 && k < |log|
    ensures log[k].id != id
  {
    if k < |log| - 1 {
      CountForZero(log[..|log| - 1], id, k);
    }
  }

  lemma InitiateKeepsInvariant(
    swaps: map<string, HTLCSwap>, ids: seq<string>, deposits: seq<Movement>, payouts: seq<Movement>,
    id: string, s: HTLCSwap)
    requires TableInvariant(swaps, ids, deposits, payouts)
    requires id !in swaps && SwapWellFormed(s) && !Finalized(s)
    ensures TableInvariant(swaps[id := s], ids + [id], deposits + [Movement(s.sender, s.amount, id)], payouts)
  {
    var swaps2 := swaps[id := s];
    KeyOrderInsert(swaps, ids, id, s);
    forall x | x in swaps2 ensures SwapWellFormed(swaps2[x]) {
      if x != id { assert swaps2[x] == swaps[x]; }
    }
    InitiateKeepsDeposits(swaps, deposits, id, s);
    InitiateKeepsPayouts(swaps, payouts, id, s);
  }

  lemma InitiateKeepsDeposits(swaps: map<string, HTLCSwap>, deposits: seq<Movement>, id: string, s: HTLCSwap)
    requires DepositedOnce(swaps, deposits) && id !in swaps
    ensures DepositedOnce(swaps[id := s], deposits + [Movement(s.sender, s.amount, id)])
  {
    var swaps2, d := swaps[id := s], Movement(s.sender, s.amount, id);
    forall k | 0 <= k < |deposits| ensures deposits[k].id != id {
      assert DepositFits(deposits[k], swaps);
    }
    CountForAbsent(deposits, id);
    forall x ensures CountFor(deposits + [d], x) == CountFor(deposits, x) + (if x == id then 1 else 0) {
      CountForAppend(deposits, d, x);
    }
    forall k | 0 <= k < |deposits + [d]| ensures DepositFits((deposits + [d])[k], swaps2) {
      if k < |deposits| { assert (deposits + [d])[k] == deposits[k] && DepositFits(deposits[k], swaps); }
    }
  }

  lemma InitiateKeepsPayouts(swaps: map<string, HTLCSwap>, payouts: seq<Movement>, id: string, s: HTLCSwap)
    requires PaidOutOnceFinalized(swaps, payouts) && id !in swaps && !Finalized(s)
    ensures PaidOutOnceFinalized(swaps[id := s], payouts)
  {
    var swaps2 := swaps[id := s];
    forall k | 0 <= k < |payouts| ensures payouts[k].id != id && PayoutFits(payouts[k], swaps2) {
      assert PayoutFits(payouts[k], swaps);
    }
    CountForAbsent(payouts, id);
  }

  lemma FinalizeKeepsInvariant(
    swaps: map<string, HTLCSwap>, ids: seq<string>, deposits: seq<Movement>, payouts: seq<Movement>,
    id: string, s: HTLCSwap, p: Movement)
    requires TableInvariant(swaps, ids, deposits, payouts)
    requires id in swaps && !Finalized(swaps[id]) && SwapWellFormed(s) && Finalized(s)
    requires s.sender == swaps[id].sender && s.receiver == swaps[id].receiver && s.amount == swaps[id].amount
    requires p.id == id && PayoutFits(p, swaps[id := s])
    ensures TableInvariant(swaps[id := s], ids, deposits, payouts + [p])
  {
    var swaps2 := swaps[id := s];
    KeyOrderInsert(swaps, ids, id, s);
    forall x | x in swaps2 ensures SwapWellFormed(swaps2[x]) {
      if x != id { assert swaps2[x] == swaps[x]; }
    }
    assert DepositedOnce(swaps2, deposits) by {
      forall k | 0 <= k < |deposits| ensures DepositFits(deposits[k], swaps2) {
        assert DepositFits(deposits[k], swaps);
      }
    }
    assert PaidOutOnceFinalized(swaps2, payouts + [p]) by {
      forall x ensures CountFor(payouts + [p], x) == CountFor(payouts, x) + (if x == id then 1 else 0) {
        CountForAppend(payouts, p, x);
      }
      forall k | 0 <= k < |payouts + [p]| ensures PayoutFits((payouts + [p])[k], swaps2) {
        if k < |payouts| {
          CountForZero(payouts, id, k);
          assert (payouts + [p])[k] == payouts[k] && PayoutFits(payouts[k], swaps);
        }
      }
    }
  }

  // ---------------------------------------------------------------------------
  // The contract object

  class FusionHTLC {
    /** The `swaps` UnorderedMap: its entries, and its keys in iteration order. */
    var swaps: map<string, HTLCSwap>
    var ids: seq<string>
    const owner: AccountId
    const sha256: Sha256
    /** Basis points taken from each claim payout. */
    var feeRate: nat
    /** Every deposit attached to a successful `initiate_swap`, and every transfer issued. */
    ghost var deposits: seq<Movement>
    ghost var payouts: seq<Movement>

    ghost predicate Valid()
      reads this
    {
      && feeRate <= MaxFeeRate
      && TableInvariant(swaps, ids, deposits, payouts)
      && HashesAgree(swaps, sha256)
    }

    /** `new(owner)`: an empty table and the default fee of 30 basis points. */
    constructor (owner: AccountId, sha256: Sha256)
      ensures Valid()
      ensures this.owner == owner && this.sha256 == sha256 && feeRate == DefaultFeeRate
      ensures swaps == map[] && ids == [] && deposits == [] && payouts == []
    {
      this.owner := owner;
      this.sha256 := sha256;
      feeRate := DefaultFeeRate;
      swaps := map[];
      ids := [];
      deposits := [];
      payouts := [];
    }

    /** `initiate_swap`, called by `caller` with `deposit` attached at block time `nowNs`, in nanoseconds. */
    method InitiateSwap(
      receiver: AccountId, hashlock: string, timelock: nat, ethTxHash: Option<string>,
      caller: AccountId, deposit: nat, nowNs: nat) returns (r: Result<string, Error>)
      requires Valid()
      modifies this
      ensures Valid()
      ensures InitiateFailure(old(swaps), receiver, hashlock, timelock, caller, deposit, nowNs, sha256)
              == (if r.Err? then Some(r.error) else None)
      ensures r.Err? ==> swaps == old(swaps) && ids == old(ids) && deposits == old(deposits)
      ensures r.Ok? ==>
        && r.value == GenerateSwapId(caller, receiver, hashlock, timelock, sha256)
        && r.value !in old(swaps)
        && swaps == old(swaps)[r.value := HTLCSwap(caller, receiver, deposit, None, hashlock, timelock, None, false, false, ethTxHash)]
        && ids == old(ids) + [r.value]
        && deposits == old(deposits) + [Movement(caller, deposit, r.value)]
      ensures payouts == old(payouts) && feeRate == old(feeRate)
    {
      if deposit == 0 { return Err(AmountNotPositive); }
      if timelock <= nowNs { return Err(TimelockNotInFuture); }
      if |Utf8Encode(hashlock)| != HashlockHexLength { return Err(HashlockWrongLength); }

      var swapId := GenerateSwapId(caller, receiver, hashlock, timelock, sha256);
      if swapId in swaps { return Err(SwapAlreadyExists); }

      var swap := HTLCSwap(caller, receiver, deposit, None, hashlock, timelock, None, false, false, ethTxHash);
      InitiateKeepsInvariant(swaps, ids, deposits, payouts, swapId, swap);
      HashesAgreeUpdate(swaps, sha256, swapId, swap);
      swaps := swaps[swapId := swap];
      ids := ids + [swapId];
      deposits := deposits + [Movement(caller, deposit, swapId)];
      r := Ok(swapId);
    }

    /** `claim_swap`: the receiver reveals the secret before the timelock; the secret is
        recorded and the amount less the fee is transferred to the claimer. `nowNs` is the
        block time in nanoseconds. */
    method ClaimSwap(swapId: string, secret: string, caller: AccountId, nowNs: nat) returns (r: Result<nat, Error>)
      requires Valid()
      modifies this
      ensures Valid()
      ensures ClaimFailure(old(swaps), swapId, secret, caller, nowNs, sha256) == (if r.Err? then Some(r.error) else None)
      ensures r.Err? ==> swaps == old(swaps) && payouts == old(payouts)
      ensures r.Ok? ==>
        var s := old(swaps)[swapId];
        && swaps == old(swaps)[swapId := s.(secret := Some(secret), isClaimed := true)]
        && r.value == Payout(s.amount, feeRate)
        && payouts == old(payouts) + [Movement(caller, r.value, swapId)]
      ensures ids == old(ids) && deposits == old(deposits) && feeRate == old(feeRate)
    {
      if swapId !in swaps { return Err(SwapNotFound); }
      var swap := swaps[swapId];
      if swap.isClaimed { return Err(AlreadyClaimed); }
      if swap.isRefunded { return Err(AlreadyRefunded); }
      if nowNs >= swap.timelock { return Err(SwapExpired); }
      if HashSecret(secret, sha256) != swap.hashlock { return Err(InvalidSecret); }
      if caller != swap.receiver { return Err(NotReceiver); }

      swap := swap.(secret := Some(secret), isClaimed := true);
      var fee := swap.amount * feeRate / FeeDenominator;
      FeeAtMostTenth(swap.amount, feeRate);
      var payout := swap.amount - fee;
      FinalizeKeepsInvariant(swaps, ids, deposits, payouts, swapId, swap, Movement(caller, payout, swapId));
      HashesAgreeFinalize(swaps, sha256, swapId, swap);
      swaps := swaps[swapId := swap];
      payouts := payouts + [Movement(caller, payout, swapId)];
      r := Ok(payout);
    }

    /** `refund_swap`: at or after the timelock (block time `nowNs`, in nanoseconds) the
        sender takes the full amount back, with no fee. */
    method RefundSwap(swapId: string, caller: AccountId, nowNs: nat) returns (r: Result<nat, Error>)
      requires Valid()
      modifies this
      ensures Valid()
      ensures RefundFailure(old(swaps), swapId, caller, nowNs) == (if r.Err? then Some(r.error) else None)
      ensures r.Err? ==> swaps == old(swaps) && payouts == old(payouts)
      ensures r.Ok? ==>
        var s := old(swaps)[swapId];
        && swaps == old(swaps)[swapId := s.(isRefunded := true)]
        && r.value == s.amount
        && payouts == old(payouts) + [Movement(s.sender, s.amount, swapId)]
      ensures ids == old(ids) && deposits == old(deposits) && feeRate == old(feeRate)
    {
      if swapId !in swaps { return Err(SwapNotFound); }
      var swap := swaps[swapId];
      if swap.isClaimed { return Err(AlreadyClaimed); }
      if swap.isRefunded { return Err(AlreadyRefunded); }
      if nowNs < swap.timelock { return Err(NotExpired); }
      if caller != swap.sender { return Err(NotSender); }

      swap := swap.(isRefunded := true);
      FinalizeKeepsInvariant(swaps, ids, deposits, payouts, swapId, swap, Movement(caller, swap.amount, swapId));
      HashesAgreeFinalize(swaps, sha256, swapId, swap);
      swaps := swaps[swapId := swap];
      payouts := payouts + [Movement(caller, swap.amount, swapId)];
      r := Ok(swap.amount);
    }

    /** `set_fee_rate`: owner-only, at most 1000 basis points (10%). */
    method SetFeeRate(newRate: nat, caller: AccountId) returns (r: Result<(), Error>)
      requires Valid()
      modifies this
      ensures Valid()
      ensures SetFeeRateFailure(owner, caller, newRate) == (if r.Err? then Some(r.error) else None)
      ensures feeRate == if r.Ok? then newRate else old(feeRate)
      ensures swaps == old(swaps) && ids == old(ids) && deposits == old(deposits) && payouts == old(payouts)
    {
      if caller != owner { return Err(NotOwner); }
      if newRate > MaxFeeRate { return Err(FeeRateTooHigh); }
      feeRate := newRate;
      r := Ok(());
    }

    /** `get_swap`: the stored record, whose fields determine its key. */
    function GetSwap(swapId: string): (r: Option<HTLCSwap>)
      reads this
      requires Valid()
      ensures r.Some? <==> swapId in swaps
      ensures r.Some? ==> r.value == swaps[swapId]
      ensures r.Some? ==> swapId == GenerateSwapId(r.value.sender, r.value.receiver, r.value.hashlock, r.value.timelock, sha256)
    {
      if swapId in swaps then
        assert SwapHashesAgree(swapId, swaps[swapId], sha256);
        Some(swaps[swapId])
      else None
    }

    /** `get_swaps_by_account`: of the swaps with `account` as sender or receiver, in store
        order, the run of at most `limit` that starts after the first `fromIndex`; both
        counts pass through a 32-bit `as usize`. */
    function GetSwapsByAccount(account: AccountId, fromIndex: nat, limit: nat): (r: seq<(string, HTLCSwap)>)
      reads this
      requires KeyOrder(swaps, ids)
      ensures |r| <= limit
      ensures forall k :: 0 <= k < |r| ==> r[k].0 in swaps && r[k].1 == swaps[r[k].0] && Involves(r[k].1, account)
      ensures var m := MatchingEntries(ids, swaps, account);
        var skip, take := fromIndex % UsizeModulus, limit % UsizeModulus;
        && |r| == (if skip >= |m| then 0 else if take <= |m| - skip then take else |m| - skip)
        && forall k :: 0 <= k < |r| ==> r[k] == m[skip + k]
    {
      Take(Skip(MatchingEntries(ids, swaps, account), fromIndex % UsizeModulus), limit % UsizeModulus)
    }

    /** `verify_secret`: true exactly when `hashlock` is the lowercase hex of the secret's digest. */
    function VerifySecret(secret: string, hashlock: string): (ok: bool)
      ensures ok <==> HexDecode(hashlock) == Some(sha256(Utf8Encode(secret)))
    {
      HashSecretMatches(secret, hashlock, sha256);
      HashSecret(secret, sha256) == hashlock
    }

    /** A claim goes through only with a secret that `verify_secret` accepts for the stored hashlock. */
    lemma ClaimNeedsVerifiedSecret(swapId: string, secret: string, caller: AccountId, nowNs: nat)
      requires ClaimFailure(swaps, swapId, secret, caller, nowNs, sha256) == None
      ensures VerifySecret(secret, swaps[swapId].hashlock)
    {
    }

    /** The payout of any claim the current fee rate allows is positive and at most the amount. */
    lemma ClaimPayoutBounds(swapId: string)
      requires Valid() && swapId in swaps
      ensures 1 <= Payout(swaps[swapId].amount, feeRate) <= swaps[swapId].amount
      ensures 10 * Fee(swaps[swapId].amount, feeRate) <= swaps[swapId].amount
    {
      PayoutBounds(swaps[swapId].amount, feeRate);
      FeeAtMostTenth(swaps[swapId].amount, feeRate);
    }
  }
}
