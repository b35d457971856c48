# NEAR hashed-timelock escrow contracts, modelled in Dafny

This project models the two NEAR smart contracts that hold the NEAR side of a
cross-chain atomic swap with Ethereum:

- **`htlc-near`** (module `HtlcNear`). The contract has a table of
  `HTLCContract` records keyed by a string id of the form
  `sender-receiver-amount-now_ms`, where the amount is printed by `NearToken`'s
  `Display` (for example `1.50 NEAR`). `create_htlc` locks the attached deposit
  under a 32-byte SHA-256 hashlock and a deadline in milliseconds. The receiver
  can `withdraw` with a preimage on or before the deadline. The sender can
  `refund` strictly after it. There are also read-only queries, and an
  owner-only `emergency_pause` that changes nothing.
- **`fusion-htlc`** (module `FusionHtlc`). The swap lifecycle is the same, but:
  - the hashlock is a hex string;
  - the swap id is the hex SHA-256 of `sender-receiver-hashlock-timelock`, and
    reusing an id is rejected;
  - the revealed secret is stored on claim;
  - a fee in basis points (at most 1000, 30 by default, set by the owner) is
    kept from the claim payout;
  - a paginated query lists the swaps that involve an account.

Each contract is a class whose fields are the contract's state:

- the `UnorderedMap`, held as a `map` plus a `seq` of keys in iteration order;
- the owner;
- the fee rate, in the fusion contract.

Each mutable field is updated by the entry-point methods; the owner and the hash
function are constants. The two modules share:

- `Encoding`: lowercase hex, decimal rendering of integers, UTF-8 encoding;
- `NearToken`: how a `NearToken` amount prints (its `Display`);
- `NearRuntime`: account ids, the digest type, a ghost log of fund movements,
  and the key order of a NEAR `UnorderedMap`;
- `Wrappers`: `Option` and `Result`.

`HtlcNearScenarios` holds call sequences on `htlc-near` that show where its ids collide.

How the model stands in for the runtime:

- **Panics.** A failing `assert!` or `require!` is a NEAR panic, which
  reverts all storage writes of the call. Each entry point therefore returns
  `Err(error)` and leaves the state unchanged. A pure `…Failure` function gives
  the first check that fails, in the contract's order. Its contract states
  exactly when the call goes through.
- **Inputs from the environment.** The caller, the attached deposit and the
  block time are method parameters.
- **SHA-256** is any function that maps bytes to 32 bytes. It is fixed when
  the contract is constructed.
- **Transfers.** Deposits received and `Promise::transfer`s issued are
  appended to two ghost logs, `deposits` and `payouts`, so that the class
  invariant can state how money moves:
  - in `htlc-near`, each id is paid out at most as often as it was funded,
    counting an open record as a payout still owed;
  - in `fusion-htlc`, each swap was funded exactly once by its sender, with
    its amount, and is paid out exactly once if it is claimed or refunded and
    never otherwise.

Behaviours of the code that the model reproduces and states:

- **Overwritten `htlc-near` records.** `create_htlc` does not check whether
  the id already exists, so an equal id silently replaces the earlier record.
  This happens in the same millisecond:
  - for the same sender, receiver and amount;
  - for different senders, because account ids may contain `-`.

  The earlier deposit then has no record that can release it. A colliding create
  also reopens an id whose record was already withdrawn or refunded: the new open
  record can be paid out again under the same id (`ClosedIdReopened`). So "a
  closed record rejects withdraw and refund" holds only until the next colliding
  create.
  `ContractIdAmbiguous` and `SameMillisecondCollision` exhibit this. The
  invariant is stated so that it survives the overwrite.
- **`fusion-htlc` hashlock length.** `hashlock.len() == 64` counts UTF-8
  bytes, not characters. A hashlock of the right length that is not lowercase
  hex (for example, upper-case hex) can be stored but can never be claimed:
  only refund can close it.
- **Pagination.** `from_index as usize` and `limit as usize` keep the low 32
  bits, because NEAR contracts run as wasm32.
- **Amounts as text.** The `htlc-near` id prints the deposit with `NearToken`'s
  `Display`. It prints zero as `0 NEAR`, which cannot occur here because
  `create_htlc` rejects a zero deposit. It prints any other amount under one
  milliNEAR as `<0.001 NEAR`. It rounds up to a thousandth of a NEAR for amounts
  up to 0.999 NEAR, and to a hundredth of a NEAR above that (so 0.9995 NEAR prints
  `1.00 NEAR`). Every form ends in ` NEAR`. So two deposits that print alike (1 and 2
  yoctoNEAR, say) give the same id in the same millisecond, and the second
  record replaces the first. `ContractIdSameForDeposits` and
  `SubMilliNearDepositsCollide` state this. The near-token crate is not part of
  this model. Its `Display` is modelled on that crate's published behaviour.
  `get_contract` prints the amount with `u128::to_string`, in decimal
  yoctoNEAR, and that string does parse back.
- **Fusion swap ids from different accounts.** The same `-` ambiguity makes
  `generate_swap_id` give one id for ("ab-cd", "ef") and ("ab", "cd-ef"). A
  stored swap of the first pair therefore makes the second's `initiate_swap`
  fail with "already exists" for the same hashlock and timelock
  (`SwapIdAmbiguous`, `ForeignSwapBlocksInitiate`).

## Model

| member | source | states |
|---|---|---|
| HtlcNear.HTLCNear.constructor | near-contracts/htlc-near/src/lib.rs:32-38 | `new(owner)`: an empty table, empty logs, the given owner; the invariant holds |
| HtlcNear.HTLCNear.GetOwner | near-contracts/htlc-near/src/lib.rs:206-208 | returns the owner fixed by `new`, which never changes |
| HtlcNear.CreateFailure | near-contracts/htlc-near/src/lib.rs:51-57 | `create_htlc` passes its checks exactly when the deposit is positive, the timelock is after the block time and the hashlock has 32 bytes |
| HtlcNear.HTLCNear.CreateHtlc | near-contracts/htlc-near/src/lib.rs:40-87 | fails with the first failed check and leaves the state unchanged; otherwise returns the id `sender-receiver-amount-now`, with the amount as `Display` prints it, stores an open record under it (replacing any record with that id), adds a new id to the end of the key order, logs the deposit and keeps the invariant |
| HtlcNear.ContractId | near-contracts/htlc-near/src/lib.rs:60-66 | the id is `sender-receiver-amount-now`: it starts with the sender and a dash, ends with a dash and the decimal milliseconds, and its length is the sum of the four parts plus three dashes |
| HtlcNear.ContractIdSameForDeposits | near-contracts/htlc-near/src/lib.rs:60-66 | for one sender, receiver and millisecond, two deposits give the same id exactly when `Display` rounds them to the same shown amount |
| HtlcNear.ContractIdAmbiguous | near-contracts/htlc-near/src/lib.rs:60-66 | two different (sender, receiver) pairs give the same id in the same millisecond, for every amount and time |
| HtlcNearScenarios.SubMilliNearDepositsCollide | near-contracts/htlc-near/src/lib.rs:60-79 | creates of 1 and 2 yoctoNEAR in one millisecond leave one record, holding 2 yoctoNEAR, that the first hashlock's preimage does not open |
| NearToken.Precision | near-contracts/htlc-near/src/lib.rs:64 | which of the four `Display` forms an amount takes: `0` exactly for zero, `<0.001` exactly below one milliNEAR, thousandths exactly up to 999 milliNEAR, otherwise hundredths; the shown figure is the amount rounded up to its unit |
| NearToken.Render | near-contracts/htlc-near/src/lib.rs:64 | the text of each form, which always ends in ` NEAR` |
| NearToken.RenderShape | near-contracts/htlc-near/src/lib.rs:64 | the forms are told apart by length and first character |
| NearToken.RenderMilliInjective | near-contracts/htlc-near/src/lib.rs:64 | different thousandths print differently |
| NearToken.RenderCentiInjective | near-contracts/htlc-near/src/lib.rs:64 | different hundredths print differently |
| NearToken.RenderInjective | near-contracts/htlc-near/src/lib.rs:64 | different shown amounts print differently |
| NearToken.Display | near-contracts/htlc-near/src/lib.rs:64 | `Display for NearToken`: text ending in ` NEAR` |
| NearToken.DisplayExact | near-contracts/htlc-near/src/lib.rs:64 | two amounts print alike exactly when they round to the same shown amount |
| HtlcNearScenarios.SameMillisecondCollision | near-contracts/htlc-near/src/lib.rs:60-79 | two successful creates whose ids collide leave one record, and the first hashlock's preimage no longer opens it |
| HtlcNear.WithdrawFailure | near-contracts/htlc-near/src/lib.rs:90-112 | `withdraw` passes exactly when the record exists and is open, the caller is its receiver, the clock is at or before the timelock and SHA-256 of the preimage equals the hashlock |
| HtlcNear.HTLCNear.Withdraw | near-contracts/htlc-near/src/lib.rs:89-124 | fails with the first failed check and leaves the state unchanged; otherwise changes only the record's `withdrawn` flag, logs one transfer of the full amount to the receiver and keeps the invariant |
| HtlcNear.RefundFailure | near-contracts/htlc-near/src/lib.rs:127-141 | `refund` passes exactly when the record exists and is open, the caller is its sender and the clock is strictly after the timelock |
| HtlcNear.HTLCNear.Refund | near-contracts/htlc-near/src/lib.rs:126-153 | fails with the first failed check and leaves the state unchanged; otherwise changes only the `refunded` flag, logs one transfer of the full amount to the sender and keeps the invariant |
| HtlcNear.FinalizedContractRejected | near-contracts/htlc-near/src/lib.rs:95-96 | in any state where the record is withdrawn or refunded, both withdraw and refund fail on a flag check (a later colliding create can replace the record, see `ClosedIdReopened`) |
| HtlcNearScenarios.ClosedIdReopened | near-contracts/htlc-near/src/lib.rs:60-118 | a create repeated in the same millisecond after a withdraw gives the same id, reopens it, and a second withdraw of that id goes through, leaving two payouts |
| HtlcNear.WithdrawRefundExclusive | near-contracts/htlc-near/src/lib.rs:101-104 | withdraw and refund can never both succeed on one record at the same instant |
| HtlcNear.OpenContractHasOneExit | near-contracts/htlc-near/src/lib.rs:101-104 | while a record is open, at each instant exactly one of "receiver withdraws with the preimage" and "sender refunds" succeeds |
| HtlcNear.CreateKeepsInvariant | near-contracts/htlc-near/src/lib.rs:79 | storing an open record, new or replacing, with its deposit logged, keeps the key order, the well-formedness of records and the funding bound |
| HtlcNear.CloseKeepsInvariant | near-contracts/htlc-near/src/lib.rs:114-118 | closing an open record with one payout logged keeps the invariant |
| HtlcNear.CreateKeepsFunded | near-contracts/htlc-near/src/lib.rs:79 | a logged deposit under the stored id keeps "payouts plus one per open record ≤ deposits" for every id |
| HtlcNear.CloseKeepsFunded | near-contracts/htlc-near/src/lib.rs:143-147 | closing an open record and logging its payout keeps the same funding bound |
| HtlcNear.View | near-contracts/htlc-near/src/lib.rs:156-165 | the query tuple: the amount string is canonical decimal (no leading zero unless zero) and parses back to the amount, the hashlock string hex-decodes back to the hashlock bytes, and the other fields are copied |
| HtlcNear.HTLCNear.GetContract | near-contracts/htlc-near/src/lib.rs:155-166 | returns a view exactly when the id is stored; the view is that of the stored record and its hashlock has 64 hex characters |
| HtlcNear.HTLCNear.CheckPreimage | near-contracts/htlc-near/src/lib.rs:168-174 | true exactly when the id is stored and SHA-256 of the preimage equals its hashlock |
| HtlcNear.HTLCNear.CheckPreimagePredictsWithdraw | near-contracts/htlc-near/src/lib.rs:168-174 | inside the withdraw window of an open record, `check_preimage` is true exactly when the receiver's withdraw with that preimage passes |
| HtlcNear.HTLCNear.GetContractCount | near-contracts/htlc-near/src/lib.rs:176-178 | the number of distinct ids stored |
| HtlcNear.ViewAll | near-contracts/htlc-near/src/lib.rs:181-193 | one (id, view) pair per listed id, in the same order |
| HtlcNear.HTLCNear.GetAllContracts | near-contracts/htlc-near/src/lib.rs:180-194 | one entry per stored id, in iteration order, with no id twice, each paired with the view of its record |
| HtlcNear.HTLCNear.GetAllContractsComplete | near-contracts/htlc-near/src/lib.rs:180-194 | every stored record appears in the listing |
| HtlcNear.HTLCNear.EmergencyPause | near-contracts/htlc-near/src/lib.rs:196-204 | succeeds exactly for the owner, fails with "only owner" otherwise, and changes no state |
| FusionHtlc.FusionHTLC.constructor | near-contracts/fusion-htlc/src/lib.rs:68-75 | `new(owner)`: no swaps, fee rate 30 basis points, the given owner; the invariant holds |
| FusionHtlc.HashSecret | near-contracts/fusion-htlc/src/lib.rs:233-236 | 64 lowercase hex characters, whose UTF-8 encoding is also 64 bytes |
| FusionHtlc.HashSecretMatches | near-contracts/fusion-htlc/src/lib.rs:233-236 | a hashlock equals `hash_secret(secret)` exactly when it hex-decodes to SHA-256 of the secret's UTF-8 bytes |
| FusionHtlc.NonHexHashlockMatchesNothing | near-contracts/fusion-htlc/src/lib.rs:92 | a hashlock with a character outside 0-9 and a-f matches no secret |
| FusionHtlc.SwapIdInput | near-contracts/fusion-htlc/src/lib.rs:228 | the hashed text `sender-receiver-hashlock-timelock`: it starts with the sender and a dash, ends with a dash and the decimal timelock, and its length is the sum of the parts plus three dashes |
| FusionHtlc.SwapIdAmbiguous | near-contracts/fusion-htlc/src/lib.rs:227-231 | two different (sender, receiver) pairs give the same swap id for the same hashlock and timelock |
| FusionHtlc.ForeignSwapBlocksInitiate | near-contracts/fusion-htlc/src/lib.rs:95-97 | a stored swap of one pair makes a valid initiate by the other pair fail with "already exists" |
| FusionHtlc.GenerateSwapId | near-contracts/fusion-htlc/src/lib.rs:227-231 | the swap id has 64 lowercase hex characters and depends only on sender, receiver, hashlock and timelock |
| FusionHtlc.Fee | near-contracts/fusion-htlc/src/lib.rs:149 | the fee is amount × rate / 10000 rounded down: the largest fee with fee × 10000 ≤ amount × rate |
| FusionHtlc.FeeAtMostTenth | near-contracts/fusion-htlc/src/lib.rs:149 | with a rate of at most 1000, ten fees never exceed the amount |
| FusionHtlc.Payout | near-contracts/fusion-htlc/src/lib.rs:150 | payout and fee add up to the amount |
| FusionHtlc.PayoutBounds | near-contracts/fusion-htlc/src/lib.rs:148-150 | the fee is at most a tenth of the amount, a positive amount gives a positive payout, and a zero rate pays the full amount |
| FusionHtlc.InitiateFailure | near-contracts/fusion-htlc/src/lib.rs:90-97 | `initiate_swap` passes exactly when the deposit is positive, the timelock is after the block time, the hashlock is 64 UTF-8 bytes and the derived id is not stored |
| FusionHtlc.FusionHTLC.InitiateSwap | near-contracts/fusion-htlc/src/lib.rs:79-126 | fails with the first failed check and leaves the state unchanged; otherwise returns the derived id, stores a fresh open native-NEAR swap under it, appends the id to the key order, logs the deposit and keeps the invariant |
| FusionHtlc.DuplicateInitiateRejected | near-contracts/fusion-htlc/src/lib.rs:95-97 | once a swap is stored, any second initiate with the same sender, receiver, hashlock and timelock fails, with "already exists" if it gets past the first two checks |
| FusionHtlc.ClaimFailure | near-contracts/fusion-htlc/src/lib.rs:131-142 | `claim_swap` passes exactly when the swap exists and is open, the clock is strictly before the timelock, `hash_secret(secret)` equals the hashlock and the caller is the receiver |
| FusionHtlc.FusionHTLC.ClaimSwap | near-contracts/fusion-htlc/src/lib.rs:129-162 | fails with the first failed check and leaves the state unchanged; otherwise records the secret, marks the swap claimed, logs one transfer of amount − fee to the claimer, returns that payout and keeps the invariant |
| FusionHtlc.RefundFailure | near-contracts/fusion-htlc/src/lib.rs:167-174 | `refund_swap` passes exactly when the swap exists and is open, the clock is at or after the timelock and the caller is the sender |
| FusionHtlc.FusionHTLC.RefundSwap | near-contracts/fusion-htlc/src/lib.rs:165-190 | fails with the first failed check and leaves the state unchanged; otherwise marks the swap refunded, logs one transfer of the full amount to the sender, with no fee, and keeps the invariant |
| FusionHtlc.FinalizedSwapRejected | near-contracts/fusion-htlc/src/lib.rs:133-134 | a claimed or refunded swap rejects every later claim and refund on a flag check |
| FusionHtlc.ClaimRefundExclusive | near-contracts/fusion-htlc/src/lib.rs:135 | claim and refund can never both succeed on one swap at the same instant |
| FusionHtlc.OpenSwapHasOneExit | near-contracts/fusion-htlc/src/lib.rs:135 | while a swap is open, at each instant exactly one of "receiver claims with the secret" and "sender refunds" succeeds |
| FusionHtlc.SetFeeRateFailure | near-contracts/fusion-htlc/src/lib.rs:214-215 | `set_fee_rate` passes exactly for the owner with a rate of at most 1000 |
| FusionHtlc.FusionHTLC.SetFeeRate | near-contracts/fusion-htlc/src/lib.rs:213-217 | on success only the fee rate changes, to the new rate; on failure nothing changes; the rate cap is kept |
| FusionHtlc.HashesAgreeUpdate | near-contracts/fusion-htlc/src/lib.rs:112 | storing a swap whose key and secret agree with its hashes keeps that true of the whole table |
| FusionHtlc.HashesAgreeFinalize | near-contracts/fusion-htlc/src/lib.rs:144-146 | re-inserting a swap with only its final-state fields changed, and any recorded secret opening the hashlock, keeps the key derived from the fields |
| FusionHtlc.InitiateKeepsInvariant | near-contracts/fusion-htlc/src/lib.rs:112 | inserting a fresh open swap under an absent id, with its deposit logged, keeps the invariant |
| FusionHtlc.InitiateKeepsDeposits | near-contracts/fusion-htlc/src/lib.rs:112 | the new id has exactly one deposit, from its sender, of its amount; the old ids keep theirs |
| FusionHtlc.InitiateKeepsPayouts | near-contracts/fusion-htlc/src/lib.rs:112 | the new open swap has no payouts, and the old swaps keep theirs |
| FusionHtlc.FinalizeKeepsInvariant | near-contracts/fusion-htlc/src/lib.rs:144-161 | closing an open swap with its one payout logged keeps the invariant |
| FusionHtlc.FusionHTLC.GetSwap | near-contracts/fusion-htlc/src/lib.rs:193-195 | returns the stored record exactly when the id is stored, and its id is the one derived from its fields |
| FusionHtlc.MatchingEntries | near-contracts/fusion-htlc/src/lib.rs:199-201 | each entry is a stored (id, swap) pair whose sender or receiver is the account |
| FusionHtlc.MatchingEntriesFromIds | near-contracts/fusion-htlc/src/lib.rs:199-201 | every match is taken from the key order |
| FusionHtlc.MatchingEntriesComplete | near-contracts/fusion-htlc/src/lib.rs:199-201 | every stored swap that involves the account is among the matches |
| FusionHtlc.MatchingEntriesInStoreOrder | near-contracts/fusion-htlc/src/lib.rs:199-201 | of two matches, the earlier one comes earlier in the key order |
| FusionHtlc.Skip | near-contracts/fusion-htlc/src/lib.rs:202 | `skip(n)`: drops the first n elements, or all of them |
| FusionHtlc.Take | near-contracts/fusion-htlc/src/lib.rs:203 | `take(n)`: keeps the first n elements, or all of them |
| FusionHtlc.FusionHTLC.GetSwapsByAccount | near-contracts/fusion-htlc/src/lib.rs:198-205 | at most `limit mod 2^32` entries, each a stored swap involving the account, equal to the run of matches that starts at `from_index mod 2^32` |
| FusionHtlc.FusionHTLC.VerifySecret | near-contracts/fusion-htlc/src/lib.rs:208-210 | true exactly when the hashlock hex-decodes to SHA-256 of the secret's UTF-8 bytes |
| FusionHtlc.FusionHTLC.ClaimNeedsVerifiedSecret | near-contracts/fusion-htlc/src/lib.rs:138-139 | a claim that goes through used a secret that `verify_secret` accepts for the stored hashlock |
| FusionHtlc.FusionHTLC.ClaimPayoutBounds | near-contracts/fusion-htlc/src/lib.rs:148-150 | at every reachable fee rate, a claim's payout is positive and at most the amount, and the fee is at most a tenth of it |
| Encoding.HexEncode | near-contracts/htlc-near/src/lib.rs:160 | `hex::encode`: two lowercase hex characters per byte |
| Encoding.HexDecodeEncode | near-contracts/htlc-near/src/lib.rs:160 | decoding the hex encoding of bytes gives back the bytes |
| Encoding.HexEncodeDecode | near-contracts/fusion-htlc/src/lib.rs:230 | the only strings that decode are the encodings of what they decode to |
| Encoding.HexEncodingExact | near-contracts/fusion-htlc/src/lib.rs:235 | a string is the hex encoding of some bytes exactly when it decodes to them |
| Encoding.HexEncodeInjective | near-contracts/fusion-htlc/src/lib.rs:230 | different digests give different hex strings |
| Encoding.DecimalDigit | near-contracts/htlc-near/src/lib.rs:65 | the character of a digit below ten, whose code minus `'0'` is the digit |
| Encoding.DecimalString | near-contracts/htlc-near/src/lib.rs:65 | non-empty, all digits, and without a leading zero unless the number is zero |
| Encoding.ParseDecimalString | near-contracts/htlc-near/src/lib.rs:159 | parsing the decimal rendering of a number gives back the number |
| Encoding.DecimalStringInjective | near-contracts/fusion-htlc/src/lib.rs:228 | different numbers render differently |
| Encoding.Utf8Char | near-contracts/fusion-htlc/src/lib.rs:229 | one to four bytes per character, and a single byte equal to its code exactly for characters below 0x80 |
| Encoding.Utf8Encode | near-contracts/fusion-htlc/src/lib.rs:92 | `as_bytes()` / `len()`: at least one and at most four bytes per character |
| Encoding.Utf8EncodeAscii | near-contracts/fusion-htlc/src/lib.rs:92 | for ASCII text, the bytes are the character codes, so `len()` is the number of characters |
| Encoding.Utf8EncodeNonAscii | near-contracts/fusion-htlc/src/lib.rs:92 | text with a character at or above 0x80 has more bytes than characters |
| NearRuntime.CountForAppend | near-contracts/htlc-near/src/lib.rs:118 | logging a movement raises the count of its id by one and leaves other ids alone |
| NearRuntime.CountForAbsent | near-contracts/htlc-near/src/lib.rs:79 | an id without movements has a count of zero |
| NearRuntime.KeyOrderInsert | near-contracts/htlc-near/src/lib.rs:79 | `UnorderedMap::insert` puts a new key at the end of the iteration order, keeps a present key in its place, and keeps the keys distinct |
| NearRuntime.DistinctElements | near-contracts/htlc-near/src/lib.rs:177 | a key order without repeats has as many keys as positions, so `len()` counts the entries |

## Left out

- `withdraw_fees` (fusion-htlc): it transfers the account's free balance, which depends on
  runtime storage staking that the model does not have.
- Events and logs (`env::log_str`, the `Swap*Event` JSON): they do not affect state.
- Promise execution: a transfer is logged as issued in the ghost `payouts` log.
  Whether the receiving account exists, or the transfer fails later, is not modelled.
- The fungible-token path: `token` is always None in the source. `CALLBACK_GAS` is never used.
- Borsh and serde encodings, storage prefixes, and the `U128` / `Base64VecU8` JSON wrappers:
  values are modelled as the numbers and byte strings they carry.
- SHA-256 internals: the digest is a parameter, any function onto 32-byte strings.
- Clocks: the block time is a `nat` parameter. `htlc-near` compares
  `env::block_timestamp_ms()`, in milliseconds (`nowMs`). `fusion-htlc` compares
  `env::block_timestamp()`, in nanoseconds (`nowNs`), and its swap timelocks are
  nanoseconds too. A timelock meant for one contract is therefore a million times off
  in the other.
- `fusion-htlc`'s `owner` field is public: the model makes it a `const` (the contract never changes it).
- FusionHtlc.Fee: integers are unbounded. The `u128` product `amount * fee_rate` overflows
  once the amount reaches 2^128 / fee_rate, for the rate set at the time of the claim (never
  at rate 0). Whether that panics or wraps around depends on the crate's `overflow-checks`
  setting. The model has neither.
- NearToken.Precision: the crate rounds up with `saturating_add`. The model adds without a
  bound, which differs only within 10^22 yoctoNEAR of 2^128.
- Attached deposits on non-payable methods: the `#[near_bindgen]` wrapper of a method without
  `#[payable]` panics when any deposit is attached. The model takes these calls with no
  deposit, so their "exactly when" contracts are about the zero-deposit call. The lines
  below name each such method.
- HtlcNear.HTLCNear.Withdraw: modelled as called with no attached deposit; the panic on a
  deposit is not modelled.
- HtlcNear.HTLCNear.Refund: modelled as called with no attached deposit; the panic on a
  deposit is not modelled.
- HtlcNear.HTLCNear.EmergencyPause: modelled as called with no attached deposit; the panic
  on a deposit is not modelled.
- FusionHtlc.FusionHTLC.ClaimSwap: modelled as called with no attached deposit; the panic on
  a deposit is not modelled.
- FusionHtlc.FusionHTLC.RefundSwap: modelled as called with no attached deposit; the panic
  on a deposit is not modelled.
- FusionHtlc.FusionHTLC.SetFeeRate: modelled as called with no attached deposit; the panic
  on a deposit is not modelled.
- Account id validation: near-sdk rejects malformed `AccountId` arguments before the method
  runs. The model's `AccountId` is any string.
- HtlcNear.HTLCNear.CreateHtlc: `u64` bounds on the timelock and block time, and `u128`
  bounds on deposits, are not modelled.
- FusionHtlc.FusionHTLC.InitiateSwap: the same `u64` / `u128` bounds are not modelled.
- FusionHtlc.FusionHTLC.GetSwapsByAccount: it requires only that the key order lists the map's
  keys, which is the part of the class invariant the query needs.
