/** The `htlc-near` contract: a table of hashed-timelock escrows keyed by a
    string id. The receiver withdraws with a SHA-256 preimage of the 32-byte
    hashlock on or before the timelock; the sender refunds strictly after it.
    A failing `assert!` is a NEAR panic, which reverts every storage write of the
    call, so each entry point returns an `Err` and leaves the state as it was. */
module HtlcNear {
  import opened Wrappers
  import opened Encoding
  import opened NearRuntime
  import NearToken

  const HashlockLength := 32

  /** One escrow record (`HTLCContract`); `amount` is the attached deposit in yoctoNEAR. */
  datatype HTLCContract = HTLCContract(
    sender: AccountId,
    receiver: AccountId,
    amount: nat,
    hashlock: seq<byte>,
    timelock: nat,
    withdrawn: bool,
    refunded: bool,
    ethAddress: string)

  /** One constructor per panic message of the contract. */
  datatype Error =
    | AmountNotPositive     // "Amount must be greater than 0"
    | TimelockNotInFuture   // "Timelock must be in the future"
    | HashlockEmpty         // "Hashlock cannot be empty"
    | HashlockWrongLength   // "Hashlock must be 32 bytes"
    | ContractNotFound      // "Contract does not exist"
    | AlreadyWithdrawn      // "Already withdrawn"
    | AlreadyRefunded       // "Already refunded"
    | NotReceiver           // "Only receiver can withdraw"
    | TimelockExpired       // "Timelock expired"
    | InvalidPreimage       // "Invalid preimage"
    | NotSender             // "Only sender can refund"
    | TimelockNotExpired    // "Timelock not expired"
    | NotOwner              // "Only owner can pause"

  predicate Open(c: HTLCContract) {
    !c.withdrawn && !c.refunded
  }

  /** What `create_htlc` guarantees of every record it stores, and what the flags keep. */
  predicate WellFormed(c: HTLCContract) {
    c.amount > 0 && |c.hashlock| == HashlockLength && !(c.withdrawn && c.refunded)
  }

  /** The id `format!("{}-{}-{}-{}", sender, receiver, amount, now_ms)`: `amount` is the
      attached `NearToken`, so it appears in its rounded `Display` form, while the
      millisecond time is a `u64` in decimal. */
  function ContractId(sender: AccountId, receiver: AccountId, amount: nat, nowMs: nat): (id: string)
    ensures |id| == |sender| + |receiver| + |NearToken.Display(amount)| + |DecimalString(nowMs)| + 3
    ensures id[..|sender| + 1] == sender + "-"
    ensures id[|id| - |DecimalString(nowMs)| - 1..] == "-" + DecimalString(nowMs)
  {
    sender + "-" + receiver + "-" + NearToken.Display(amount) + "-" + DecimalString(nowMs)
  }

  /** For one sender, receiver and millisecond, two deposits get the same id exactly when
      their `Display` keeps the same rounded value: 1 and 2 yoctoNEAR, say, both "<0.001 NEAR". */
  lemma ContractIdSameForDeposits(sender: AccountId, receiver: AccountId, a: nat, b: nat, nowMs: nat)
    ensures ContractId(sender, receiver, a, nowMs) == ContractId(sender, receiver, b, nowMs)
        <==> NearToken.Precision(a) == NearToken.Precision(b)
  {
    if ContractId(sender, receiver, a, nowMs) == ContractId(sender, receiver, b, nowMs) {
      SameMiddle(sender + "-" + receiver + "-", NearToken.Display(a), NearToken.Display(b), DecimalString(nowMs));
    }
    NearToken.DisplayExact(a, b);
  }

  lemma SameMiddle(prefix: string, x: string, y: string, t: string)
    requires prefix + x + "-" + t == prefix + y + "-" + t
    ensures x == y
  {
    assert x == (prefix + x + "-" + t)[|prefix|..|prefix| + |x|];
    assert y == (prefix + y + "-" + t)[|prefix|..|prefix| + |y|];
  }

  /** Account ids may contain '-', so the id does not determine the pair of accounts. */
  lemma ContractIdAmbiguous(amount: nat, nowMs: nat)
    ensures ContractId("ab-cd", "ef", amount, nowMs) == ContractId("ab", "cd-ef", amount, nowMs)
  {
    assert "ab-cd" + "-" + "ef" == "ab" + "-" + "cd-ef";
  }

  // ---------------------------------------------------------------------------
  // The checks of each entry point, in the order the contract makes them:
  // the first one that fails, or None when the call goes through.

  function CreateFailure(deposit: nat, timelock: nat, nowMs: nat, hashlock: seq<byte>): (e: Option<Error>)
    ensures e == None <==> deposit > 0 && timelock > nowMs && |hashlock| == HashlockLength
  {
    if deposit == 0 then Some(AmountNotPositive)
    else if timelock <= nowMs then Some(TimelockNotInFuture)
    else if |hashlock| == 0 then Some(HashlockEmpty)
    else if |hashlock| != HashlockLength then Some(HashlockWrongLength)
    else None
  }

  function WithdrawFailure(
    contracts: map<string, HTLCContract>, contractId: string, preimage: seq<byte>,
    caller: AccountId, nowMs: nat, sha256: Sha256): (e: Option<Error>)
    ensures e == None <==>
      && contractId in contracts
      && Open(contracts[contractId])
      && caller == contracts[contractId].receiver
      && nowMs <= contracts[contractId].timelock
      && sha256(preimage) == contracts[contractId].hashlock
  {
    if contractId !in contracts then Some(ContractNotFound)
    else
      var c := contracts[contractId];
      if c.withdrawn then Some(AlreadyWithdrawn)
      else if c.refunded then Some(AlreadyRefunded)
      else if caller != c.receiver then Some(NotReceiver)
      else if nowMs > c.timelock then Some(TimelockExpired)
      else if sha256(preimage) != c.hashlock then Some(InvalidPreimage)
      else None
  }

  function RefundFailure(
    contracts: map<string, HTLCContract>, contractId: string,
    caller: AccountId, nowMs: nat): (e: Option<Error>)
    ensures e == None <==>
      && contractId in contracts
      && Open(contracts[contractId])
      && caller == contracts[contractId].sender
      && nowMs > contracts[contractId].timelock
  {
    if contractId !in contracts then Some(ContractNotFound)
    else
      var c := contracts[contractId];
      if c.withdrawn then Some(AlreadyWithdrawn)
      else if c.refunded then Some(AlreadyRefunded)
      else if caller != c.sender then Some(NotSender)
      else if nowMs <= c.timelock then Some(TimelockNotExpired)
      else None
  }

  /** In any state where a record is withdrawn or refunded, both withdraw and refund fail
      on the flag check, whoever calls, whenever, and with whatever preimage. */
  lemma FinalizedContractRejected(
    contracts: map<string, HTLCContract>, contractId: string, preimage: seq<byte>,
    withdrawer: AccountId, refunder: AccountId, withdrawMs: nat, refundMs: nat, sha256: Sha256)
    requires contractId in contracts && !Open(contracts[contractId])
    ensures WithdrawFailure(contracts, contractId, preimage, withdrawer, withdrawMs, sha256) in {Some(AlreadyWithdrawn), Some(AlreadyRefunded)}
    ensures RefundFailure(contracts, contractId, refunder, refundMs) in {Some(AlreadyWithdrawn), Some(AlreadyRefunded)}
  {
  }

  /** The withdraw window (now <= timelock) and the refund window (now > timelock) are
      disjoint: at no instant can both calls succeed on one record. */
  lemma WithdrawRefundExclusive(
    contracts: map<string, HTLCContract>, contractId: string, preimage: seq<byte>,
    withdrawer: AccountId, refunder: AccountId, nowMs: nat, sha256: Sha256)
    ensures !(WithdrawFailure(contracts, contractId, preimage, withdrawer, nowMs, sha256) == None
              && RefundFailure(contracts, contractId, refunder, nowMs) == None)
  {
  }

  /** The windows also cover all times: while a record is open, at every instant exactly
      one of "receiver withdraws with a correct preimage" and "sender refunds" succeeds. */
  lemma OpenContractHasOneExit(
    contracts: map<string, HTLCContract>, contractId: string, preimage: seq<byte>, nowMs: nat, sha256: Sha256)
    requires contractId in contracts && Open(contracts[contractId])
    requires sha256(preimage) == contracts[contractId].hashlock
    ensures (WithdrawFailure(contracts, contractId, preimage, contracts[contractId].receiver, nowMs, sha256) == None)
         != (RefundFailure(contracts, contractId, contracts[contractId].sender, nowMs) == None)
  {
  }

  // ---------------------------------------------------------------------------
  // Query results

  /** The tuple `get_contract` returns: the amount as a decimal string and the hashlock hex-encoded. */
  datatype ContractView = ContractView(
    sender: AccountId,
    receiver: AccountId,
    amount: string,
    hashlock: string,
    timelock: nat,
    withdrawn: bool,
    refunded: bool,
    ethAddress: string)

  function View(c: HTLCContract): (v: ContractView)
    ensures IsDecimal(v.amount) && ParseDecimal(v.amount) == c.amount
    ensures |v.amount| >= 1 && (v.amount[0] == '0' ==> c.amount == 0)
    ensures HexDecode(v.hashlock) == Some(c.hashlock) && |v.hashlock| == 2 * |c.hashlock|
    ensures v.sender == c.sender && v.receiver == c.receiver && v.timelock == c.timelock
    ensures v.withdrawn == c.withdrawn && v.refunded == c.refunded && v.ethAddress == c.ethAddress
  {
    ParseDecimalString(c.amount);
    HexDecodeEncode(c.hashlock);
    ContractView(c.sender, c.receiver, DecimalString(c.amount), HexEncode(c.hashlock),
                 c.timelock, c.withdrawn, c.refunded, c.ethAddress)
  }

  // ---------------------------------------------------------------------------
  // The table invariant and the steps that keep it

  /** The keys in `ids` are distinct and are exactly those of `contracts`; every record is
      well formed; and no id has been paid out more often than deposits were made under it,
      counting an open record as one payout still to come. */
  ghost predicate TableInvariant(
    contracts: map<string, HTLCContract>, ids: seq<string>, deposits: seq<Movement>, payouts: seq<Movement>)
  {
    && KeyOrder(contracts, ids)
    && (forall id :: id in contracts ==> WellFormed(contracts[id]))
    && Funded(contracts, deposits, payouts)
  }

  /** Every logged movement belongs to a stored id, and no id has paid out more often
      than it was funded, counting an open record as a payout still owed. */
  ghost predicate Funded(contracts: map<string, HTLCContract>, deposits: seq<Movement>, payouts: seq<Movement>) {
    && (forall id {:trigger CountFor(deposits, id)} :: id in contracts ==>
          CountFor(payouts, id) + (if Open(contracts[id]) then 1 else 0) <= CountFor(deposits, id))
    && (forall k :: 0 <= k < |deposits| ==> deposits[k].id in contracts)
    && (forall k :: 0 <= k < |payouts| ==> payouts[k].id in contracts)
  }

  /** Storing a fresh open record under `id`, new or replacing, with its deposit logged. */
  lemma CreateKeepsInvariant(
    contracts: map<string, HTLCContract>, ids: seq<string>, deposits: seq<Movement>, payouts: seq<Movement>,
    id: string, c: HTLCContract, d: Movement)
    requires TableInvariant(contracts, ids, deposits, payouts)
    requires WellFormed(c) && Open(c) && d.id == id
    ensures TableInvariant(contracts[id := c], if id in contracts then ids else ids + [id], deposits + [d], payouts)
  {
    KeyOrderInsert(contracts, ids, id, c);
    CreateKeepsFunded(contracts, deposits, payouts, id, c, d);
  }

  lemma CreateKeepsFunded(
    contracts: map<string, HTLCContract>, deposits: seq<Movement>, payouts: seq<Movement>,
    id: string, c: HTLCContract, d: Movement)
    requires Funded(contracts, deposits, payouts)
    requires Open(c) && d.id == id
    ensures Funded(contracts[id := c], deposits + [d], payouts)
  {
    if id !in contracts {
      CountForAbsent(deposits, id);
      CountForAbsent(payouts, id);
    }
    forall x ensures CountFor(deposits + [d], x) == CountFor(deposits, x) + (if x == id then 1 else 0) {
      CountForAppend(deposits, d, x);
    }
  }

  /** Closing the open record `id` (withdrawn or refunded) with its one payout logged. */
  lemma CloseKeepsInvariant(
    contracts: map<string, HTLCContract>, ids: seq<string>, deposits: seq<Movement>, payouts: seq<Movement>,
    id: string, c: HTLCContract, p: Movement)
    requires TableInvariant(contracts, ids, deposits, payouts)
    requires id in contracts && Open(contracts[id]) && WellFormed(c) && !Open(c) && p.id == id
    ensures TableInvariant(contracts[id := c], ids, deposits, payouts + [p])
  {
    KeyOrderInsert(contracts, ids, id, c);
    CloseKeepsFunded(contracts, deposits, payouts, id, c, p);
  }

  lemma CloseKeepsFunded(
    contracts: map<string, HTLCContract>, deposits: seq<Movement>, payouts: seq<Movement>,
    id: string, c: HTLCContract, p: Movement)
    requires Funded(contracts, deposits, payouts)
    requires id in contracts && Open(contracts[id]) && !Open(c) && p.id == id
    ensures Funded(contracts[id := c], deposits, payouts + [p])
  {
    forall x ensures CountFor(payouts + [p], x) == CountFor(payouts, x) + (if x == id then 1 else 0) {
      CountForAppend(payouts, p, x);
    }
  }

  /** Each listed id paired with the view of its record, in the order given. */
  function ViewAll(ids: seq<string>, contracts: map<string, HTLCContract>): (r: seq<(string, ContractView)>)
    requires forall k :: 0 <= k < |ids| ==> ids[k] in contracts
    ensures |r| == |ids|
    ensures forall k :: 0 <= k < |r| ==> r[k] == (ids[k], View(contracts[ids[k]]))
  {
    if ids == [] then [] else [(ids[0], View(contracts[ids[0]]))] + ViewAll(ids[1..], contracts)
  }

  // ---------------------------------------------------------------------------
  // The contract object

  class HTLCNear {
    /** The `contracts` UnorderedMap: its entries, and its keys in iteration order
        (insertion order; re-inserting a present key keeps its place). */
    var contracts: map<string, HTLCContract>
    var ids: seq<string>
    const owner: AccountId
    const sha256: Sha256
    /** Every deposit attached to a successful `create_htlc`, and every transfer issued. */
    ghost var deposits: seq<Movement>
    ghost var payouts: seq<Movement>

    ghost predicate Valid()
      reads this
    {
      TableInvariant(contracts, ids, deposits, payouts)
    }

    /** `new(owner)`; the digest function is the host's SHA-256. */
    constructor (owner: AccountId, sha256: Sha256)
      ensures Valid()
      ensures this.owner == owner && this.sha256 == sha256
      ensures contracts == map[] && ids == [] && deposits == [] && payouts == []
    {
      this.owner := owner;
      this.sha256 := sha256;
      contracts := map[];
      ids := [];
      deposits := [];
      payouts := [];
    }

    /** `get_owner`: the account given to `new`, the only caller `emergency_pause` accepts. */
    function GetOwner(): (o: AccountId)
      ensures o == owner
    {
      owner
    }

    /** `create_htlc`, called by `caller` with `deposit` attached at block time `nowMs`.
        The id is stored with no existence check: an equal id replaces the earlier record. */
    method CreateHtlc(
      receiver: AccountId, hashlock: seq<byte>, timelock: nat, ethAddress: string,
      caller: AccountId, deposit: nat, nowMs: nat) returns (r: Result<string, Error>)
      requires Valid()
      modifies this
      ensures Valid()
      ensures CreateFailure(deposit, timelock, nowMs, hashlock) == (if r.Err? then Some(r.error) else None)
      ensures r.Err? ==> contracts == old(contracts) && ids == old(ids) && deposits == old(deposits)
      ensures r.Ok? ==>
        && r.value == ContractId(caller, receiver, deposit, nowMs)
        && contracts == old(contracts)[r.value := HTLCContract(caller, receiver, deposit, hashlock, timelock, false, false, ethAddress)]
        && ids == (if r.value in old(contracts) then old(ids) else old(ids) + [r.value])
        && deposits == old(deposits) + [Movement(caller, deposit, r.value)]
      ensures payouts == old(payouts)
    {
      if deposit == 0 { return Err(AmountNotPositive); }
      if timelock <= nowMs { return Err(TimelockNotInFuture); }
      if |hashlock| == 0 { return Err(HashlockEmpty); }
      if |hashlock| != HashlockLength { return Err(HashlockWrongLength); }

      var contractId := ContractId(caller, receiver, deposit, nowMs);
      var contract := HTLCContract(caller, receiver, deposit, hashlock, timelock, false, false, ethAddress);
      CreateKeepsInvariant(contracts, ids, deposits, payouts, contractId, contract, Movement(caller, deposit, contractId));
      if contractId !in contracts {
        ids := ids + [contractId];
      }
      contracts := contracts[contractId := contract];
      deposits := deposits + [Movement(caller, deposit, contractId)];
      r := Ok(contractId);
    }

    /** `withdraw`: the receiver reveals the preimage on or before the timelock and is paid the amount. */
    method Withdraw(contractId: string, preimage: seq<byte>, caller: AccountId, nowMs: nat)
      returns (r: Result<(), Error>)
      requires Valid()
      modifies this
      ensures Valid()
      ensures WithdrawFailure(old(contracts), contractId, preimage, caller, nowMs, sha256)
              == (if r.Err? then Some(r.error) else None)
      ensures r.Err? ==> contracts == old(contracts) && payouts == old(payouts)
      ensures r.Ok? ==>
        var c := old(contracts)[contractId];
        && contracts == old(contracts)[contractId := c.(withdrawn := true)]
        && payouts == old(payouts) + [Movement(c.receiver, c.amount, contractId)]
      ensures ids == old(ids) && deposits == old(deposits)
    {
      if contractId !in contracts { return Err(ContractNotFound); }
      var contract := contracts[contractId];
      if contract.withdrawn { return Err(AlreadyWithdrawn); }
      if contract.refunded { return Err(AlreadyRefunded); }
      if caller != contract.receiver { return Err(NotReceiver); }
      if nowMs > contract.timelock { return Err(TimelockExpired); }
      if sha256(preimage) != contract.hashlock { return Err(InvalidPreimage); }

      contract := contract.(withdrawn := true);
      CloseKeepsInvariant(contracts, ids, deposits, payouts, contractId, contract, Movement(contract.receiver, contract.amount, contractId));
      contracts := contracts[contractId := contract];
      payouts := payouts + [Movement(contract.receiver, contract.amount, contractId)];
      r := Ok(());
    }

    /** `refund`: after the timelock the sender takes the amount back. */
    method Refund(contractId: string, caller: AccountId, nowMs: nat) returns (r: Result<(), Error>)
      requires Valid()
      modifies this
      ensures Valid()
      ensures RefundFailure(old(contracts), contractId, caller, nowMs) == (if r.Err? then Some(r.error) else None)
      ensures r.Err? ==> contracts == old(contracts) && payouts == old(payouts)
      ensures r.Ok? ==>
        var c := old(contracts)[contractId];
        && contracts == old(contracts)[contractId := c.(refunded := true)]
        && payouts == old(payouts) + [Movement(c.sender, c.amount, contractId)]
      ensures ids == old(ids) && deposits == old(deposits)
    {
      if contractId !in contracts { return Err(ContractNotFound); }
      var contract := contracts[contractId];
      if contract.withdrawn { return Err(AlreadyWithdrawn); }
      if contract.refunded { return Err(AlreadyRefunded); }
      if caller != contract.sender { return Err(NotSender); }
      if nowMs <= contract.timelock { return Err(TimelockNotExpired); }

      contract := contract.(refunded := true);
      CloseKeepsInvariant(contracts, ids, deposits, payouts, contractId, contract, Movement(contract.sender, contract.amount, contractId));
      contracts := contracts[contractId := contract];
      payouts := payouts + [Movement(contract.sender, contract.amount, contractId)];
      r := Ok(());
    }

    /** `get_contract`. */
    function GetContract(contractId: string): (r: Option<ContractView>)
      reads this
      requires Valid()
      ensures r.Some? <==> contractId in contracts
      ensures r.Some? ==> r.value == View(contracts[contractId]) && |r.value.hashlock| == 2 * HashlockLength
    {
      if contractId in contracts then Some(View(contracts[contractId])) else None
    }

    /** `check_preimage`: false for an unknown id. */
    function CheckPreimage(contractId: string, preimage: seq<byte>): (ok: bool)
      reads this
      ensures ok <==> contractId in contracts && sha256(preimage) == contracts[contractId].hashlock
    {
      if contractId in contracts then sha256(preimage) == contracts[contractId].hashlock else false
    }

    /** On an open record inside the withdraw window, `check_preimage` predicts exactly
        whether the receiver's `withdraw` with that preimage goes through. */
    lemma CheckPreimagePredictsWithdraw(contractId: string, preimage: seq<byte>, nowMs: nat)
      requires contractId in contracts && Open(contracts[contractId])
      requires nowMs <= contracts[contractId].timelock
      ensures CheckPreimage(contractId, preimage)
          <==> WithdrawFailure(contracts, contractId, preimage, contracts[contractId].receiver, nowMs, sha256) == None
    {
    }

    /** `get_contract_count`: the number of distinct ids in the table. */
    function GetContractCount(): (n: nat)
      reads this
      requires Valid()
      ensures n == |contracts|
    {
      DistinctElements(ids);
      assert contracts.Keys == set x | x in ids;
      |ids|
    }

    /** `get_all_contracts`: every record, once each, in the map's iteration order. */
    function GetAllContracts(): (r: seq<(string, ContractView)>)
      reads this
      requires Valid()
      ensures |r| == |ids|
      ensures forall k :: 0 <= k < |r| ==> r[k].0 == ids[k] && r[k].0 in contracts && r[k].1 == View(contracts[r[k].0])
      ensures forall i, j :: 0 <= i < j < |r| ==> r[i].0 != r[j].0
    {
      ViewAll(ids, contracts)
    }

    /** Every stored record appears in `get_all_contracts`. */
    lemma GetAllContractsComplete(id: string)
      requires Valid() && id in contracts
      ensures (id, View(contracts[id])) in GetAllContracts()
    {
      var r, k := GetAllContracts(), IndexOf(ids, id);
      assert r[k] == (id, View(contracts[id]));
    }

    /** `emergency_pause`: owner-only, and it changes nothing. */
    method EmergencyPause(caller: AccountId) returns (r: Result<(), Error>)
      ensures r.Ok? <==> caller == owner
      ensures r.Err? ==> r.error == NotOwner
    {
      if caller != owner { return Err(NotOwner); }
      r := Ok(());
    }
  }
}
