/** Call sequences on the `htlc-near` contract that show where its ids collide: the same
    id can be produced by different calls, and a later record then replaces an earlier one. */
module HtlcNearScenarios {
  import opened Wrappers
  import opened Encoding
  import opened NearRuntime
  import opened HtlcNear

  /** Two `create_htlc` calls in one millisecond whose ids collide: here by different
      senders, since account ids may contain '-'. The second record replaces the first,
      so the table holds one record, and the first hashlock's preimage no longer opens it. */
  method SameMillisecondCollision(sha256: Sha256, first: seq<byte>, second: seq<byte>, preimage: seq<byte>)
    returns (count: nat, firstPreimageAccepted: bool)
    requires |first| == HashlockLength && |second| == HashlockLength && first != second
    requires sha256(preimage) == first
    ensures count == 1 && !firstPreimageAccepted
  {
    var htlc := new HTLCNear("owner.near", sha256);
    HtlcNear.ContractIdAmbiguous(5, 10);
    var a := htlc.CreateHtlc("ef", first, 100, "0x01", "ab-cd", 5, 10);
    var b := htlc.CreateHtlc("cd-ef", second, 100, "0x02", "ab", 5, 10);
    count := htlc.GetContractCount();
    firstPreimageAccepted := htlc.CheckPreimage(a.value, preimage);
  }

  /** A fresh contract after alice.near created a record for bob.near at millisecond 10 and
      bob.near withdrew it with the preimage. */
  method WithdrawnRecord(sha256: Sha256, hashlock: seq<byte>, preimage: seq<byte>)
    returns (htlc: HTLCNear, id: string)
    requires |hashlock| == HashlockLength && sha256(preimage) == hashlock
    ensures fresh(htlc) && htlc.Valid() && htlc.sha256 == sha256
    ensures id == ContractId("alice.near", "bob.near", 5, 10)
    ensures id in htlc.contracts && htlc.contracts[id].withdrawn
    ensures |htlc.payouts| == 1
  {
    htlc := new HTLCNear("owner.near", sha256);
    var a := htlc.CreateHtlc("bob.near", hashlock, 100, "0x01", "alice.near", 5, 10);
    var w := htlc.Withdraw(a.value, preimage, "bob.near", 10);
    id := a.value;
  }

  /** The same create repeated in the same millisecond after that withdraw gives the same
      id and reopens it, so the receiver can withdraw it a second time (against the second
      deposit) and the id has been paid out twice. */
  method ClosedIdReopened(sha256: Sha256, hashlock: seq<byte>, preimage: seq<byte>)
    returns (sameId: bool, secondWithdraw: Result<(), Error>, ghost paidOut: nat)
    requires |hashlock| == HashlockLength && sha256(preimage) == hashlock
    ensures sameId && secondWithdraw.Ok? && paidOut == 2
  {
    var htlc, id := WithdrawnRecord(sha256, hashlock, preimage);
    var b := htlc.CreateHtlc("bob.near", hashlock, 100, "0x01", "alice.near", 5, 10);
    var w := htlc.Withdraw(b.value, preimage, "bob.near", 10);
    sameId, secondWithdraw, paidOut := id == b.value, w, |htlc.payouts|;
  }

  /** Two `create_htlc` calls by one sender in one millisecond, with deposits of 1 and 2
      yoctoNEAR: both amounts print as "<0.001 NEAR", so the ids collide and the second
      record, holding 2 yoctoNEAR, replaces the first. */
  method SubMilliNearDepositsCollide(sha256: Sha256, first: seq<byte>, second: seq<byte>, preimage: seq<byte>)
    returns (count: nat, firstPreimageAccepted: bool, storedAmount: nat)
    requires |first| == HashlockLength && |second| == HashlockLength && first != second
    requires sha256(preimage) == first
    ensures count == 1 && !firstPreimageAccepted && storedAmount == 2
  {
    var htlc := new HTLCNear("owner.near", sha256);
    HtlcNear.ContractIdSameForDeposits("alice.near", "bob.near", 1, 2, 10);
    var a := htlc.CreateHtlc("bob.near", first, 100, "0x01", "alice.near", 1, 10);
    var b := htlc.CreateHtlc("bob.near", second, 100, "0x02", "alice.near", 2, 10);
    count := htlc.GetContractCount();
    firstPreimageAccepted := htlc.CheckPreimage(a.value, preimage);
    storedAmount := htlc.contracts[b.value].amount;
  }
}
