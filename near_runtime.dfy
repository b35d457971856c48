/** What both contracts take from the NEAR runtime and SDK: account ids, the
    SHA-256 digest (left uninterpreted apart from its 32-byte length), the key
    order of an `UnorderedMap`, and ghost logs of the value that moves into and
    out of an escrow record. */
module NearRuntime {
  import opened Encoding

  type AccountId = string

  const DigestLength := 32

  function ZeroDigest(m: seq<byte>): seq<byte> {
    seq(DigestLength, _ => 0)
  }

  /** Any total function from messages to 32-byte digests stands for `sha2::Sha256::digest`. */
  type Sha256 = f: seq<byte> -> seq<byte> | forall m :: |f(m)| == DigestLength
    witness ZeroDigest

  /** One movement of funds tied to an escrow id: an attached deposit (`account` pays)
      or a `Promise::transfer` (`account` receives). */
  datatype Movement = Movement(account: AccountId, amount: nat, id: string)

  /** How many movements in `log` belong to escrow `id`. */
  function CountFor(log: seq<Movement>, id: string): nat
  {
    if log == [] then 0
    else CountFor(log[..|log| - 1], id) + (if log[|log| - 1].id == id then 1 else 0)
  }

  lemma CountForAppend(log: seq<Movement>, m: Movement, id: string)
    ensures CountFor(log + [m], id) == CountFor(log, id) + (if m.id == id then 1 else 0)
  {
    assert (log + [m])[..|log|] == log;
  }

  lemma {:induction false} CountForAbsent(log: seq<Movement>, id: string)
    requires forall k :: 0 <= k < |log| ==> log[k].id != id
    ensures CountFor(log, id) == 0
  {
    if log != [] {
      CountForAbsent(log[..|log| - 1], id);
    }
  }

  predicate NoDuplicates<T(==)>(s: seq<T>) {
    forall i, j :: 0 <= i < j < |s| ==> s[i] != s[j]
  }

  /** `ids` lists the keys of `m`, each once: the key order of a NEAR `UnorderedMap`. */
  ghost predicate KeyOrder<V>(m: map<string, V>, ids: seq<string>) {
    && NoDuplicates(ids)
    && (forall k :: 0 <= k < |ids| ==> ids[k] in m)
    && (forall id :: id in m ==> id in ids)
  }

  /** `insert`: a new key goes to the end of the order, a present key keeps its place. */
  lemma KeyOrderInsert<V>(m: map<string, V>, ids: seq<string>, id: string, v: V)
    requires KeyOrder(m, ids)
    ensures KeyOrder(m[id := v], if id in m then ids else ids + [id])
  {
    var m2, ids2 := m[id := v], if id in m then ids else ids + [id];
    forall k | 0 <= k < |ids2| ensures ids2[k] in m2 {
      if k < |ids| { assert ids2[k] == ids[k]; }
    }
    forall x | x in m2 ensures x in ids2 {
      if x != id { assert x in m; }
    }
    if id !in m {
      forall i, j | 0 <= i < j < |ids2| ensures ids2[i] != ids2[j] {
        assert ids2[i] == ids[i] && ids[i] in m;
      }
    }
  }

  /** A duplicate-free sequence has as many distinct elements as it has positions. */
  lemma {:induction false} DistinctElements<T>(s: seq<T>)
    requires NoDuplicates(s)
    ensures |set x | x in s| == |s|
  {
    if s != [] {
      var init := s[..|s| - 1];
      DistinctElements(init);
      assert (set x | x in s) == (set x | x in init) + {s[|s| - 1]};
      assert s[|s| - 1] !in init;
    }
  }

  /** The position of `x` in `s`. */
  function IndexOf<T(==)>(s: seq<T>, x: T): (i: nat)
    requires x in s
    ensures i < |s| && s[i] == x
    ensures forall j :: 0 <= j < i ==> s[j] != x
  {
    if s[0] == x then 0 else 1 + IndexOf(s[1..], x)
  }
}
