/** Gas for signature verification: nested multisignatures charged to a gas meter. */
module MultisigGas {
  import opened Words

  datatype PubKey = EthSecp256k1 | Ed25519 | Multisig(keys: seq<PubKey>) | OtherKey

  /** Signature data: one signature, or a bit array with the signatures of the set bits. */
  datatype SigData = Single | Multi(bits: seq<bool>, signatures: seq<SigData>)

  datatype Outcome = Ok | Err | Panic

  const SECP256K1_COST: nat := 21000

  /* ----- the meter ----- */

  /** Addition as the meter does it: nothing is left of an overflowing sum. */
  function AddUint64Overflow(a: uint64, b: uint64): (r: (uint64, bool))
    ensures r.1 <==> a + b >= TWO64
    ensures !r.1 ==> r.0 == a + b
  {
    if TWO64 - 1 - a < b then (0, true) else (a + b, false)
  }

  class GasMeter {
    var consumed: uint64
    const limit: uint64

    constructor (limit: uint64)
      ensures consumed == 0 && this.limit == limit
    {
      consumed := 0;
      this.limit := limit;
    }

    /** The limit does not stop this meter; an overflow panics and leaves zero behind. */
    method ConsumeGas(amount: uint64) returns (panicked: bool)
      modifies this
      ensures panicked <==> old(consumed) + amount >= TWO64
      ensures consumed == if panicked then 0 else old(consumed) + amount
    {
      var sum := AddUint64Overflow(consumed, amount);
      consumed := sum.0;
      panicked := sum.1;
    }

    method RefundGas(amount: uint64) returns (panicked: bool)
      modifies this
      ensures panicked <==> old(consumed) < amount
      ensures consumed == if panicked then old(consumed) else old(consumed) - amount
    {
      if consumed < amount {
        return true;
      }
      consumed := consumed - amount;
      return false;
    }
  }

  /** A refund takes back exactly what was consumed. */
  method ConsumeThenRefund(meter: GasMeter, amount: uint64) returns (panicked: bool)
    modifies meter
    ensures !panicked ==> meter.consumed == old(meter.consumed)
    ensures panicked <==> old(meter.consumed) + amount >= TWO64
  {
    panicked := meter.ConsumeGas(amount);
    if !panicked {
      var refused := meter.RefundGas(amount);
    }
  }

  /* ----- charging a signature ----- */

  /** How charging ended and what the meter shows then. */
  datatype Charged = Charged(outcome: Outcome, consumed: uint64)

  function Consume(consumed: uint64, amount: uint64, outcome: Outcome): Charged {
    var sum := AddUint64Overflow(consumed, amount);
    Charged(if sum.1 then Panic else outcome, sum.0)
  }

  /** The charge for one signature; `ed25519Cost` is a parameter of the chain. */
  function Charge(consumed: uint64, key: PubKey, data: SigData, ed25519Cost: uint64): Charged
    decreases key, 1, 0
  {
    match key
    case EthSecp256k1 => Consume(consumed, SECP256K1_COST, Ok)
    case Ed25519 => Consume(consumed, ed25519Cost, Err)
    case Multisig(_) =>
      if data.Single? then Charged(Err, consumed) else ChargeMulti(consumed, key, data, ed25519Cost, 0, 0)
    case OtherKey => Charged(Err, consumed)
  }

  /** Bits from `i` on, when `k` signatures are used up; an index past the end panics. */
  function ChargeMulti(
    consumed: uint64, key: PubKey, data: SigData, ed25519Cost: uint64, i: nat, k: nat): Charged
    requires key.Multisig? && data.Multi? && i <= |data.bits|
    decreases key, 0, |data.bits| - i
  {
    if i == |data.bits| then Charged(Ok, consumed)
    else if !data.bits[i] then ChargeMulti(consumed, key, data, ed25519Cost, i + 1, k)
    else if i >= |key.keys| || k >= |data.signatures| then Charged(Panic, consumed)
    else
      var c := Charge(consumed, key.keys[i], data.signatures[k], ed25519Cost);
      if c.outcome != Ok then c
      else ChargeMulti(c.consumed, key, data, ed25519Cost, i + 1, k + 1)
  }

  method SigVerificationGasConsumer(meter: GasMeter, key: PubKey, data: SigData, ed25519Cost: uint64)
    returns (r: Outcome)
    modifies meter
    ensures Charged(r, meter.consumed) == Charge(old(meter.consumed), key, data, ed25519Cost)
    decreases key, 1, 0
  {
    hide ChargeMulti;
    match key {
      case EthSecp256k1 =>
        var panicked := meter.ConsumeGas(SECP256K1_COST);
        return if panicked then Panic else Ok;
      case Ed25519 =>
        var panicked := meter.ConsumeGas(ed25519Cost);
        return if panicked then Panic else Err;
      case Multisig(_) =>
        if data.Single? {
          return Err;
        }
        r := ConsumeMultisignatureVerificationGas(meter, key, data, ed25519Cost);
      case OtherKey =>
        return Err;
    }
  }

  method ConsumeMultisignatureVerificationGas(meter: GasMeter, key: PubKey, data: SigData, ed25519Cost: uint64)
    returns (r: Outcome)
    requires key.Multisig? && data.Multi?
    modifies meter
    ensures Charged(r, meter.consumed) == ChargeMulti(old(meter.consumed), key, data, ed25519Cost, 0, 0)
    decreases key, 0
  {
    hide Charge;
    var sigIndex := 0;
    var i := 0;
    while i < |data.bits|
      invariant 0 <= i <= |data.bits|
      invariant ChargeMulti(old(meter.consumed), key, data, ed25519Cost, 0, 0)
                == ChargeMulti(meter.consumed, key, data, ed25519Cost, i, sigIndex)
    {
      if data.bits[i] {
        if i >= |key.keys| || sigIndex >= |data.signatures| {
          return Panic;
        }
        var e := SigVerificationGasConsumer(meter, key.keys[i], data.signatures[sigIndex], ed25519Cost);
        if e != Ok {
          return e;
        }
        sigIndex := sigIndex + 1;
      }
      i := i + 1;
    }
    return Ok;
  }

  /* ----- the leaves of a signature tree ----- */

  /** What is found at the end of a path of selected keys; a selected position without a key
      or without a signature is a shortage. */
  datatype Leaf = EthLeaf | EdLeaf | UnsupportedLeaf | MissingDataLeaf | ShortageLeaf

  function SetBefore(bits: seq<bool>, i: nat): nat
    requires i <= |bits|
  {
    if i == 0 then 0 else SetBefore(bits, i - 1) + (if bits[i - 1] then 1 else 0)
  }

  /** The selected leaves, in the order in which they are met. */
  function Leaves(key: PubKey, data: SigData): seq<Leaf>
    decreases key, 2, 0
  {
    match key
    case EthSecp256k1 => [EthLeaf]
    case Ed25519 => [EdLeaf]
    case OtherKey => [UnsupportedLeaf]
    case Multisig(_) => if data.Single? then [MissingDataLeaf] else LeavesFrom(key, data, 0)
  }

  /** The leaves below position `i`: its key goes with the signature of as many set bits. */
  function LeavesAt(key: PubKey, data: SigData, i: nat): seq<Leaf>
    requires key.Multisig? && data.Multi? && i < |data.bits|
    decreases key, 0, 0
  {
    if !data.bits[i] then []
    else if i >= |key.keys| || SetBefore(data.bits, i) >= |data.signatures| then [ShortageLeaf]
    else Leaves(key.keys[i], data.signatures[SetBefore(data.bits, i)])
  }

  function LeavesFrom(key: PubKey, data: SigData, i: nat): seq<Leaf>
    requires key.Multisig? && data.Multi? && i <= |data.bits|
    decreases key, 1, |data.bits| - i
  {
    if i == |data.bits| then [] else LeavesAt(key, data, i) + LeavesFrom(key, data, i + 1)
  }

  /** Leaves charged one after the other, up to the first that is refused. */
  function ChargeLeaves(consumed: uint64, leaves: seq<Leaf>, ed25519Cost: uint64): Charged
    decreases |leaves|
  {
    if leaves == [] then Charged(Ok, consumed)
    else
      match leaves[0]
      case EthLeaf =>
        var c := Consume(consumed, SECP256K1_COST, Ok);
        if c.outcome != Ok then c else ChargeLeaves(c.consumed, leaves[1..], ed25519Cost)
      case EdLeaf => Consume(consumed, ed25519Cost, Err)
      case ShortageLeaf => Charged(Panic, consumed)
      case _ => Charged(Err, consumed)
  }

  lemma {:induction false} ChargeConcat(consumed: uint64, a: seq<Leaf>, b: seq<Leaf>, ed25519Cost: uint64)
    ensures var c := ChargeLeaves(consumed, a, ed25519Cost);
            ChargeLeaves(consumed, a + b, ed25519Cost) ==
            if c.outcome != Ok then c else ChargeLeaves(c.consumed, b, ed25519Cost)
    decreases |a|
  {
    if a == [] {
      assert a + b == b;
    } else {
      assert (a + b)[1..] == a[1..] + b;
      ChargeConcat(Consume(consumed, SECP256K1_COST, Ok).consumed, a[1..], b, ed25519Cost);
    }
  }

  /** Charging a nested multisignature is charging its selected leaves one after the other:
      same outcome, same meter, errors, shortages and overflows included. */
  lemma {:induction false} ChargeIsLinear(consumed: uint64, key: PubKey, data: SigData, ed25519Cost: uint64)
    ensures Charge(consumed, key, data, ed25519Cost) == ChargeLeaves(consumed, Leaves(key, data), ed25519Cost)
    decreases key, 1, 0
  {
    hide ChargeMulti, LeavesFrom;
    if key.Multisig? && data.Multi? {
      ChargeMultiIsLinear(consumed, key, data, ed25519Cost, 0);
    }
  }

  lemma {:induction false} ChargeMultiIsLinear(
    consumed: uint64, key: PubKey, data: SigData, ed25519Cost: uint64, i: nat)
    requires key.Multisig? && data.Multi? && i <= |data.bits|
    ensures ChargeMulti(consumed, key, data, ed25519Cost, i, SetBefore(data.bits, i))
            == ChargeLeaves(consumed, LeavesFrom(key, data, i), ed25519Cost)
    decreases key, 0, |data.bits| - i
  {
    hide Charge, ChargeLeaves, Leaves, SetBefore;
    if i == |data.bits| {
      FewLeaves(consumed, ed25519Cost);
    } else {
      NextSignature(data.bits, i);
      FewLeaves(consumed, ed25519Cost);
      ChargeConcat(consumed, LeavesAt(key, data, i), LeavesFrom(key, data, i + 1), ed25519Cost);
      var k := SetBefore(data.bits, i);
      if !data.bits[i] {
        ChargeMultiIsLinear(consumed, key, data, ed25519Cost, i + 1);
      } else if i < |key.keys| && k < |data.signatures| {
        ChargeIsLinear(consumed, key.keys[i], data.signatures[k], ed25519Cost);
        var c := Charge(consumed, key.keys[i], data.signatures[k], ed25519Cost);
        ChargeMultiIsLinear(c.consumed, key, data, ed25519Cost, i + 1);
      }
    }
  }

  lemma NextSignature(bits: seq<bool>, i: nat)
    requires i < |bits|
    ensures SetBefore(bits, i + 1) == SetBefore(bits, i) + (if bits[i] then 1 else 0)
  {
  }

  lemma FewLeaves(consumed: uint64, ed25519Cost: uint64)
    ensures ChargeLeaves(consumed, [], ed25519Cost) == Charged(Ok, consumed)
    ensures ChargeLeaves(consumed, [ShortageLeaf], ed25519Cost) == Charged(Panic, consumed)
  {
  }

  predicate AllEth(leaves: seq<Leaf>) {
    forall i :: 0 <= i < |leaves| ==> leaves[i] == EthLeaf
  }

  lemma {:induction false} LinearCharge(consumed: uint64, leaves: seq<Leaf>, ed25519Cost: uint64)
    ensures var c := ChargeLeaves(consumed, leaves, ed25519Cost);
            && (c.outcome == Ok <==> AllEth(leaves) && consumed + SECP256K1_COST * |leaves| < TWO64)
            && (c.outcome == Ok ==> c.consumed == consumed + SECP256K1_COST * |leaves|)
    decreases |leaves|
  {
    if leaves != [] {
      assert AllEth(leaves) <==> leaves[0] == EthLeaf && AllEth(leaves[1..]) by {
        assert leaves == [leaves[0]] + leaves[1..];
      }
      if leaves[0] == EthLeaf {
        LinearCharge(Consume(consumed, SECP256K1_COST, Ok).consumed, leaves[1..], ed25519Cost);
      }
    }
  }

  /** Success, exactly: every selected position has its key and its signature, every selected
      leaf is an eth_secp256k1 key, every selected multisig key has multisig data, and 21000
      for each leaf fits the meter, which then rises by just that. */
  lemma ChargeExactly(consumed: uint64, key: PubKey, data: SigData, ed25519Cost: uint64)
    ensures var c, n := Charge(consumed, key, data, ed25519Cost), |Leaves(key, data)|;
            && (c.outcome == Ok <==> AllEth(Leaves(key, data)) && consumed + 21000 * n < TWO64)
            && (c.outcome == Ok ==> c.consumed == consumed + 21000 * n)
  {
    hide Charge, ChargeLeaves, Leaves;
    ChargeIsLinear(consumed, key, data, ed25519Cost);
    LinearCharge(consumed, Leaves(key, data), ed25519Cost);
  }
}
