/** Key trees: leaves, lists with or without threshold, and their protobuf form. */
module Keys {
  import opened Wrappers
  import opened Text

  datatype ContractId = ContractId(shard: nat, realm: nat, num: nat, evmAddress: Option<seq<byte>>)

  /** A key; Null is JavaScript's null, which the decoder returns for a message it does not recognise. */
  datatype Key =
    | Ed25519(raw: seq<byte>)
    | Ecdsa(raw: seq<byte>)
    | Contract(id: ContractId)
    | DelegateContract(id: ContractId)
    | KeyList(keys: seq<Key>, threshold: Option<int>)
    | Null

  // ---- the protobuf message, every field optional ----

  datatype ProtoContractId = ProtoContractId(shardNum: Option<nat>, realmNum: Option<nat>, contractNum: Option<nat>,
                                             evmAddress: Option<seq<byte>>)
  datatype ProtoKeyList = NoKeys | Keys(keys: seq<ProtoKey>)
  datatype ProtoThresholdKey = ProtoThresholdKey(threshold: Option<int>, keys: Option<ProtoKeyList>)
  datatype ProtoKey = ProtoKey(contractID: Option<ProtoContractId>, delegatableContractId: Option<ProtoContractId>,
                               ed25519: Option<seq<byte>>, ecdsa: Option<seq<byte>>,
                               thresholdKey: Option<ProtoThresholdKey>, keyList: Option<ProtoKeyList>)

  const EMPTY: ProtoKey := ProtoKey(None, None, None, None, None, None)

  function ContractToProto(id: ContractId): ProtoContractId {
    ProtoContractId(Some(id.shard), Some(id.realm), Some(id.num), id.evmAddress)
  }

  /** The EVM address of the message is not read. */
  function ContractFromProto(p: ProtoContractId): ContractId {
    ContractId(if p.shardNum.Some? then p.shardNum.value else 0, if p.realmNum.Some? then p.realmNum.value else 0,
               if p.contractNum.Some? then p.contractNum.value else 0, None)
  }

  /** Null has no `_toProtobufKey`. */
  predicate NullFree(k: Key)
    decreases k, 1
  {
    !k.Null? && (k.KeyList? ==> AllNullFree(k.keys))
  }

  predicate AllNullFree(keys: seq<Key>)
    decreases keys, 0
  {
    keys == [] || (NullFree(keys[0]) && AllNullFree(keys[1..]))
  }

  function ToProtobufKey(k: Key): ProtoKey
    requires NullFree(k)
    decreases k, 1
  {
    match k
    case Ed25519(raw) => EMPTY.(ed25519 := Some(raw))
    case Ecdsa(raw) => EMPTY.(ecdsa := Some(raw))
    case Contract(id) => EMPTY.(contractID := Some(ContractToProto(id)))
    case DelegateContract(id) => EMPTY.(delegatableContractId := Some(ContractToProto(id)))
    case KeyList(keys, threshold) =>
      var list := Some(Keys(MapToProtobuf(keys)));
      if threshold.None? then EMPTY.(keyList := list)
      else EMPTY.(thresholdKey := Some(ProtoThresholdKey(threshold, list)))
  }

  function MapToProtobuf(keys: seq<Key>): (r: seq<ProtoKey>)
    requires AllNullFree(keys)
    ensures |r| == |keys|
    decreases keys, 0
  {
    if keys == [] then [] else [ToProtobufKey(keys[0])] + MapToProtobuf(keys[1..])
  }

  predicate Present(bytes: Option<seq<byte>>) { bytes.Some? && |bytes.value| > 0 }

  function FromProtobufKey(p: ProtoKey): Key
    decreases p, 1
  {
    if p.contractID.Some? then Contract(ContractFromProto(p.contractID.value))
    else if p.delegatableContractId.Some? then DelegateContract(ContractFromProto(p.delegatableContractId.value))
    else if Present(p.ed25519) then Ed25519(p.ed25519.value)
    else if Present(p.ecdsa) then Ecdsa(p.ecdsa.value)
    else if p.thresholdKey.Some? && p.thresholdKey.value.threshold.Some? then
      KeyList(ListKeys(p.thresholdKey.value.keys), p.thresholdKey.value.threshold)
    else if p.keyList.Some? then KeyList(ListKeys(p.keyList), None)
    else Null
  }

  /** `__fromProtobufKeyList`: a missing list is an empty one. */
  function ListKeys(list: Option<ProtoKeyList>): seq<Key>
    decreases list, 1
  {
    if list.Some? && list.value.Keys? then MapFromProtobuf(list.value.keys) else []
  }

  function MapFromProtobuf(ps: seq<ProtoKey>): (r: seq<Key>)
    ensures |r| == |ps|
    decreases ps, 0
  {
    if ps == [] then [] else [FromProtobufKey(ps[0])] + MapFromProtobuf(ps[1..])
  }

  // ---- round trip ----

  /** No leaf has empty key bytes and no contract leaf carries an EVM address. */
  predicate LeavesKept(k: Key)
    decreases k, 1
  {
    match k
    case Ed25519(raw) => raw != []
    case Ecdsa(raw) => raw != []
    case Contract(id) => id.evmAddress.None?
    case DelegateContract(id) => id.evmAddress.None?
    case KeyList(keys, _) => AllLeavesKept(keys)
    case Null => false
  }

  predicate AllLeavesKept(keys: seq<Key>)
    decreases keys, 0
  {
    keys == [] || (LeavesKept(keys[0]) && AllLeavesKept(keys[1..]))
  }

  /**
    A key tree of any depth comes back unchanged, order, nesting and thresholds included, exactly
    when none of its leaves is an empty key or a contract with an EVM address.
   */
  lemma {:induction false} RoundTripIff(k: Key)
    requires NullFree(k)
    ensures FromProtobufKey(ToProtobufKey(k)) == k <==> LeavesKept(k)
    decreases k, 1
  {
    if k.KeyList? {
      RoundTripAll(k.keys);
    }
  }

  lemma {:induction false} RoundTripAll(keys: seq<Key>)
    requires AllNullFree(keys)
    ensures MapFromProtobuf(MapToProtobuf(keys)) == keys <==> AllLeavesKept(keys)
    decreases keys, 0
  {
    if keys != [] {
      RoundTripIff(keys[0]);
      RoundTripAll(keys[1..]);
      assert MapToProtobuf(keys)[1..] == MapToProtobuf(keys[1..]);
      assert keys == [keys[0]] + keys[1..];
      var back := MapFromProtobuf(MapToProtobuf(keys));
      assert back == [FromProtobufKey(ToProtobufKey(keys[0]))] + MapFromProtobuf(MapToProtobuf(keys[1..]));
      assert back[1..] == MapFromProtobuf(MapToProtobuf(keys[1..]));
    }
  }

  /** Which field of the message carries the key and what is in it, and that the list keeps its order. */
  lemma WireForm(k: Key)
    requires NullFree(k)
    ensures var p := ToProtobufKey(k);
      && (p.contractID.Some? <==> k.Contract?) && (p.delegatableContractId.Some? <==> k.DelegateContract?)
      && (p.ed25519.Some? <==> k.Ed25519?) && (p.ecdsa.Some? <==> k.Ecdsa?)
      && (p.thresholdKey.Some? <==> k.KeyList? && k.threshold.Some?)
      && (p.keyList.Some? <==> k.KeyList? && k.threshold.None?)
    ensures match k
      case Ed25519(raw) => ToProtobufKey(k).ed25519 == Some(raw)
      case Ecdsa(raw) => ToProtobufKey(k).ecdsa == Some(raw)
      case Contract(id) => ToProtobufKey(k).contractID
        == Some(ProtoContractId(Some(id.shard), Some(id.realm), Some(id.num), id.evmAddress))
      case DelegateContract(id) => ToProtobufKey(k).delegatableContractId
        == Some(ProtoContractId(Some(id.shard), Some(id.realm), Some(id.num), id.evmAddress))
      case KeyList(keys, None) => ToProtobufKey(k).keyList == Some(Keys(MapToProtobuf(keys)))
      case KeyList(keys, Some(t)) =>
        ToProtobufKey(k).thresholdKey == Some(ProtoThresholdKey(Some(t), Some(Keys(MapToProtobuf(keys)))))
    ensures k.KeyList? ==> AllNullFree(k.keys) && forall i :: 0 <= i < |k.keys| ==>
      NullFree(k.keys[i]) && MapToProtobuf(k.keys)[i] == ToProtobufKey(k.keys[i])
  {
    if k.KeyList? { MapInOrder(k.keys); }
  }

  /**
    Which key a message is read as, whatever fields it has: contracts first, then key bytes that are
    not empty, then a threshold key that has a threshold, then a list.
   */
  lemma DecodedKind(p: ProtoKey)
    ensures var k := FromProtobufKey(p);
      && (k.Contract? <==> p.contractID.Some?)
      && (k.Contract? ==> k.id == ContractFromProto(p.contractID.value))
      && (k.DelegateContract? <==> p.contractID.None? && p.delegatableContractId.Some?)
      && (k.DelegateContract? ==> k.id == ContractFromProto(p.delegatableContractId.value))
      && var contract := p.contractID.Some? || p.delegatableContractId.Some?;
         var bytes := p.ed25519.Some? && p.ed25519.value != [];
         && (k.Ed25519? <==> !contract && bytes) && (k.Ed25519? ==> p.ed25519 == Some(k.raw))
         && var others := p.ecdsa.Some? && p.ecdsa.value != [];
            && (k.Ecdsa? <==> !contract && !bytes && others) && (k.Ecdsa? ==> p.ecdsa == Some(k.raw))
            && var t := p.thresholdKey.Some? && p.thresholdKey.value.threshold.Some?;
               && (k.KeyList? <==> !contract && !bytes && !others && (t || p.keyList.Some?))
               && (k.KeyList? ==> k.threshold == if t then p.thresholdKey.value.threshold else None)
               && (k.KeyList? ==> k.keys == MapFromProtobuf(Listed(if t then p.thresholdKey.value.keys else p.keyList)))
               && (k.Null? <==> !contract && !bytes && !others && !t && p.keyList.None?)
  {
  }

  /** The parts of a contract ID, zero where they are missing, and the keys of a list in order. */
  lemma DecodedParts(p: ProtoContractId, ps: seq<ProtoKey>)
    ensures ContractFromProto(p).evmAddress == None
    ensures p.shardNum == Some(ContractFromProto(p).shard) || (p.shardNum.None? && ContractFromProto(p).shard == 0)
    ensures p.realmNum == Some(ContractFromProto(p).realm) || (p.realmNum.None? && ContractFromProto(p).realm == 0)
    ensures p.contractNum == Some(ContractFromProto(p).num) || (p.contractNum.None? && ContractFromProto(p).num == 0)
    ensures forall i :: 0 <= i < |ps| ==> MapFromProtobuf(ps)[i] == FromProtobufKey(ps[i])
  {
    ReadInOrder(ps);
  }

  lemma {:induction false} ReadInOrder(ps: seq<ProtoKey>)
    ensures forall i :: 0 <= i < |ps| ==> MapFromProtobuf(ps)[i] == FromProtobufKey(ps[i])
  {
    if ps != [] {
      ReadInOrder(ps[1..]);
      forall i | 0 <= i < |ps| ensures MapFromProtobuf(ps)[i] == FromProtobufKey(ps[i]) {
        if i > 0 { assert ps[i] == ps[1..][i - 1]; }
      }
    }
  }

  /** The keys of a list, which may be missing. */
  function Listed(list: Option<ProtoKeyList>): seq<ProtoKey> {
    if list.Some? && list.value.Keys? then list.value.keys else []
  }

  lemma {:induction false} MapInOrder(keys: seq<Key>)
    requires AllNullFree(keys)
    ensures forall i :: 0 <= i < |keys| ==> NullFree(keys[i]) && MapToProtobuf(keys)[i] == ToProtobufKey(keys[i])
  {
    if keys != [] {
      MapInOrder(keys[1..]);
      forall i | 0 <= i < |keys| ensures NullFree(keys[i]) && MapToProtobuf(keys)[i] == ToProtobufKey(keys[i]) {
        if i > 0 { assert keys[i] == keys[1..][i - 1]; }
      }
    }
  }

  /** Depth of nesting. */
  function Depth(k: Key): nat
    decreases k, 1
  {
    if k.KeyList? then 1 + MaxDepth(k.keys) else 0
  }

  function MaxDepth(keys: seq<Key>): nat
    decreases keys, 0
  {
    if keys == [] then 0
    else if Depth(keys[0]) > MaxDepth(keys[1..]) then Depth(keys[0]) else MaxDepth(keys[1..])
  }

  /** Whatever becomes of the leaves, the shape of the tree is kept. */
  lemma {:induction false} ShapeKept(k: Key)
    requires NullFree(k)
    ensures Depth(FromProtobufKey(ToProtobufKey(k))) == Depth(k)
    ensures k.KeyList? ==> var back := FromProtobufKey(ToProtobufKey(k));
      back.KeyList? && |back.keys| == |k.keys| && back.threshold == k.threshold
    decreases k, 1
  {
    if k.KeyList? {
      ShapeKeptAll(k.keys);
    }
  }

  lemma {:induction false} ShapeKeptAll(keys: seq<Key>)
    requires AllNullFree(keys)
    ensures MaxDepth(MapFromProtobuf(MapToProtobuf(keys))) == MaxDepth(keys)
    decreases keys, 0
  {
    if keys != [] {
      ShapeKept(keys[0]);
      ShapeKeptAll(keys[1..]);
      assert MapToProtobuf(keys)[1..] == MapToProtobuf(keys[1..]);
      var back := MapFromProtobuf(MapToProtobuf(keys));
      assert back[1..] == MapFromProtobuf(MapToProtobuf(keys[1..]));
    }
  }

  // ---- the mutable list ----

  function Clamp(x: int, low: int, high: int): int
    requires low <= high
  {
    if x < low then low else if x > high then high else x
  }

  /** Where `Array.prototype.splice` starts: negative positions count from the end. */
  function SpliceStart(length: nat, start: int): (s: nat)
    ensures s <= length
  {
    if start < 0 then Clamp(length + start, 0, length) else Clamp(start, 0, length)
  }

  /** The list that is left and the keys that were taken out. */
  function Spliced(keys: seq<Key>, start: int, deleteCount: int, items: seq<Key>): (seq<Key>, seq<Key>) {
    var s := SpliceStart(|keys|, start);
    var d := Clamp(deleteCount, 0, |keys| - s);
    (keys[..s] + items + keys[s + d..], keys[s..s + d])
  }

  /**
    Where the splice is made: at start, counted from the end if it is negative, and at the nearest end if
    it is beyond one; as many keys go as are asked for and there are.
   */
  lemma SplicePlace(keys: seq<Key>, start: int, deleteCount: int, items: seq<Key>, s: nat, d: nat)
    requires 0 <= start <= |keys| ==> s == start
    requires -|keys| <= start < 0 ==> s == |keys| + start
    requires start < -|keys| ==> s == 0
    requires start > |keys| ==> s == |keys|
    requires deleteCount < 0 ==> d == 0
    requires 0 <= deleteCount <= |keys| - s ==> d == deleteCount
    requires deleteCount >= 0 && deleteCount > |keys| - s ==> d == |keys| - s
    ensures s + d <= |keys|
    ensures Spliced(keys, start, deleteCount, items) == (keys[..s] + items + keys[s + d..], keys[s..s + d])
  {
  }

  /** Nothing is lost or invented, and putting the removed keys back in place undoes the splice. */
  lemma SpliceConserves(keys: seq<Key>, start: int, deleteCount: int, items: seq<Key>)
    ensures var (kept, removed) := Spliced(keys, start, deleteCount, items);
      && multiset(kept) + multiset(removed) == multiset(keys) + multiset(items)
      && Spliced(kept, SpliceStart(|keys|, start), |items|, removed) == (keys, items)
  {
    var s := SpliceStart(|keys|, start);
    var d := Clamp(deleteCount, 0, |keys| - s);
    var (kept, removed) := Spliced(keys, start, deleteCount, items);
    assert keys == keys[..s] + keys[s..s + d] + keys[s + d..];
    assert kept[..s] == keys[..s];
    assert kept[s..s + |items|] == items;
    assert kept[s + |items|..] == keys[s + d..];
  }

  class KeyListObject {
    var keys: seq<Key>
    var threshold: Option<int>

    constructor (keys: seq<Key>, threshold: Option<int>)
      ensures this.keys == keys && this.threshold == threshold
    {
      this.keys, this.threshold := keys, threshold;
    }

    function Value(): Key
      reads this
    {
      KeyList(keys, threshold)
    }

    method SetThreshold(threshold: int)
      modifies this
      ensures Value() == KeyList(old(keys), Some(threshold))
    {
      this.threshold := Some(threshold);
    }

    method Push(added: seq<Key>) returns (length: nat)
      modifies this
      ensures Value() == KeyList(old(keys) + added, old(threshold)) && length == |keys|
    {
      keys := keys + added;
      length := |keys|;
    }

    method Splice(start: int, deleteCount: int, items: seq<Key>) returns (removed: KeyListObject)
      modifies this
      ensures fresh(removed)
      ensures (keys, removed.keys) == Spliced(old(keys), start, deleteCount, items)
      ensures threshold == old(threshold) == removed.threshold
    {
      var from := if start < 0 then |keys| + start else start;
      if from < 0 {
        from := 0;
      } else if from > |keys| {
        from := |keys|;
      }
      var count := deleteCount;
      if count < 0 {
        count := 0;
      } else if count > |keys| - from {
        count := |keys| - from;
      }
      var taken := keys[from..from + count];
      keys := keys[..from] + items + keys[from + count..];
      removed := new KeyListObject(taken, threshold);
    }
  }

  /** `__fromProtobufThresoldKey`: a fresh list whose threshold is set afterwards. */
  method FromProtobufThresholdKey(p: ProtoThresholdKey) returns (list: KeyListObject)
    ensures fresh(list)
    ensures list.Value() == KeyList(ListKeys(p.keys), Some(if p.threshold.Some? then p.threshold.value else 0))
    ensures p.threshold.Some? ==> list.Value() == FromProtobufKey(EMPTY.(thresholdKey := Some(p)))
  {
    list := new KeyListObject(ListKeys(p.keys), None);
    list.SetThreshold(if p.threshold.Some? then p.threshold.value else 0);
  }
}
