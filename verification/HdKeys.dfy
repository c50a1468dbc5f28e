/** bip32: hierarchical keys over an abstract curve group and abstract hashes. */
module HdKeys {
  import opened Wrappers
  import opened Bytes
  import opened Division
  import opened Groups

  type Result<T> = Wrappers.Result<T, Error>
  datatype Error = SerializedKeyWrongSize | HardenedChildPublicKey | InvalidChecksum | InvalidPrivateKey
    | InvalidPublicKey

  const FIRST_HARDENED_CHILD := 0x8000_0000
  const PRIVATE_VERSION: seq<byte> := [0x04, 0x88, 0xAD, 0xE4]
  const PUBLIC_VERSION: seq<byte> := [0x04, 0x88, 0xB2, 0x1E]

  /** The curve with its generator of order n, compression of points to bytes and back, and the hashes. expand is None
      for bytes of which a coordinate is zero or that are no point; what the source adds up for such bytes is left
      open. */
  datatype System<!G> = System(group: Group<G>, gen: G, n: int, compress: G -> seq<byte>,
    expand: seq<byte> -> Option<G>,
    undefinedSum: (seq<byte>, seq<byte>) -> seq<byte>, hmac: (seq<byte>, seq<byte>) -> seq<byte>,
    hash160: seq<byte> -> seq<byte>, checksum: seq<byte> -> seq<byte>)

  ghost predicate Lawful<G(!new)>(s: System<G>) {
    && Abelian(s.group) && 1 < s.n <= Pow256(32)
    && (forall k: int :: Scale(s.group, k, s.gen) == s.group.zero <==> k % s.n == 0)
    && (forall p :: s.expand(s.compress(p)) == if p == s.group.zero then None else Some(p))
    && (forall p :: |s.compress(p)| == 33 && s.compress(p)[0] != 0)
    && (forall k, d :: |s.hmac(k, d)| == 64) && (forall d :: |s.hash160(d)| == 20) && forall d :: |s.checksum(d)| == 4
  }

  datatype Key = Key(key: seq<byte>, version: seq<byte>, childNumber: seq<byte>, fingerPrint: seq<byte>,
    chainCode: seq<byte>, depth: byte, isPrivate: bool)

  ghost function PublicKeyFor<G(!new)>(s: System<G>, key: seq<byte>): seq<byte> {
    s.compress(Scale(s.group, FromBytes(key), s.gen))
  }

  /** The sum modulo n, in 32 bytes. */
  ghost function AddPrivateKeys<G(!new)>(s: System<G>, key1: seq<byte>, key2: seq<byte>): seq<byte>
    requires s.n > 0
  {
    Pad(ToBytes((FromBytes(key1) + FromBytes(key2)) % s.n), 32)
  }

  ghost function AddPublicKeys<G(!new)>(s: System<G>, key1: seq<byte>, key2: seq<byte>): seq<byte> {
    match (s.expand(key1), s.expand(key2))
    case (Some(p), Some(q)) => s.compress(s.group.add(p, q))
    case _ => s.undefinedSum(key1, key2)
  }

  /** 32 bytes, not zero, less than n. */
  predicate ValidPrivateKey<G(!new)>(s: System<G>, key: seq<byte>) {
    |key| == 32 && 0 < FromBytes(key) < s.n
  }

  function Uint32Bytes(i: nat): seq<byte> {
    Pad(ToBytes(i), 4)
  }

  ghost function Intermediary<G(!new)>(s: System<G>, key: Key, childIdx: nat): seq<byte> {
    var data :=
      if childIdx >= FIRST_HARDENED_CHILD then [0] + key.key
      else if key.isPrivate then PublicKeyFor(s, key.key)
      else key.key;
    s.hmac(key.chainCode, data + Uint32Bytes(childIdx))
  }

  ghost function NewChildKey<G(!new)>(s: System<G>, key: Key, childIdx: nat): Result<Key>
    requires Lawful(s)
  {
    if !key.isPrivate && childIdx >= FIRST_HARDENED_CHILD then Err(HardenedChildPublicKey)
    else
      var intermediary := Intermediary(s, key, childIdx);
      var depth := (key.depth + 1) % 256;
      if key.isPrivate then
        var child := Key(AddPrivateKeys(s, intermediary[..32], key.key), PRIVATE_VERSION, Uint32Bytes(childIdx),
          s.hash160(PublicKeyFor(s, key.key))[..4], intermediary[32..], depth, true);
        if ValidPrivateKey(s, child.key) then Ok(child) else Err(InvalidPrivateKey)
      else
        var keyBytes := PublicKeyFor(s, intermediary[..32]);
        if s.expand(keyBytes).None? then Err(InvalidPublicKey)
        else
          Ok(Key(AddPublicKeys(s, keyBytes, key.key), PUBLIC_VERSION, Uint32Bytes(childIdx), s.hash160(key.key)[..4],
            intermediary[32..], depth, false))
  }

  /** The public version of a key. */
  ghost function PublicKey<G(!new)>(s: System<G>, key: Key): Key {
    Key(if key.isPrivate then PublicKeyFor(s, key.key) else key.key, PUBLIC_VERSION, key.childNumber, key.fingerPrint,
      key.chainCode, key.depth, false)
  }

  /** A key made by this package that still holds its private part. */
  ghost predicate PrivateKey<G(!new)>(s: System<G>, key: Key) {
    key.isPrivate && ValidPrivateKey(s, key.key)
  }

  lemma SumBytes<G(!new)>(s: System<G>, key1: seq<byte>, key2: seq<byte>)
    requires Lawful(s)
    ensures var k := AddPrivateKeys(s, key1, key2);
      |k| == 32 && FromBytes(k) == (FromBytes(key1) + FromBytes(key2)) % s.n
  {
    hide Pow256, FromBytes, ToBytes, Pad, Abelian;
    var x := FromBytes(key1) + FromBytes(key2);
    Euclid(x, s.n);
    PadLength(x % s.n, 32);
  }

  lemma ZeroMultiples<G(!new)>(s: System<G>, k: int)
    requires Lawful(s)
    ensures Scale(s.group, k, s.gen) == s.group.zero <==> k % s.n == 0
  {
  }

  /** The multiple of the generator by a sum of private keys modulo n is the sum of their multiples. */
  lemma SumPoint<G(!new)>(s: System<G>, a: nat, b: nat)
    requires Lawful(s)
    ensures Scale(s.group, (a + b) % s.n, s.gen) == s.group.add(Scale(s.group, a, s.gen), Scale(s.group, b, s.gen))
  {
    hide Abelian, Scale;
    var x, n := a + b, s.n;
    ScaleAdds(s.group, a, b, s.gen);
    Euclid(x, n);
    ScaleAdds(s.group, n * (x / n), x % n, s.gen);
    MultipleOfOrder(n, x / n);
    ZeroMultiples(s, n * (x / n));
    Unit(s.group, Scale(s.group, x % n, s.gen));
  }

  lemma MultipleOfOrder(n: int, q: int)
    requires n > 0
    ensures n * q % n == 0
  {
    DivisionIs(n * q, n, q, 0);
  }

  lemma NotMultiple(k: int, n: int)
    requires 0 < k < n
    ensures k % n != 0
  {
    DivisionIs(k, n, 0, k);
  }

  lemma Expanded<G(!new)>(s: System<G>, p: G)
    requires Lawful(s)
    ensures s.expand(s.compress(p)) == if p == s.group.zero then None else Some(p)
  {
  }

  /** When the two derivations succeed. */
  lemma DerivationsSucceed<G(!new)>(s: System<G>, key: Key, childIdx: nat)
    requires Lawful(s) && PrivateKey(s, key) && childIdx < FIRST_HARDENED_CHILD
    ensures |Intermediary(s, key, childIdx)| == 64
    ensures var il := FromBytes(Intermediary(s, key, childIdx)[..32]);
      (NewChildKey(s, key, childIdx).Ok? <==> (il + FromBytes(key.key)) % s.n != 0)
      && (NewChildKey(s, PublicKey(s, key), childIdx).Ok? <==> il % s.n != 0)
  {
    hide Abelian, Scale, Pow256, FromBytes, ToBytes, Pad;
    var i := Intermediary(s, key, childIdx);
    SumBytes(s, i[..32], key.key);
    Euclid(FromBytes(i[..32]) + FromBytes(key.key), s.n);
    Expanded(s, Scale(s.group, FromBytes(i[..32]), s.gen));
    ZeroMultiples(s, FromBytes(i[..32]));
  }

  /** A group of two elements in place of the curve, and a hash whose first 32 bytes are the number left. */
  function Tiny(left: nat): System<bool>
    requires left < 2
  {
    System(Group(false, (x: bool, y: bool) => x != y, (x: bool) => x), true, 2, TinyCompress, TinyExpand,
      (x: seq<byte>, y: seq<byte>) => x, (k: seq<byte>, d: seq<byte>) => NumberBytes(left) + NumberBytes(0),
      (d: seq<byte>) => Pad([], 20), (d: seq<byte>) => Pad([], 4))
  }

  function NumberBytes(n: nat): seq<byte> {
    Pad(ToBytes(n), 32)
  }

  function TinyCompress(p: bool): seq<byte> {
    (if p then [2] else [1]) + Pad([], 32)
  }

  function TinyExpand(key: seq<byte>): Option<bool> {
    if key == TinyCompress(true) then Some(true) else None
  }

  lemma {:induction false} TinyMultiple(left: nat, k: nat)
    requires left < 2
    ensures Multiple(Tiny(left).group, k, true) == (k % 2 == 1)
  {
    if k > 0 {
      TinyMultiple(left, k - 1);
    }
  }

  lemma TinyPoints()
    ensures forall p :: TinyExpand(TinyCompress(p)) == (if p then Some(p) else None)
    ensures forall p :: |TinyCompress(p)| == 33 && TinyCompress(p)[0] != 0
    ensures |Pad([], 20)| == 20 && |Pad([], 4)| == 4
  {
    assert TinyCompress(true)[0] == 2 && TinyCompress(false)[0] == 1;
  }

  lemma SmallNumbers(n: nat)
    requires n < 2
    ensures |NumberBytes(n)| == 32 && FromBytes(NumberBytes(n)) == n && 2 <= Pow256(32)
  {
    Pow256Adds(1, 31);
    assert Pow256(1) == 256;
    hide Pow256, FromBytes, ToBytes, Pad;
    PadLength(n, 32);
  }

  lemma TinyAbelian(left: nat)
    requires left < 2
    ensures Abelian(Tiny(left).group)
  {
    hide Pad, ToBytes, TinyCompress, TinyExpand;
  }

  lemma TinyLawful(left: nat)
    requires left < 2
    ensures Lawful(Tiny(left))
  {
    hide Pow256, Pad, ToBytes, FromBytes, TinyCompress, TinyExpand, NumberBytes, Abelian, Scale;
    var s := Tiny(left);
    TinyPoints();
    SmallNumbers(left);
    SmallNumbers(0);
    TinyAbelian(left);
    forall k: int ensures Scale(s.group, k, s.gen) == s.group.zero <==> k % s.n == 0 {
      TinyScale(left, k);
    }
  }

  lemma TinyScale(left: nat, k: int)
    requires left < 2
    ensures Scale(Tiny(left).group, k, true) == false <==> k % 2 == 0
  {
    TinyMultiple(left, if k >= 0 then k else -k);
    hide Pad, ToBytes, TinyCompress, TinyExpand, Multiple;
  }

  lemma TinyDerivations(left: nat, key: Key, childIdx: nat)
    requires left < 2 && key.isPrivate && key.key == NumberBytes(1) && childIdx < FIRST_HARDENED_CHILD
    ensures Lawful(Tiny(left)) && PrivateKey(Tiny(left), key)
    ensures NewChildKey(Tiny(left), key, childIdx).Ok? <==> left == 0
    ensures NewChildKey(Tiny(left), PublicKey(Tiny(left), key), childIdx).Ok? <==> left == 1
  {
    hide Pow256, Pad, ToBytes, FromBytes, NewChildKey, Lawful, PublicKey, NumberBytes, Intermediary;
    SmallNumbers(left);
    SmallNumbers(0);
    SmallNumbers(1);
    TinyLawful(left);
    TinyHash(left, key, childIdx);
    DerivationsSucceed(Tiny(left), key, childIdx);
  }

  lemma TinyHash(left: nat, key: Key, childIdx: nat)
    requires left < 2
    ensures Intermediary(Tiny(left), key, childIdx) == NumberBytes(left) + NumberBytes(0)
  {
    hide Pad, ToBytes, FromBytes, NumberBytes, TinyCompress, TinyExpand;
  }

  /** In that system, with private key 1, private derivation fails on the hash 1 and public derivation does not; on the
      hash 0 it is the other way around. */
  lemma DerivationsDiffer(key: Key, childIdx: nat)
    requires key.isPrivate && key.key == NumberBytes(1) && childIdx < FIRST_HARDENED_CHILD
    ensures Lawful(Tiny(0)) && Lawful(Tiny(1)) && PrivateKey(Tiny(0), key) && PrivateKey(Tiny(1), key)
    ensures NewChildKey(Tiny(0), key, childIdx).Ok? && NewChildKey(Tiny(0), PublicKey(Tiny(0), key), childIdx).Err?
    ensures NewChildKey(Tiny(1), key, childIdx).Err? && NewChildKey(Tiny(1), PublicKey(Tiny(1), key), childIdx).Ok?
  {
    hide *;
    TinyDerivations(0, key, childIdx);
    TinyDerivations(1, key, childIdx);
  }

  /** For an index that is not hardened, deriving and then taking the public key is taking the public key and then
      deriving. */
  lemma DeriveCommutes<G(!new)>(s: System<G>, key: Key, childIdx: nat)
    requires Lawful(s) && PrivateKey(s, key) && childIdx < FIRST_HARDENED_CHILD
    requires NewChildKey(s, key, childIdx).Ok? && NewChildKey(s, PublicKey(s, key), childIdx).Ok?
    ensures PublicKey(s, NewChildKey(s, key, childIdx).value) == NewChildKey(s, PublicKey(s, key), childIdx).value
    ensures PrivateKey(s, NewChildKey(s, key, childIdx).value)
  {
    hide Abelian, Scale, Pow256, FromBytes, ToBytes, Pad;
    var i := Intermediary(s, key, childIdx);
    var il, k := FromBytes(i[..32]), FromBytes(key.key);
    SumBytes(s, i[..32], key.key);
    SumPoint(s, il, k);
    Expanded(s, Scale(s.group, il, s.gen));
    Expanded(s, Scale(s.group, k, s.gen));
    ZeroMultiples(s, k);
    NotMultiple(k, s.n);
  }

  ghost function Derive<G(!new)>(s: System<G>, key: Key, path: seq<nat>): Result<Key>
    requires Lawful(s)
    decreases |path|
  {
    if path == [] then Ok(key)
    else
      match NewChildKey(s, key, path[0])
      case Err(e) => Err(e)
      case Ok(child) => Derive(s, child, path[1..])
  }

  /** The same for a whole path. */
  lemma {:induction false} PathCommutes<G(!new)>(s: System<G>, key: Key, path: seq<nat>)
    requires Lawful(s) && PrivateKey(s, key) && forall i :: 0 <= i < |path| ==> path[i] < FIRST_HARDENED_CHILD
    requires Derive(s, key, path).Ok? && Derive(s, PublicKey(s, key), path).Ok?
    ensures PublicKey(s, Derive(s, key, path).value) == Derive(s, PublicKey(s, key), path).value
    decreases |path|
  {
    hide Lawful, NewChildKey, PublicKey;
    if path != [] {
      DeriveCommutes(s, key, path[0]);
      PathCommutes(s, NewChildKey(s, key, path[0]).value, path[1..]);
    }
  }

  /** Field sizes; only private keys start with a zero byte once serialized. */
  predicate WellFormed(key: Key) {
    && |key.version| == 4 && |key.fingerPrint| == 4 && |key.childNumber| == 4 && |key.chainCode| == 32
    && if key.isPrivate then |key.key| == 32 else |key.key| == 33 && key.key[0] != 0
  }

  ghost function Serialize<G(!new)>(s: System<G>, key: Key): seq<byte> {
    var keyBytes := if key.isPrivate then [0] + key.key else key.key;
    var buffer := key.version + [key.depth] + key.fingerPrint + key.childNumber + key.chainCode + keyBytes;
    buffer + s.checksum(buffer)
  }

  ghost function Deserialize<G(!new)>(s: System<G>, data: seq<byte>): Result<Key>
    requires Lawful(s)
  {
    if |data| != 82 then Err(SerializedKeyWrongSize)
    else
      var isPrivate := data[45] == 0;
      var key := Key(if isPrivate then data[46..78] else data[45..78], data[0..4], data[9..13], data[5..9],
        data[13..45], data[4], isPrivate);
      if s.checksum(data[..78]) != data[78..] then Err(InvalidChecksum) else Ok(key)
  }

  lemma DeserializeSerialize<G(!new)>(s: System<G>, key: Key)
    requires Lawful(s) && WellFormed(key)
    ensures Deserialize(s, Serialize(s, key)) == Ok(key)
  {
    var keyBytes := if key.isPrivate then [0] + key.key else key.key;
    var buffer := key.version + [key.depth] + key.fingerPrint + key.childNumber + key.chainCode + keyBytes;
    var data := Serialize(s, key);
    hide Lawful;
    assert |s.checksum(buffer)| == 4 by { ChecksumLength(s, buffer); }
    Fields(key.version, [key.depth], key.fingerPrint, key.childNumber, key.chainCode, keyBytes, s.checksum(buffer));
  }

  lemma ChecksumLength<G(!new)>(s: System<G>, d: seq<byte>)
    requires Lawful(s)
    ensures |s.checksum(d)| == 4
  {
  }

  /** Where the parts of a serialized key lie. */
  lemma Fields(a: seq<byte>, b: seq<byte>, c: seq<byte>, d: seq<byte>, e: seq<byte>, f: seq<byte>, g: seq<byte>)
    requires |a| == 4 && |b| == 1 && |c| == 4 && |d| == 4 && |e| == 32 && |f| == 33 && |g| == 4
    ensures var buffer := a + b + c + d + e + f;
      var data := buffer + g;
      |data| == 82 && data[0..4] == a && data[4] == b[0] && data[5..9] == c && data[9..13] == d && data[13..45] == e
      && data[45..78] == f && data[45] == f[0] && data[46..78] == f[1..] && data[..78] == buffer && data[78..] == g
  {
  }

  /** Only what Serialize prints is accepted. */
  lemma SerializeDeserialize<G(!new)>(s: System<G>, data: seq<byte>)
    requires Lawful(s) && Deserialize(s, data).Ok?
    ensures WellFormed(Deserialize(s, data).value) && Serialize(s, Deserialize(s, data).value) == data
  {
    var key := Deserialize(s, data).value;
    var keyBytes := if key.isPrivate then [0] + key.key else key.key;
    hide Lawful;
    assert keyBytes == data[45..78];
    assert data[..78] == key.version + [key.depth] + key.fingerPrint + key.childNumber + key.chainCode + keyBytes;
    assert data == data[..78] + data[78..];
  }
}
