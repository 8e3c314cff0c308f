/** src/common/crypto/simplecrypt.cpp: a chained XOR over a small frame. */
module SimpleCrypt {
  import opened Common

  type Bytes = seq<bv8>
  type KeyParts = k: seq<bv8> | |k| == 8 witness [0, 0, 0, 0, 0, 0, 0, 0]

  datatype CompressionMode = CompressionAuto | CompressionAlways | CompressionNever
  datatype ProtectionMode = ProtectionNone | ProtectionChecksum | ProtectionHash
  datatype Error = NoError | NoKeySet | UnknownVersion | IntegrityFailed

  const VERSION: bv8 := 3
  const COMPRESSION_FLAG: bv8 := 1
  const CHECKSUM_FLAG: bv8 := 2
  const HASH_FLAG: bv8 := 4

  /** qCompress, qUncompress, qChecksum and SHA-1. */
  datatype Lib = Lib(
    compress: Bytes -> Bytes,
    uncompress: Bytes -> Bytes,
    checksum: Bytes -> bv16,
    hash: Bytes -> Bytes)
  {
    ghost predicate Valid() {
      (forall x :: uncompress(compress(x)) == x) && (forall x :: |hash(x)| == 20)
    }
  }

  // ---- the key ----

  function ShiftByte(b: bv64): bv64 {
    b >> 8
  }

  function ShiftedBytes(key: bv64, i: nat): bv64 {
    if i == 0 then key else ShiftByte(ShiftedBytes(key, i - 1))
  }

  function LowByte(b: bv64): bv8 {
    (b & 0xFF) as bv8
  }

  function KeyPart(key: bv64, i: nat): bv8 {
    LowByte(ShiftedBytes(key, i))
  }

  method SplitKey(key: bv64) returns (parts: KeyParts)
    ensures forall i :: 0 <= i < 8 ==> parts[i] == KeyPart(key, i)
  {
    hide LowByte, ShiftByte;
    parts := [0, 0, 0, 0, 0, 0, 0, 0];
    for i := 0 to 8
      invariant forall k :: 0 <= k < i ==> parts[k] == KeyPart(key, k)
    {
      var part := key;
      for j := 0 to i
        invariant part == ShiftedBytes(key, j)
      {
        part := ShiftByte(part);
      }
      parts := parts[i := LowByte(part)];
    }
  }

  lemma LowByteMasks(a: bv64, b: bv64)
    requires LowByte(a) == LowByte(b)
    ensures a & 0xFF == b & 0xFF
  {
  }

  lemma MaskAndShift(a: bv64, b: bv64)
    requires a & 0xFF == b & 0xFF && a >> 8 == b >> 8
    ensures a == b
  {
  }

  lemma ByteAndRest(a: bv64, b: bv64)
    requires LowByte(a) == LowByte(b) && ShiftByte(a) == ShiftByte(b)
    ensures a == b
  {
    assert a >> 8 == b >> 8 by {
      assert ShiftByte(a) == a >> 8;
      assert ShiftByte(b) == b >> 8;
    }
    hide LowByte, ShiftByte;
    LowByteMasks(a, b);
    MaskAndShift(a, b);
  }

  lemma EightShiftsVanish(key: bv64)
    ensures key >> 8 >> 8 >> 8 >> 8 >> 8 >> 8 >> 8 >> 8 == 0
  {
  }

  lemma EightShifts(key: bv64)
    ensures ShiftedBytes(key, 8) == 0
  {
    EightShiftsVanish(key);
    assert ShiftedBytes(key, 1) == key >> 8;
    assert ShiftedBytes(key, 2) == key >> 8 >> 8;
    assert ShiftedBytes(key, 3) == key >> 8 >> 8 >> 8;
    assert ShiftedBytes(key, 4) == key >> 8 >> 8 >> 8 >> 8;
    assert ShiftedBytes(key, 5) == key >> 8 >> 8 >> 8 >> 8 >> 8;
    assert ShiftedBytes(key, 6) == key >> 8 >> 8 >> 8 >> 8 >> 8 >> 8;
    assert ShiftedBytes(key, 7) == key >> 8 >> 8 >> 8 >> 8 >> 8 >> 8 >> 8;
  }

  lemma {:induction false} PartsDetermineRest(a: bv64, b: bv64, i: nat)
    requires i <= 8 && forall j :: i <= j < 8 ==> KeyPart(a, j) == KeyPart(b, j)
    ensures ShiftedBytes(a, i) == ShiftedBytes(b, i)
    decreases 8 - i
  {
    hide LowByte, ShiftByte;
    if i == 8 {
      EightShifts(a);
      EightShifts(b);
    } else {
      PartsDetermineRest(a, b, i + 1);
      assert KeyPart(a, i) == KeyPart(b, i);
      ByteAndRest(ShiftedBytes(a, i), ShiftedBytes(b, i));
    }
  }

  /** No two keys split into the same eight bytes. */
  lemma KeyPartsDetermineKey(a: bv64, b: bv64)
    requires forall j :: 0 <= j < 8 ==> KeyPart(a, j) == KeyPart(b, j)
    ensures a == b
  {
    hide LowByte, ShiftByte;
    PartsDetermineRest(a, b, 0);
  }

  // ---- the chain ----

  function Xor3(a: bv8, b: bv8, c: bv8): bv8 {
    a ^ b ^ c
  }

  function Last(b: Bytes): bv8 {
    if b == [] then 0 else b[|b| - 1]
  }

  /** Each byte is combined with its key byte and with the byte put out before it. */
  function Chain(x: Bytes, k: KeyParts): (c: Bytes)
    ensures |c| == |x|
  {
    if x == [] then []
    else
      var n := |x| - 1;
      var before := Chain(x[..n], k);
      before + [Xor3(x[n], k[n % 8], Last(before))]
  }

  function Unchain(c: Bytes, k: KeyParts): (x: Bytes)
    ensures |x| == |c|
  {
    seq(|c|, i requires 0 <= i < |c| => Xor3(c[i], Last(c[..i]), k[i % 8]))
  }

  method ChainInPlace(ba: array<bv8>, k: KeyParts)
    modifies ba
    ensures ba[..] == Chain(old(ba[..]), k)
  {
    var lastChar: bv8 := 0;
    ghost var x := ba[..];
    for pos := 0 to ba.Length
      invariant ba[pos..] == x[pos..]
      invariant ba[..pos] == Chain(x[..pos], k)
      invariant lastChar == Last(ba[..pos])
    {
      assert x[..pos + 1][..pos] == x[..pos];
      assert ba[pos] == ba[pos..][0] == x[pos];
      ba[pos] := Xor3(ba[pos], k[pos % 8], lastChar);
      lastChar := ba[pos];
      assert ba[..pos + 1] == ba[..pos] + [ba[pos]];
      assert ba[pos + 1..] == x[pos + 1..];
    }
    assert ba[..] == ba[..ba.Length] && x[..ba.Length] == x;
  }

  method UnchainInPlace(ba: array<bv8>, k: KeyParts)
    modifies ba
    ensures ba[..] == Unchain(old(ba[..]), k)
  {
    var lastChar: bv8 := 0;
    ghost var c := ba[..];
    for pos := 0 to ba.Length
      invariant ba[pos..] == c[pos..]
      invariant ba[..pos] == Unchain(c, k)[..pos]
      invariant lastChar == Last(c[..pos])
    {
      var currentChar := ba[pos];
      assert currentChar == ba[pos..][0] == c[pos];
      ba[pos] := Xor3(ba[pos], lastChar, k[pos % 8]);
      lastChar := currentChar;
      assert ba[..pos + 1] == ba[..pos] + [ba[pos]];
      assert ba[pos + 1..] == c[pos + 1..];
    }
    assert ba[..] == ba[..ba.Length];
  }

  lemma {:induction false} ChainPrefix(x: Bytes, k: KeyParts, n: nat)
    requires n <= |x|
    ensures Chain(x, k)[..n] == Chain(x[..n], k)
  {
    if n < |x| {
      ChainPrefix(x[..|x| - 1], k, n);
      assert x[..|x| - 1][..n] == x[..n];
      assert Chain(x, k)[..n] == Chain(x[..|x| - 1], k)[..n];
    } else {
      assert x[..n] == x;
    }
  }

  lemma XorCancels(x: bv8, k: bv8, l: bv8, k': bv8)
    ensures Xor3(Xor3(x, k, l), l, k') == Xor3(x, k, k')
    ensures Xor3(x, k, k) == x
  {
  }

  /** Undoing with key k' what was chained with key k leaves every byte combined with both
      key bytes. */
  lemma UnchainWithAnotherKey(x: Bytes, k: KeyParts, k': KeyParts, i: nat)
    requires i < |x|
    ensures Unchain(Chain(x, k), k')[i] == Xor3(x[i], k[i % 8], k'[i % 8])
  {
    hide Xor3;
    var c := Chain(x, k);
    ChainPrefix(x, k, i);
    ChainPrefix(x, k, i + 1);
    assert x[..i + 1][..i] == x[..i];
    assert c[i] == c[..i + 1][i] == Xor3(x[i], k[i % 8], Last(c[..i]));
    XorCancels(x[i], k[i % 8], Last(c[..i]), k'[i % 8]);
  }

  lemma UnchainUndoesChain(x: Bytes, k: KeyParts)
    ensures Unchain(Chain(x, k), k) == x
  {
    forall i | 0 <= i < |x| ensures Unchain(Chain(x, k), k)[i] == x[i] {
      UnchainWithAnotherKey(x, k, k, i);
      XorCancels(x[i], k[i % 8], 0, 0);
    }
  }

  lemma XorInjective(a: bv8, b: bv8, l: bv8, k: bv8)
    ensures Xor3(a, l, k) == Xor3(b, l, k) <==> a == b
    ensures Xor3(l, a, k) == Xor3(l, b, k) <==> a == b
  {
  }

  /** Changing one byte of the chained data changes exactly that byte and the next. */
  lemma OneByteChanged(c: Bytes, k: KeyParts, p: nat, byte: bv8, i: nat)
    requires p < |c| && i < |c| && byte != c[p]
    ensures Unchain(c[p := byte], k)[i] != Unchain(c, k)[i] <==> i == p || i == p + 1
  {
    hide Xor3, Unchain;
    var c' := c[p := byte];
    UnchainAt(c, k, i);
    UnchainAt(c', k, i);
    XorInjective(c'[i], c[i], if i == 0 then 0 else c[i - 1], k[i % 8]);
    if i > 0 {
      XorInjective(c'[i - 1], c[i - 1], c[i], k[i % 8]);
    }
  }

  lemma UnchainAt(c: Bytes, k: KeyParts, i: nat)
    requires i < |c|
    ensures Unchain(c, k)[i] == Xor3(c[i], if i == 0 then 0 else c[i - 1], k[i % 8])
  {
    hide Xor3;
    if i > 0 {
      assert c[..i][i - 1] == c[i - 1];
    }
  }

  // ---- the frame ----

  predicate Has(flags: bv8, flag: bv8) {
    flags & flag == flag
  }

  // The checksum as QDataStream writes it, most significant byte first, and reads it.
  function PutShort(n: bv16): Bytes {
    [(n >> 8) as bv8, (n & 0xFF) as bv8]
  }

  function GetShort(b: Bytes): bv16
    requires |b| >= 2
  {
    ((b[0] as bv16) << 8) | (b[1] as bv16)
  }

  lemma ShortRoundTrip(n: bv16)
    ensures GetShort(PutShort(n)) == n
  {
  }

  // Whether encryption stores the data compressed.
  predicate Compresses(plaintext: Bytes, mode: CompressionMode, lib: Lib) {
    mode.CompressionAlways? || (mode.CompressionAuto? && |lib.compress(plaintext)| < |plaintext|)
  }

  function Flags(compressed: bool, protection: ProtectionMode): bv8 {
    (if compressed then COMPRESSION_FLAG else 0) |
    (match protection
     case ProtectionNone => 0
     case ProtectionChecksum => CHECKSUM_FLAG
     case ProtectionHash => HASH_FLAG)
  }

  function Integrity(data: Bytes, protection: ProtectionMode, lib: Lib): Bytes {
    match protection
    case ProtectionNone => []
    case ProtectionChecksum => PutShort(lib.checksum(data))
    case ProtectionHash => lib.hash(data)
  }

  /** The bytes that encryption puts out; `random` is the byte it prepends. */
  function Encrypted(
    plaintext: Bytes, k: KeyParts, mode: CompressionMode, protection: ProtectionMode, random: bv8,
    lib: Lib): Bytes {
    var compressed := Compresses(plaintext, mode, lib);
    var data := if compressed then lib.compress(plaintext) else plaintext;
    [VERSION, Flags(compressed, protection)] + Chain([random] + Integrity(data, protection, lib) + data, k)
  }

  /** What decryption returns and the error it records; None leaves the last error alone. */
  function Decrypted(cypher: Bytes, k: KeyParts, lib: Lib): (Bytes, Option<Error>) {
    if |cypher| < 3 then ([], None)
    else if cypher[0] != VERSION then ([], Some(UnknownVersion))
    else
      var flags := cypher[1];
      var ba := Unchain(cypher[2..], k)[1..];
      var checked := Checked(ba, flags, lib);
      if checked.None? then ([], Some(IntegrityFailed))
      else (if Has(flags, COMPRESSION_FLAG) then lib.uncompress(checked.value) else checked.value, Some(NoError))
  }

  // The data behind a matching integrity code.
  function Checked(ba: Bytes, flags: bv8, lib: Lib): Option<Bytes> {
    if Has(flags, CHECKSUM_FLAG) then
      if |ba| < 2 || lib.checksum(ba[2..]) != GetShort(ba) then None else Some(ba[2..])
    else if Has(flags, HASH_FLAG) then
      if |ba| < 20 || lib.hash(ba[20..]) != ba[..20] then None else Some(ba[20..])
    else Some(ba)
  }

  lemma FlagsRead(compressed: bool, protection: ProtectionMode)
    ensures var flags := Flags(compressed, protection);
            && (Has(flags, COMPRESSION_FLAG) <==> compressed)
            && (Has(flags, CHECKSUM_FLAG) <==> protection.ProtectionChecksum?)
            && (Has(flags, HASH_FLAG) <==> protection.ProtectionHash?)
  {
  }

  lemma CheckedUndoesIntegrity(data: Bytes, compressed: bool, protection: ProtectionMode, lib: Lib)
    requires lib.Valid()
    ensures Checked(Integrity(data, protection, lib) + data, Flags(compressed, protection), lib) == Some(data)
  {
    FlagsRead(compressed, protection);
    var code := Integrity(data, protection, lib);
    ShortRoundTrip(lib.checksum(data));
    assert (code + data)[|code|..] == data && (code + data)[..|code|] == code;
    if protection.ProtectionNone? {
      assert code + data == data;
    }
  }

  /** Decryption returns the plaintext for every key, random byte, compression mode and
      protection mode; it depends on no mode of the object that decrypts. */
  lemma DecryptUndoesEncrypt(
    plaintext: Bytes, k: KeyParts, mode: CompressionMode, protection: ProtectionMode, random: bv8, lib: Lib)
    requires lib.Valid()
    ensures Decrypted(Encrypted(plaintext, k, mode, protection, random, lib), k, lib) == (plaintext, Some(NoError))
  {
    hide Flags, Has, Integrity, Checked, Unchain, Chain;
    var compressed := Compresses(plaintext, mode, lib);
    var data := if compressed then lib.compress(plaintext) else plaintext;
    var body := [random] + Integrity(data, protection, lib) + data;
    var cypher := Encrypted(plaintext, k, mode, protection, random, lib);
    assert cypher[2..] == Chain(body, k);
    UnchainUndoesChain(body, k);
    assert body[1..] == Integrity(data, protection, lib) + data;
    CheckedUndoesIntegrity(data, compressed, protection, lib);
    FlagsRead(compressed, protection);
  }

  // ---- the object ----

  class Crypt {
    var key: bv64
    var keyParts: Option<KeyParts>
    var compressionMode: CompressionMode
    var protectionMode: ProtectionMode
    var lastError: Error

    ghost predicate Valid()
      reads this
    {
      keyParts.Some? ==> forall i :: 0 <= i < 8 ==> keyParts.value[i] == KeyPart(key, i)
    }

    constructor ()
      ensures Valid() && keyParts.None? && lastError == NoError
      ensures compressionMode == CompressionAuto && protectionMode == ProtectionChecksum
    {
      key, keyParts := 0, None;
      compressionMode, protectionMode, lastError := CompressionAuto, ProtectionChecksum, NoError;
    }

    method SetKey(newKey: bv64)
      modifies this`key, this`keyParts
      ensures Valid() && key == newKey && keyParts.Some?
    {
      key := newKey;
      var parts := SplitKey(newKey);
      keyParts := Some(parts);
    }

    method Encrypt(plaintext: Bytes, randomChar: bv8, lib: Lib) returns (result: Bytes)
      requires Valid()
      modifies this`lastError
      ensures keyParts.None? ==> result == [] && lastError == NoKeySet
      ensures keyParts.Some? ==> lastError == NoError
      ensures keyParts.Some? ==>
                result == Encrypted(plaintext, keyParts.value, compressionMode, protectionMode, randomChar, lib)
    {
      if keyParts.None? {
        lastError := NoKeySet;
        return [];
      }
      var data, flags := plaintext, 0 as bv8;
      if compressionMode == CompressionAlways {
        data := lib.compress(data);
        flags := flags | COMPRESSION_FLAG;
      } else if compressionMode == CompressionAuto {
        var compressed := lib.compress(data);
        if |compressed| < |data| {
          data := compressed;
          flags := flags | COMPRESSION_FLAG;
        }
      }
      var integrity: Bytes := [];
      if protectionMode == ProtectionChecksum {
        flags := flags | CHECKSUM_FLAG;
        integrity := PutShort(lib.checksum(data));
      } else if protectionMode == ProtectionHash {
        flags := flags | HASH_FLAG;
        integrity := lib.hash(data);
      }
      data := [randomChar] + integrity + data;
      var ba := new bv8[|data|](i requires 0 <= i < |data| => data[i]);
      assert ba[..] == data;
      ChainInPlace(ba, keyParts.value);
      result := [VERSION, flags] + ba[..];
      lastError := NoError;
    }

    method Decrypt(cypher: Bytes, lib: Lib) returns (result: Bytes)
      requires Valid()
      modifies this`lastError
      ensures keyParts.None? ==> result == [] && lastError == NoKeySet
      ensures keyParts.Some? ==>
                var (plain, error) := Decrypted(cypher, keyParts.value, lib);
                result == plain && lastError == if error.Some? then error.value else old(lastError)
    {
      result := [];
      if keyParts.None? {
        lastError := NoKeySet;
        return;
      }
      if |cypher| < 3 {
        return;
      }
      if cypher[0] != VERSION {
        lastError := UnknownVersion;
        return;
      }
      var flags, rest := cypher[1], cypher[2..];
      var ba := new bv8[|rest|](i requires 0 <= i < |rest| => rest[i]);
      assert ba[..] == rest;
      UnchainInPlace(ba, keyParts.value);
      var data := ba[1..];
      assert data == Unchain(rest, keyParts.value)[1..];
      match Checked(data, flags, lib) {
        case None => lastError := IntegrityFailed;
        case Some(checked) =>
          result := if Has(flags, COMPRESSION_FLAG) then lib.uncompress(checked) else checked;
          lastError := NoError;
      }
    }
  }
}
