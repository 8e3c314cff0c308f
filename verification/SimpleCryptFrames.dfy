/** What an encrypted frame holds, when a frame opens, and which byte of the key is which. */
module SimpleCryptFrames {
  import opened Common
  import opened SimpleCrypt

  // ---- bits and bytes as numbers ----

  lemma FlagBits(flags: bv8)
    ensures Has(flags, COMPRESSION_FLAG) <==> flags & 1 != 0
    ensures Has(flags, CHECKSUM_FLAG) <==> flags & 2 != 0
    ensures Has(flags, HASH_FLAG) <==> flags & 4 != 0
  {
  }

  // ---- the frame ----

  /** The bytes that the chain hides, random byte first. */
  function Hidden(cypher: Bytes, k: KeyParts): (h: Bytes)
    requires |cypher| >= 3
    ensures |h| == |cypher| - 2
  {
    Unchain(cypher[2..], k)
  }

  /** The integrity code that stands before the data. */
  ghost predicate IsCode(code: Bytes, data: Bytes, protection: ProtectionMode, lib: Lib) {
    match protection
    case ProtectionNone => code == []
    case ProtectionChecksum =>
      |code| == 2 && lib.checksum(data) == ((code[0] as bv16) << 8) | (code[1] as bv16)
    case ProtectionHash => code == lib.hash(data)
  }

  lemma IntegrityIsCode(data: Bytes, protection: ProtectionMode, lib: Lib)
    ensures IsCode(Integrity(data, protection, lib), data, protection, lib)
  {
    ShortRoundTrip(lib.checksum(data));
  }

  /** An encrypted text is version 3, has the flags of what was done to it, and hides the random
      byte, the integrity code and the data: compressed always, never, or when that is shorter. */
  lemma FrameHolds(
    plaintext: Bytes, k: KeyParts, mode: CompressionMode, protection: ProtectionMode, random: bv8, lib: Lib)
    requires lib.Valid()
    ensures var cypher, shorter := Encrypted(plaintext, k, mode, protection, random, lib), lib.compress(plaintext);
            var packed := mode == CompressionAlways || (mode == CompressionAuto && |shorter| < |plaintext|);
            var data := if packed then shorter else plaintext;
            && |cypher| >= 3 && cypher[0] == 3
            && (cypher[1] & 1 != 0 <==> packed)
            && (cypher[1] & 2 != 0 <==> protection == ProtectionChecksum)
            && (cypher[1] & 4 != 0 <==> protection == ProtectionHash)
            && exists code :: IsCode(code, data, protection, lib) && Hidden(cypher, k) == [random] + code + data
  {
    var compressed := Compresses(plaintext, mode, lib);
    var data := if compressed then lib.compress(plaintext) else plaintext;
    var code := Integrity(data, protection, lib);
    var cypher := Encrypted(plaintext, k, mode, protection, random, lib);
    var body := [random] + code + data;
    FlagsRead(compressed, protection);
    FlagBits(Flags(compressed, protection));
    hide Flags, Has, Integrity, Chain, Unchain;
    assert cypher[2..] == Chain(body, k);
    UnchainUndoesChain(body, k);
    IntegrityIsCode(data, protection, lib);
    hide IsCode;
    assert Hidden(cypher, k) == [random] + code + data;
  }

  // ---- when a frame opens ----

  /** The data of a frame, with its integrity code taken off. */
  function Payload(cypher: Bytes, k: KeyParts): Bytes
    requires |cypher| >= 3
  {
    var h, flags := Hidden(cypher, k), cypher[1];
    var code := if flags & 2 != 0 then 2 else if flags & 4 != 0 then 20 else 0;
    if |h| < 1 + code then [] else h[1 + code..]
  }

  /** The code in the frame is there and is that of the data; a frame without flags has none. */
  ghost predicate Intact(cypher: Bytes, k: KeyParts, lib: Lib)
    requires |cypher| >= 3
  {
    var h, flags, data := Hidden(cypher, k), cypher[1], Payload(cypher, k);
    if flags & 2 != 0 then
      |cypher| >= 5 && lib.checksum(data) == ((h[1] as bv16) << 8) | (h[2] as bv16)
    else if flags & 4 != 0 then |cypher| >= 23 && lib.hash(data) == h[1..21]
    else true
  }

  lemma Behind(h: Bytes, n: nat)
    requires 1 + n <= |h|
    ensures h[1..][n..] == h[1 + n..] && h[1..][..n] == h[1..1 + n]
  {
  }

  lemma CheckedSum(h: Bytes, flags: bv8, lib: Lib)
    requires |h| >= 1 && Has(flags, CHECKSUM_FLAG)
    ensures Checked(h[1..], flags, lib) ==
            if |h| >= 3 && lib.checksum(h[3..]) == ((h[1] as bv16) << 8) | (h[2] as bv16) then Some(h[3..]) else None
  {
    hide Has;
    if |h| >= 3 {
      Behind(h, 2);
      assert GetShort(h[1..]) == ((h[1] as bv16) << 8) | (h[2] as bv16);
      hide GetShort;
    }
  }

  lemma CheckedHash(h: Bytes, flags: bv8, lib: Lib)
    requires |h| >= 1 && !Has(flags, CHECKSUM_FLAG) && Has(flags, HASH_FLAG)
    ensures Checked(h[1..], flags, lib) ==
            if |h| >= 21 && lib.hash(h[21..]) == h[1..21] then Some(h[21..]) else None
  {
    hide Has, GetShort;
    if |h| >= 21 {
      Behind(h, 20);
    }
  }

  lemma CheckedPlain(h: Bytes, flags: bv8, lib: Lib)
    requires |h| >= 1 && !Has(flags, CHECKSUM_FLAG) && !Has(flags, HASH_FLAG)
    ensures Checked(h[1..], flags, lib) == Some(h[1..])
  {
  }

  lemma CheckedIff(cypher: Bytes, k: KeyParts, lib: Lib)
    requires |cypher| >= 3
    ensures Checked(Hidden(cypher, k)[1..], cypher[1], lib) ==
            if Intact(cypher, k, lib) then Some(Payload(cypher, k)) else None
  {
    hide Unchain, Checked, Has;
    var h, flags := Hidden(cypher, k), cypher[1];
    hide Hidden;
    FlagBits(flags);
    if flags & 2 != 0 {
      CheckedSum(h, flags, lib);
    } else if flags & 4 != 0 {
      CheckedHash(h, flags, lib);
    } else {
      CheckedPlain(h, flags, lib);
    }
  }

  /** Which frames decrypt, and to what: a frame of version 3 opens if and only if it is intact,
      and is unpacked if it says so; every other one names its fault, and one that is too short
      for a frame leaves the last error alone. */
  lemma OpensIff(cypher: Bytes, k: KeyParts, lib: Lib)
    ensures Decrypted(cypher, k, lib) ==
            if |cypher| < 3 then ([], None)
            else if cypher[0] != 3 then ([], Some(UnknownVersion))
            else if !Intact(cypher, k, lib) then ([], Some(IntegrityFailed))
            else (if cypher[1] & 1 != 0 then lib.uncompress(Payload(cypher, k)) else Payload(cypher, k), Some(NoError))
  {
    if |cypher| >= 3 {
      CheckedIff(cypher, k, lib);
      FlagBits(cypher[1]);
      hide Unchain, Checked, Has, Intact, Payload;
    }
  }

  /** A frame with a checksum only opens if and only if the checksum is that of its data. */
  lemma ChecksumDecides(cypher: Bytes, k: KeyParts, lib: Lib)
    requires |cypher| >= 5 && cypher[0] == 3 && cypher[1] == 2
    ensures var h := Hidden(cypher, k);
            Decrypted(cypher, k, lib) ==
            if lib.checksum(h[3..]) == ((h[1] as bv16) << 8) | (h[2] as bv16) then (h[3..], Some(NoError))
            else ([], Some(IntegrityFailed))
  {
    hide Unchain, Decrypted;
    OpensIff(cypher, k, lib);
  }

  // ---- the bytes of the key ----

  lemma ByteOf(b: bv64)
    ensures LowByte(b) as bv64 == b & 0xFF
  {
  }

  lemma SplitOff(b: bv64)
    ensures b == (b & 0xFF) | ((b >> 8) << 8)
  {
  }

  /** The bytes from the i-th on, put together again. */
  function Assembled(key: bv64, i: nat): bv64
    requires i <= 8
    decreases 8 - i
  {
    if i == 8 then 0 else (KeyPart(key, i) as bv64) | (Assembled(key, i + 1) << 8)
  }

  lemma {:induction false} AssembledRest(key: bv64, i: nat)
    requires i <= 8
    ensures Assembled(key, i) == ShiftedBytes(key, i)
    decreases 8 - i
  {
    if i == 8 {
      EightShifts(key);
    } else {
      AssembledRest(key, i + 1);
      ByteOf(ShiftedBytes(key, i));
      SplitOff(ShiftedBytes(key, i));
      ShiftIs(ShiftedBytes(key, i));
      hide LowByte, ShiftByte;
      assert ShiftedBytes(key, i + 1) == ShiftByte(ShiftedBytes(key, i));
    }
  }

  lemma ShiftIs(b: bv64)
    ensures ShiftByte(b) == b >> 8
  {
  }

  /** The parts are the bytes of the key, the lowest first. */
  lemma KeyIsItsParts(key: bv64)
    ensures Assembled(key, 0) == key
  {
    AssembledRest(key, 0);
    hide Assembled;
  }
}
