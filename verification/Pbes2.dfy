/**
 * Encrypted PKCS#8 keys (section 3 of RFC 5958) under PBES2 with PBKDF2 and AES-CBC (section 6.2 and Appendices A.2
 * and A.4 of RFC 8018), as the importer inspects them (internal/cryptoformats/pki_parser.go).
 */
module Pbes2 {
  import opened Outcomes
  import opened Bytes
  import opened Der

  const PBES2: seq<nat> := [1, 2, 840, 113549, 1, 5, 13]
  const PBKDF2: seq<nat> := [1, 2, 840, 113549, 1, 5, 12]
  const HMAC_SHA256: seq<nat> := [1, 2, 840, 113549, 2, 9]
  const AES_128_CBC: seq<nat> := [2, 16, 840, 1, 101, 3, 4, 1, 2]
  const AES_192_CBC: seq<nat> := [2, 16, 840, 1, 101, 3, 4, 1, 22]
  const AES_256_CBC: seq<nat> := [2, 16, 840, 1, 101, 3, 4, 1, 42]

  const FILE_LIMIT: nat := 4_194_304
  const MAX_ITERATIONS: int := 2_000_000
  const BLOCK_SIZE: nat := 16

  function AesKeySize(oid: seq<nat>): Option<nat> {
    if oid == AES_128_CBC then Some(16)
    else if oid == AES_192_CBC then Some(24)
    else if oid == AES_256_CBC then Some(32)
    else None
  }

  datatype Pbkdf2 = Pbkdf2(iterations: int, salt: seq<byte>, keyLength: Option<int>)

  datatype Params = Params(iterations: int, salt: seq<byte>, keySize: nat, iv: seq<byte>, ciphertext: seq<byte>) {
    predicate InRange() {
      && 1 <= iterations <= MAX_ITERATIONS && 8 <= |salt| <= 64
      && (keySize == 16 || keySize == 24 || keySize == 32) && |iv| == BLOCK_SIZE
      && 0 < |ciphertext| <= FILE_LIMIT && |ciphertext| % BLOCK_SIZE == 0
    }
  }

  /** The accepted parameters: up to two million iterations, AES keys, one block of IV, whole blocks up to 4 MiB. */
  lemma RangeExactly(p: Params)
    ensures p.InRange() <==>
              && 1 <= p.iterations <= 2_000_000 && 8 <= |p.salt| <= 64 && p.keySize in {16, 24, 32} && |p.iv| == 16
              && |p.ciphertext| != 0 && |p.ciphertext| % 16 == 0 && |p.ciphertext| <= 4 * 1024 * 1024
  {
  }

  /** The two choices the encoding leaves open. */
  datatype Form = Form(hasKeyLength: bool, hasNull: bool)

  // ---- inspection ----

  predicate PrfAccepted(raw: RawValue) {
    var prf := ParseAlgorithmIdentifier(raw);
    && prf.Some? && prf.value.algorithm == HMAC_SHA256
    && (prf.value.parameters == None ||
        (IsPrimitive(prf.value.parameters.value, TAG_NULL) && prf.value.parameters.value.content == []))
  }

  /** parsePBKDF2Parameters once the parts are cut. */
  function Pbkdf2Parts(parts: seq<RawValue>): Option<Pbkdf2> {
    if |parts| < 3 || |parts| > 4 || !IsPrimitive(parts[0], TAG_OCTET_STRING) then None
    else
      var salt := parts[0].content;
      var iterations := ParseIntValue(parts[1]);
      if |salt| < 8 || |salt| > 64 || iterations == None || iterations.value < 1 ||
          iterations.value > MAX_ITERATIONS then None
      else
        var hasKeyLength := IsPrimitive(parts[2], TAG_INTEGER);
        var keyLength := if hasKeyLength then ParseIntValue(parts[2]) else None;
        var index := if hasKeyLength then 3 else 2;
        if hasKeyLength && (keyLength == None || keyLength.value <= 0) then None
        else if index != |parts| - 1 || !IsSequence(parts[index]) || !PrfAccepted(parts[index]) then None
        else Some(Pbkdf2(iterations.value, salt, keyLength))
  }

  function ParsePbkdf2(raw: RawValue): Option<Pbkdf2> {
    if !IsSequence(raw) || Split(raw.content) == None then None else Pbkdf2Parts(Split(raw.content).value)
  }

  /** An algorithm identifier with this object identifier and with parameters that satisfy a test made by the caller. */
  function AlgorithmParameters(raw: RawValue, oid: seq<nat>): Option<RawValue> {
    var alg := ParseAlgorithmIdentifier(raw);
    if alg.Some? && alg.value.algorithm == oid then alg.value.parameters else None
  }

  function Kdf(raw: RawValue): Option<Pbkdf2> {
    var parameters := AlgorithmParameters(raw, PBKDF2);
    if parameters == None || !IsSequence(parameters.value) then None else ParsePbkdf2(parameters.value)
  }

  datatype Cipher = Cipher(keySize: nat, iv: seq<byte>)

  function CipherOf(raw: RawValue): Option<Cipher> {
    var alg := ParseAlgorithmIdentifier(raw);
    if alg == None || alg.value.parameters == None then None
    else
      var keySize := AesKeySize(alg.value.algorithm);
      var parameters := alg.value.parameters.value;
      if keySize == None || !IsPrimitive(parameters, TAG_OCTET_STRING) || |parameters.content| != BLOCK_SIZE then None
      else Some(Cipher(keySize.value, parameters.content))
  }

  function Assemble(kdf: Pbkdf2, cipher: Cipher, ciphertext: seq<byte>): Option<Params> {
    if kdf.keyLength.Some? && kdf.keyLength.value != cipher.keySize then None
    else if |ciphertext| == 0 || |ciphertext| % BLOCK_SIZE != 0 || |ciphertext| > FILE_LIMIT then None
    else Some(Params(kdf.iterations, kdf.salt, cipher.keySize, cipher.iv, ciphertext))
  }

  function InspectScheme(scheme: RawValue, ciphertext: seq<byte>): Option<Params> {
    var parts := Split(scheme.content);
    if !IsSequence(scheme) || parts == None || |parts.value| != 2 then None
    else
      var kdf, cipher := Kdf(parts.value[0]), CipherOf(parts.value[1]);
      if kdf == None || cipher == None then None else Assemble(kdf.value, cipher.value, ciphertext)
  }

  function InspectOuter(outer: RawValue): Option<Params> {
    var parts := Split(outer.content);
    if !IsSequence(outer) || parts == None || |parts.value| != 2 ||
        !IsPrimitive(parts.value[1], TAG_OCTET_STRING) then None
    else
      var scheme := AlgorithmParameters(parts.value[0], PBES2);
      if scheme == None then None else InspectScheme(scheme.value, parts.value[1].content)
  }

  function Inspect(der: seq<byte>): Option<Params> {
    var outer := ParseFull(der);
    if outer == None then None else InspectOuter(outer.value)
  }

  function LooksLikeEncryptedPkcs8(der: seq<byte>): bool {
    var outer := ParseFull(der);
    && outer.Some? && IsSequence(outer.value)
    && var parts := Split(outer.value.content);
       parts.Some? && |parts.value| >= 1 && IsSequence(parts.value[0])
       && var alg := ParseAlgorithmIdentifier(parts.value[0]); alg.Some? && alg.value.algorithm == PBES2
  }

  // ---- encoding ----

  function Integer(n: nat): RawValue
    requires 0 < n < 0x1_0000_0000
  {
    BaseSize(n);
    Primitive(TAG_INTEGER, EncodePositive(n))
  }

  function Octets(b: seq<byte>): RawValue
    requires |b| < MAX_LENGTH
  {
    Primitive(TAG_OCTET_STRING, b)
  }

  function Oid(oid: seq<nat>): (v: RawValue)
    requires Known(oid)
  {
    KnownSize(oid);
    Primitive(TAG_OID, EncodeOid(oid))
  }

  predicate Known(oid: seq<nat>) {
    oid == PBES2 || oid == PBKDF2 || oid == HMAC_SHA256 || oid == AES_128_CBC || oid == AES_192_CBC ||
        oid == AES_256_CBC
  }

  lemma SmallArc(a: nat)
    requires a < 128
    ensures Base128(a) == [a]
  {
  }

  lemma RsaArcs()
    ensures Base128(42) == [0x2A] && Base128(96) == [0x60]
    ensures Base128(840) == [0x86, 0x48] && Base128(113549) == [0x86, 0xF7, 0x0D]
  {
  }

  lemma MoreArcs(arc: nat, rest: seq<nat>)
    ensures EncodeArcs([arc] + rest) == Base128(arc) + EncodeArcs(rest)
  {
    assert ([arc] + rest)[1..] == rest;
  }

  /** Arcs below 128 are written as themselves. */
  lemma {:induction false} SmallArcs(arcs: seq<nat>)
    requires forall i | 0 <= i < |arcs| :: arcs[i] < 128
    ensures |EncodeArcs(arcs)| == |arcs| && forall i | 0 <= i < |arcs| :: EncodeArcs(arcs)[i] == arcs[i]
  {
    hide Base128;
    if arcs != [] {
      assert forall i | 0 <= i < |arcs[1..]| :: arcs[1..][i] == arcs[i + 1];
      SmallArcs(arcs[1..]);
      SmallArc(arcs[0]);
    }
  }

  lemma RsaOctets(rest: seq<nat>)
    ensures EncodeArcs(FirstJoined([1, 2, 840, 113549] + rest)) ==
              [0x2A, 0x86, 0x48, 0x86, 0xF7, 0x0D] + EncodeArcs(rest)
  {
    hide EncodeArcs, Base128;
    RsaArcs();
    MoreArcs(42, [840] + ([113549] + rest));
    MoreArcs(840, [113549] + rest);
    MoreArcs(113549, rest);
    assert FirstJoined([1, 2, 840, 113549] + rest) == [42] + ([840] + ([113549] + rest));
  }

  lemma AesOctets(rest: seq<nat>)
    ensures EncodeArcs(FirstJoined([2, 16, 840] + rest)) == [0x60, 0x86, 0x48] + EncodeArcs(rest)
  {
    hide EncodeArcs, Base128;
    RsaArcs();
    MoreArcs(96, [840] + rest);
    MoreArcs(840, rest);
    assert FirstJoined([2, 16, 840] + rest) == [96] + ([840] + rest);
  }

  /** The identifiers in the octets that a file holds (Appendix C of RFC 8018). */
  lemma SchemeOctets()
    ensures EncodeOid(PBES2) == [0x2A, 0x86, 0x48, 0x86, 0xF7, 0x0D, 1, 5, 13]
    ensures EncodeOid(PBKDF2) == [0x2A, 0x86, 0x48, 0x86, 0xF7, 0x0D, 1, 5, 12]
    ensures EncodeOid(HMAC_SHA256) == [0x2A, 0x86, 0x48, 0x86, 0xF7, 0x0D, 2, 9]
  {
    hide EncodeArcs, FirstJoined;
    RsaOctets([1, 5, 13]);
    RsaOctets([1, 5, 12]);
    RsaOctets([2, 9]);
    SmallArcs([1, 5, 13]);
    SmallArcs([1, 5, 12]);
    SmallArcs([2, 9]);
    assert PBES2 == [1, 2, 840, 113549] + [1, 5, 13] && PBKDF2 == [1, 2, 840, 113549] + [1, 5, 12];
    assert HMAC_SHA256 == [1, 2, 840, 113549] + [2, 9];
  }

  /** The same for AES in CBC mode, by key length (Appendix B.2.5 of RFC 8018). */
  lemma CipherOctets()
    ensures EncodeOid(AesOid(16)) == [0x60, 0x86, 0x48, 1, 0x65, 3, 4, 1, 2]
    ensures EncodeOid(AesOid(24)) == [0x60, 0x86, 0x48, 1, 0x65, 3, 4, 1, 22]
    ensures EncodeOid(AesOid(32)) == [0x60, 0x86, 0x48, 1, 0x65, 3, 4, 1, 42]
  {
    AesKey(AesOid(16), 2);
    AesKey(AesOid(24), 22);
    AesKey(AesOid(32), 42);
  }

  lemma AesKey(oid: seq<nat>, last: nat)
    requires oid == [2, 16, 840, 1, 101, 3, 4, 1, last] && last < 128
    ensures EncodeOid(oid) == [0x60, 0x86, 0x48, 1, 0x65, 3, 4, 1, last]
  {
    hide EncodeArcs, FirstJoined;
    var rest := [1, 101, 3, 4, 1, last];
    AesOctets(rest);
    SmallArcs(rest);
    assert oid == [2, 16, 840] + rest;
  }

  lemma {:induction false} ArcsSize(arcs: seq<nat>)
    requires forall a | a in arcs :: a <= MAX_INT32
    ensures |EncodeArcs(arcs)| <= 5 * |arcs|
  {
    if arcs != [] {
      assert arcs[0] in arcs && forall a | a in arcs[1..] :: a in arcs;
      assert Pow128(4) == 0x1000_0000;
      PrefixLength(arcs[0] / 128, 4);
      ArcsSize(arcs[1..]);
    }
  }

  lemma KnownSize(oid: seq<nat>)
    requires Known(oid)
    ensures IsOid(oid) && |EncodeOid(oid)| <= 40
  {
    hide EncodeArcs;
    OidArcs(oid);
    ArcsSize(FirstJoined(oid));
  }

  lemma EncodeSize(isCompound: bool, tag: nat, content: seq<byte>)
    requires tag < 31 && |content| < MAX_LENGTH
    ensures |Encode(0, isCompound, tag, content)| <= |content| + 6
  {
    LengthSize(|content|);
  }

  lemma OctetsSize(b: seq<byte>)
    requires |b| < MAX_LENGTH
    ensures |Octets(b).full| <= |b| + 6 && Canonical(Octets(b))
  {
    EncodeSize(false, TAG_OCTET_STRING, b);
  }

  lemma IntegerSize(n: nat)
    requires 0 < n < 0x1_0000_0000
    ensures |Integer(n).full| <= 11 && Canonical(Integer(n))
  {
    BaseSize(n);
    EncodeSize(false, TAG_INTEGER, EncodePositive(n));
  }

  lemma OidSize(oid: seq<nat>)
    requires Known(oid)
    ensures |Oid(oid).full| <= 46 && Canonical(Oid(oid))
  {
    KnownSize(oid);
    EncodeSize(false, TAG_OID, EncodeOid(oid));
  }

  lemma SequenceSize(content: seq<byte>)
    requires |content| < MAX_LENGTH
    ensures |Sequence(content).full| <= |content| + 6 && Canonical(Sequence(content))
  {
    EncodeSize(true, TAG_SEQUENCE, content);
  }

  function Null(): RawValue { Primitive(TAG_NULL, []) }

  function Prf(hasNull: bool): (v: RawValue)
    ensures |v.full| <= 60 && Canonical(v)
  {
    OidSize(HMAC_SHA256);
    EncodeSize(false, TAG_NULL, []);
    var content := Oid(HMAC_SHA256).full + if hasNull then Null().full else [];
    SequenceSize(content);
    Sequence(content)
  }

  predicate Pbkdf2InRange(k: Pbkdf2) {
    && 1 <= k.iterations <= MAX_ITERATIONS && 8 <= |k.salt| <= 64
    && (k.keyLength == None || 0 < k.keyLength.value < 0x1_0000_0000)
  }

  function Pbkdf2Params(k: Pbkdf2, hasNull: bool): (v: RawValue)
    requires Pbkdf2InRange(k)
    ensures |v.full| <= 158 && Canonical(v)
  {
    OctetsSize(k.salt);
    IntegerSize(k.iterations);
    if k.keyLength.Some? then
      IntegerSize(k.keyLength.value);
      var content := Octets(k.salt).full + Integer(k.iterations).full + Integer(k.keyLength.value).full +
          Prf(hasNull).full;
      SequenceSize(content);
      Sequence(content)
    else
      var content := Octets(k.salt).full + Integer(k.iterations).full + Prf(hasNull).full;
      SequenceSize(content);
      Sequence(content)
  }

  function Algorithm(oid: seq<nat>, parameters: RawValue): (v: RawValue)
    requires Known(oid) && |parameters.full| <= 1000
    ensures |v.full| <= |parameters.full| + 52 && Canonical(v)
  {
    OidSize(oid);
    SequenceSize(Oid(oid).full + parameters.full);
    Sequence(Oid(oid).full + parameters.full)
  }

  function AesOid(keySize: nat): (oid: seq<nat>)
    requires keySize == 16 || keySize == 24 || keySize == 32
    ensures Known(oid) && AesKeySize(oid) == Some(keySize)
  {
    if keySize == 16 then AES_128_CBC else if keySize == 24 then AES_192_CBC else AES_256_CBC
  }

  function CipherValue(c: Cipher): (v: RawValue)
    requires (c.keySize == 16 || c.keySize == 24 || c.keySize == 32) && |c.iv| == BLOCK_SIZE
    ensures |v.full| <= 80 && Canonical(v)
  {
    OctetsSize(c.iv);
    Algorithm(AesOid(c.keySize), Octets(c.iv))
  }

  function KdfOf(p: Params, form: Form): (k: Pbkdf2)
    requires p.InRange()
    ensures Pbkdf2InRange(k)
  {
    Pbkdf2(p.iterations, p.salt, if form.hasKeyLength then Some(p.keySize) else None)
  }

  function Scheme(p: Params, form: Form): (v: RawValue)
    requires p.InRange()
    ensures |v.full| <= 400 && Canonical(v)
  {
    var content := Algorithm(PBKDF2, Pbkdf2Params(KdfOf(p, form), form.hasNull)).full +
        CipherValue(Cipher(p.keySize, p.iv)).full;
    SequenceSize(content);
    Sequence(content)
  }

  function EncodeKey(p: Params, form: Form): seq<byte>
    requires p.InRange()
  {
    OctetsSize(p.ciphertext);
    Sequence(Algorithm(PBES2, Scheme(p, form)).full + Octets(p.ciphertext).full).full
  }

  // ---- each level is accepted exactly in its one form ----

  lemma SequenceIs(v: RawValue)
    requires Canonical(v) && IsSequence(v)
    ensures |v.content| < MAX_LENGTH && v == Sequence(v.content)
  {
  }

  lemma PrimitiveIs(v: RawValue, tag: nat)
    requires Canonical(v) && IsPrimitive(v, tag) && tag <= MAX_INT32
    ensures |v.content| < MAX_LENGTH && v == Primitive(tag, v.content)
  {
  }

  lemma CutTwo(content: seq<byte>, a: RawValue, b: RawValue)
    ensures Split(content) == Some([a, b]) <==> Canonical(a) && Canonical(b) && content == a.full + b.full
  {
    hide Canonical, Split;
    SplitExactly(content, [a, b]);
    ConcatFew([a, b]);
    assert AllCanonical([a, b]) <==> Canonical(a) && Canonical(b) by { assert a in [a, b] && b in [a, b]; }
  }

  lemma CutMore(content: seq<byte>, parts: seq<RawValue>)
    requires Split(content) == Some(parts)
    ensures forall i | 0 <= i < |parts| :: Canonical(parts[i])
    ensures |parts| == 1 ==> content == parts[0].full
    ensures |parts| == 2 ==> content == parts[0].full + parts[1].full
    ensures |parts| == 3 ==> content == parts[0].full + parts[1].full + parts[2].full
    ensures |parts| == 4 ==> content == parts[0].full + parts[1].full + parts[2].full + parts[3].full
  {
    hide Canonical, Split;
    SplitExactly(content, parts);
    forall i | 0 <= i < |parts| ensures Canonical(parts[i]) { assert parts[i] in parts; }
    ConcatFew(parts);
  }

  lemma ConcatFew(parts: seq<RawValue>)
    ensures |parts| == 1 ==> Concat(parts) == parts[0].full
    ensures |parts| == 2 ==> Concat(parts) == parts[0].full + parts[1].full
    ensures |parts| == 3 ==> Concat(parts) == parts[0].full + parts[1].full + parts[2].full
    ensures |parts| == 4 ==> Concat(parts) == parts[0].full + parts[1].full + parts[2].full + parts[3].full
  {
    if |parts| == 1 {
      assert Concat(parts[1..]) == [];
    } else if 2 <= |parts| <= 4 {
      ConcatFew(parts[1..]);
      var a, b := parts[0].full, parts[1].full;
      if |parts| >= 3 { Joins(a, b, parts[2].full); }
      if |parts| == 4 { Joins(a, b + parts[2].full, parts[3].full); }
    }
  }

  lemma CutOf(parts: seq<RawValue>)
    requires forall i | 0 <= i < |parts| :: Canonical(parts[i])
    ensures Split(Concat(parts)) == Some(parts)
  {
    hide Canonical, Split, Concat;
    assert AllCanonical(parts);
    SplitExactly(Concat(parts), parts);
  }

  lemma OidIs(v: RawValue, oid: seq<nat>)
    requires Canonical(v) && Known(oid)
    ensures IsPrimitive(v, TAG_OID) && ParseOid(v.content) == Some(oid) <==> v == Oid(oid)
  {
    hide Encode, EncodeOid, ParseOid, IsOid, Known;
    KnownSize(oid);
    ParseOidExactly(v.content, oid);
    if IsPrimitive(v, TAG_OID) { PrimitiveIs(v, TAG_OID); }
  }

  lemma AlgorithmRead(oid: seq<nat>, parameters: RawValue)
    requires Known(oid) && |parameters.full| <= 1000 && Canonical(parameters)
    ensures ParseAlgorithmIdentifier(Algorithm(oid, parameters)) == Some(AlgorithmIdentifier(oid, Some(parameters)))
  {
    hide Encode, EncodeOid, ParseOid, Known, Split, Canonical;
    OidSize(oid);
    OidIs(Oid(oid), oid);
    CutTwo(Oid(oid).full + parameters.full, Oid(oid), parameters);
  }

  lemma AlgorithmWritten(v: RawValue, oid: seq<nat>)
    requires Canonical(v) && Known(oid) && ParseAlgorithmIdentifier(v).Some? &&
               ParseAlgorithmIdentifier(v).value.algorithm == oid
    ensures IsSequence(v)
    ensures var p := ParseAlgorithmIdentifier(v).value.parameters;
            && (p.Some? ==> Canonical(p.value))
            && v.content == Oid(oid).full + if p.Some? then p.value.full else []
  {
    hide Encode, EncodeOid, ParseOid, Known, Split, Canonical, Oid;
    var parts := Split(v.content).value;
    CutMore(v.content, parts);
    OidIs(parts[0], oid);
  }

  lemma PrfRead(hasNull: bool)
    ensures PrfAccepted(Prf(hasNull)) && IsSequence(Prf(hasNull)) && !IsPrimitive(Prf(hasNull), TAG_INTEGER)
  {
    hide Encode, EncodeOid, ParseOid, Split, Canonical;
    OidSize(HMAC_SHA256);
    OidIs(Oid(HMAC_SHA256), HMAC_SHA256);
    NullCanonical();
    if hasNull {
      CutTwo(Oid(HMAC_SHA256).full + Null().full, Oid(HMAC_SHA256), Null());
    } else {
      CutOf([Oid(HMAC_SHA256)]);
      ConcatFew([Oid(HMAC_SHA256)]);
      assert Oid(HMAC_SHA256).full + [] == Oid(HMAC_SHA256).full;
    }
  }

  lemma NullCanonical()
    ensures Canonical(Null())
  {
  }

  lemma PrfWritten(v: RawValue) returns (hasNull: bool)
    requires Canonical(v) && PrfAccepted(v)
    ensures v == Prf(hasNull)
  {
    hide Encode, EncodeOid, ParseOid, Split, Canonical, Oid, ParseAlgorithmIdentifier;
    AlgorithmWritten(v, HMAC_SHA256);
    SequenceIs(v);
    var p := ParseAlgorithmIdentifier(v).value.parameters;
    hasNull := p.Some?;
    if hasNull { PrimitiveIs(p.value, TAG_NULL); }
  }

  lemma IntegerIs(v: RawValue, n: nat)
    requires Canonical(v) && 0 < n < 0x1_0000_0000
    ensures ParseIntValue(v) == Some(n) <==> v == Integer(n)
  {
    hide Encode, EncodePositive, ParseInt;
    BaseSize(n);
    ParsePositiveExactly(v.content, n);
    if IsPrimitive(v, TAG_INTEGER) { PrimitiveIs(v, TAG_INTEGER); }
  }

  /** The values of PBKDF2-params, in order. */
  function Pbkdf2Values(k: Pbkdf2, hasNull: bool): (parts: seq<RawValue>)
    requires Pbkdf2InRange(k)
    ensures forall i | 0 <= i < |parts| :: Canonical(parts[i])
  {
    OctetsSize(k.salt);
    IntegerSize(k.iterations);
    if k.keyLength.Some? then
      IntegerSize(k.keyLength.value);
      [Octets(k.salt), Integer(k.iterations), Integer(k.keyLength.value), Prf(hasNull)]
    else
      [Octets(k.salt), Integer(k.iterations), Prf(hasNull)]
  }

  lemma Pbkdf2Content(k: Pbkdf2, hasNull: bool)
    requires Pbkdf2InRange(k)
    ensures IsSequence(Pbkdf2Params(k, hasNull))
    ensures Split(Pbkdf2Params(k, hasNull).content) == Some(Pbkdf2Values(k, hasNull))
  {
    hide Encode, Canonical, Split, Octets, Integer, Prf, Concat;
    var parts := Pbkdf2Values(k, hasNull);
    CutOf(parts);
    ConcatFew(parts);
  }

  lemma Pbkdf2Read(k: Pbkdf2, hasNull: bool)
    requires Pbkdf2InRange(k)
    ensures ParsePbkdf2(Pbkdf2Params(k, hasNull)) == Some(k)
  {
    hide Encode, Canonical, Split, Prf, PrfAccepted, ParseInt, Pbkdf2Params, EncodePositive;
    Pbkdf2Content(k, hasNull);
    PrfRead(hasNull);
    IntegerSize(k.iterations);
    IntegerIs(Integer(k.iterations), k.iterations);
    if k.keyLength.Some? {
      IntegerSize(k.keyLength.value);
      IntegerIs(Integer(k.keyLength.value), k.keyLength.value);
    }
  }

  lemma Pbkdf2Written(v: RawValue) returns (hasNull: bool)
    requires Canonical(v) && ParsePbkdf2(v).Some? && Pbkdf2InRange(ParsePbkdf2(v).value)
    ensures v == Pbkdf2Params(ParsePbkdf2(v).value, hasNull)
  {
    hide Encode, Canonical, Split, Prf, PrfAccepted, ParseInt, EncodePositive, Integer;
    var k := ParsePbkdf2(v).value;
    var parts := Split(v.content).value;
    CutMore(v.content, parts);
    SequenceIs(v);
    PrimitiveIs(parts[0], TAG_OCTET_STRING);
    IntegerIs(parts[1], k.iterations);
    if k.keyLength.Some? { IntegerIs(parts[2], k.keyLength.value); }
    hasNull := PrfWritten(parts[|parts| - 1]);
  }

  lemma CipherRead(c: Cipher)
    requires (c.keySize == 16 || c.keySize == 24 || c.keySize == 32) && |c.iv| == BLOCK_SIZE
    ensures CipherOf(CipherValue(c)) == Some(c)
  {
    hide Encode, ParseAlgorithmIdentifier, Algorithm, AesOid, AesKeySize, Canonical;
    OctetsSize(c.iv);
    AlgorithmRead(AesOid(c.keySize), Octets(c.iv));
  }

  lemma CipherWritten(v: RawValue)
    requires Canonical(v) && CipherOf(v).Some?
    ensures var c := CipherOf(v).value;
            (c.keySize == 16 || c.keySize == 24 || c.keySize == 32) && |c.iv| == BLOCK_SIZE && v == CipherValue(c)
  {
    hide Encode, ParseAlgorithmIdentifier, Canonical, Oid;
    var alg := ParseAlgorithmIdentifier(v).value;
    AlgorithmWritten(v, alg.algorithm);
    SequenceIs(v);
    PrimitiveIs(alg.parameters.value, TAG_OCTET_STRING);
  }

  lemma KdfRead(k: Pbkdf2, hasNull: bool)
    requires Pbkdf2InRange(k)
    ensures Kdf(Algorithm(PBKDF2, Pbkdf2Params(k, hasNull))) == Some(k)
  {
    hide ParseAlgorithmIdentifier, Algorithm, Canonical, Pbkdf2Params, ParsePbkdf2;
    AlgorithmRead(PBKDF2, Pbkdf2Params(k, hasNull));
    Pbkdf2Read(k, hasNull);
    Pbkdf2Content(k, hasNull);
  }

  lemma KdfWritten(v: RawValue) returns (hasNull: bool)
    requires Canonical(v) && Kdf(v).Some? && Pbkdf2InRange(Kdf(v).value)
    ensures v == Algorithm(PBKDF2, Pbkdf2Params(Kdf(v).value, hasNull))
  {
    hide ParseAlgorithmIdentifier, Canonical, Pbkdf2Params, ParsePbkdf2, Oid;
    AlgorithmWritten(v, PBKDF2);
    SequenceIs(v);
    hasNull := Pbkdf2Written(AlgorithmParameters(v, PBKDF2).value);
  }

  lemma AlgorithmIs(v: RawValue, oid: seq<nat>)
    requires Canonical(v) && Known(oid) && AlgorithmParameters(v, oid).Some?
    ensures IsSequence(v) && Canonical(AlgorithmParameters(v, oid).value)
    ensures |AlgorithmParameters(v, oid).value.full| <= 1000 ==> v == Algorithm(oid, AlgorithmParameters(v, oid).value)
  {
    hide ParseAlgorithmIdentifier, Canonical, Oid;
    AlgorithmWritten(v, oid);
    SequenceIs(v);
  }

  lemma KdfRange(v: RawValue)
    requires Kdf(v).Some?
    ensures var k := Kdf(v).value;
            1 <= k.iterations <= MAX_ITERATIONS && 8 <= |k.salt| <= 64 && (k.keyLength.Some? ==> k.keyLength.value > 0)
  {
    hide Split, ParseAlgorithmIdentifier, PrfAccepted, ParseInt;
  }

  lemma SchemeRead(p: Params, form: Form)
    requires p.InRange()
    ensures IsSequence(Scheme(p, form)) && InspectScheme(Scheme(p, form), p.ciphertext) == Some(p)
  {
    hide Algorithm, Canonical, Pbkdf2Params, Kdf, CipherOf, CipherValue, Split, Encode;
    var k, c := KdfOf(p, form), Cipher(p.keySize, p.iv);
    KdfRead(k, form.hasNull);
    CipherRead(c);
    var a := Algorithm(PBKDF2, Pbkdf2Params(k, form.hasNull));
    CutTwo(a.full + CipherValue(c).full, a, CipherValue(c));
  }

  lemma SchemeWritten(v: RawValue, ciphertext: seq<byte>) returns (form: Form)
    requires Canonical(v)
    ensures InspectScheme(v, ciphertext).Some? ==>
              var p := InspectScheme(v, ciphertext).value;
              p.InRange() && p.ciphertext == ciphertext && v == Scheme(p, form)
  {
    hide Algorithm, Canonical, Pbkdf2Params, CipherValue, Split, Encode, PrfAccepted, ParseInt, CipherOf,
        ParseAlgorithmIdentifier, AlgorithmParameters;
    form := Form(false, false);
    if InspectScheme(v, ciphertext).None? { return; }
    var parts := Split(v.content).value;
    CutMore(v.content, parts);
    SequenceIs(v);
    CipherWritten(parts[1]);
    KdfRange(parts[0]);
    var hasNull := KdfWritten(parts[0]);
    var k := Kdf(parts[0]).value;
    form := Form(k.keyLength.Some?, hasNull);
  }

  // ---- main results ----

  /** Every in-range parameter set, in each of its forms, is inspected back unchanged. */
  lemma InspectEncoded(p: Params, form: Form)
    requires p.InRange()
    ensures Inspect(EncodeKey(p, form)) == Some(p)
    ensures LooksLikeEncryptedPkcs8(EncodeKey(p, form))
  {
    hide Algorithm, Canonical, Scheme, InspectScheme, ParseFull, Encode, Split, ParseAlgorithmIdentifier;
    var alg, body := Algorithm(PBES2, Scheme(p, form)), Octets(p.ciphertext);
    OctetsSize(p.ciphertext);
    var content := alg.full + body.full;
    SequenceSize(content);
    ParseFullExactly(EncodeKey(p, form), Sequence(content));
    CutTwo(content, alg, body);
    AlgorithmRead(PBES2, Scheme(p, form));
    SchemeRead(p, form);
    AlgorithmIs(alg, PBES2);
  }

  /** Nothing else is accepted: an inspected key is one of the two by two encodings of its parameters. */
  lemma InspectedIsEncoded(der: seq<byte>) returns (form: Form)
    ensures Inspect(der).Some? ==>
              Inspect(der).value.InRange() && der == EncodeKey(Inspect(der).value, form) && LooksLikeEncryptedPkcs8(der)
  {
    hide Algorithm, Canonical, Scheme, InspectScheme, ParseFull, Encode, Split, ParseAlgorithmIdentifier;
    form := Form(false, false);
    if Inspect(der).None? { return; }
    var outer := ParseFull(der).value;
    ParseFullExactly(der, outer);
    var parts := Split(outer.content).value;
    CutMore(outer.content, parts);
    SequenceIs(outer);
    PrimitiveIs(parts[1], TAG_OCTET_STRING);
    AlgorithmIs(parts[0], PBES2);
    form := SchemeWritten(AlgorithmParameters(parts[0], PBES2).value, parts[1].content);
  }

  /** Keys are accepted exactly when they encode in-range parameters. */
  lemma InspectExactly(der: seq<byte>, p: Params)
    ensures Inspect(der) == Some(p) <==> p.InRange() && exists form :: der == EncodeKey(p, form)
  {
    hide Inspect, Params.InRange, EncodeKey;
    if Inspect(der) == Some(p) {
      var form := InspectedIsEncoded(der);
    }
    if p.InRange() && exists form :: der == EncodeKey(p, form) {
      var form :| der == EncodeKey(p, form);
      InspectEncoded(p, form);
    }
  }

  /** A file looks like an encrypted key exactly when it is one sequence whose first part names PBES2. */
  lemma LooksExactly(der: seq<byte>, outer: RawValue, parts: seq<RawValue>)
    requires ParseFull(der) == Some(outer) && Split(outer.content) == Some(parts)
    ensures LooksLikeEncryptedPkcs8(der) <==>
              && outer.tagClass == 0 && outer.tag == 16 && outer.isCompound && parts != []
              && ParseAlgorithmIdentifier(parts[0]).Some?
              && ParseAlgorithmIdentifier(parts[0]).value.algorithm == [1, 2, 840, 113549, 1, 5, 13]
  {
    hide Split, ParseFull, Canonical;
  }
}
