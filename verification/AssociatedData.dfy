/** The authenticated data that binds a ciphertext to its record (internal/cryptoengine/keyengine.go). */
module AssociatedData {
  import opened Outcomes
  import opened Bytes
  import opened HexNumbers

  datatype SecretPurpose = CASigning | BootstrapCA | LeafDelivery | InternalTLS | StoreVerifier

  const STORE_VERIFIER_OWNER: string := "00000000-0000-4000-8000-000000000001"
  const SECRET_FORMAT_VERSION: int := 1
  const TWO_TO_32: nat := 0x1_0000_0000

  function PurposeText(p: SecretPurpose): string {
    match p
    case CASigning => "ca_signing"
    case BootstrapCA => "bootstrap_ca"
    case LeafDelivery => "leaf_delivery"
    case InternalTLS => "internal_tls"
    case StoreVerifier => "store_verifier"
  }

  /** The octets of an ASCII string; other characters never reach it. */
  function Octets(s: string): seq<byte> { seq(|s|, i requires 0 <= i < |s| => s[i] as int % 256) }

  /** binary.BigEndian.PutUint32 */
  function BigEndian32(n: int): (b: seq<byte>)
    ensures |b| == 4
  {
    [n / 0x100_0000 % 256, n / 0x1_0000 % 256, n / 0x100 % 256, n % 256]
  }

  function FromBigEndian(b: seq<byte>): nat
    requires |b| == 4
  {
    var d0: nat, d1: nat, d2: nat, d3: nat := b[0], b[1], b[2], b[3];
    d0 * 0x100_0000 + d1 * 0x1_0000 + d2 * 0x100 + d3
  }

  lemma BigEndianInverts(n: nat)
    ensures FromBigEndian(BigEndian32(n)) == n % TWO_TO_32
  {
    var a, b, c := n / 0x100, n / 0x1_0000, n / 0x100_0000;
    assert b == a / 256 && c == b / 256;
    assert n == 256 * a + n % 256 && a == 256 * b + a % 256 && b == 256 * c + b % 256 && c == 256 * (c / 256) + c % 256;
    var r := FromBigEndian(BigEndian32(n));
    assert n == (c / 256) * TWO_TO_32 + r && 0 <= r < TWO_TO_32;
  }

  /** appendField's addition; the length wraps at 32 bits. */
  function Field(value: seq<byte>): seq<byte> { BigEndian32(|value|) + value }

  function Join(fields: seq<seq<byte>>): seq<byte> {
    if fields == [] then [] else Field(fields[0]) + Join(fields[1..])
  }

  function DomainTag(): seq<byte> { Octets("cert-me/encrypted-secret/aad") + [0] }

  function Namespace(p: SecretPurpose): string {
    if p == StoreVerifier then "encryption_verifier" else "private_key_secrets"
  }

  function ValidateOwnerPurpose(owner: string, purpose: SecretPurpose): Result<()> {
    if !IsUuid(owner) then Err(InvalidValue)
    else if purpose == StoreVerifier then (if owner != STORE_VERIFIER_OWNER then Err(InvalidValue) else Ok(()))
    else if owner == STORE_VERIFIER_OWNER then Err(InvalidValue)
    else Ok(())
  }

  /** `trim` is strings.TrimSpace. */
  function Accepted(owner: string, purpose: SecretPurpose, format: int, generation: seq<byte>,
      trim: seq<byte> -> seq<byte>): bool {
    && ValidateOwnerPurpose(owner, purpose).Ok?
    && format == SECRET_FORMAT_VERSION && generation != [] && trim(generation) == generation
  }

  /**
   * One fixed owner belongs to the store verifier alone; format 1 and a trimmed generation are the only others
   * checks.
   */
  lemma AcceptedExactly(owner: string, purpose: SecretPurpose, format: int, generation: seq<byte>,
      trim: seq<byte> -> seq<byte>)
    ensures Accepted(owner, purpose, format, generation, trim) <==>
              && IsUuid(owner) && (purpose == StoreVerifier <==> owner == "00000000-0000-4000-8000-000000000001")
              && format == 1 && generation != [] && trim(generation) == generation
  {
    hide IsUuid;
  }

  function Fields(owner: string, purpose: SecretPurpose, format: int, generation: seq<byte>): seq<seq<byte>> {
    [Octets(Namespace(purpose)), Octets(owner), Octets(PurposeText(purpose)), BigEndian32(format), generation]
  }

  method AppendField(data: seq<byte>, value: seq<byte>) returns (r: seq<byte>)
    ensures r == data + Field(value)
  {
    var length := BigEndian32(|value|);
    r := data + length;
    r := r + value;
    assert r == data + (length + value);
  }

  method Build(owner: string, purpose: SecretPurpose, format: int, generation: seq<byte>, trim: seq<byte> -> seq<byte>)
    returns (r: Result<seq<byte>>)
    ensures r.Ok? <==> Accepted(owner, purpose, format, generation, trim)
    ensures r.Err? ==> r.error == InvalidValue
    ensures r.Ok? ==> r.value == DomainTag() + Join(Fields(owner, purpose, format, generation))
  {
    hide Field, Octets, BigEndian32, Join, PurposeText, Namespace, DomainTag;
    var checked := ValidateOwnerPurpose(owner, purpose);
    if checked.Err? { return Err(checked.error); }
    if format != SECRET_FORMAT_VERSION || generation == [] || trim(generation) != generation {
      return Err(InvalidValue);
    }
    var data := DomainTag();
    data := AppendField(data, Octets(Namespace(purpose)));
    data := AppendField(data, Octets(owner));
    data := AppendField(data, Octets(PurposeText(purpose)));
    data := AppendField(data, BigEndian32(format));
    data := AppendField(data, generation);
    JoinFive(DomainTag(), Octets(Namespace(purpose)), Octets(owner), Octets(PurposeText(purpose)),
        BigEndian32(format), generation);
    return Ok(data);
  }

  lemma JoinFive(tag: seq<byte>, a: seq<byte>, b: seq<byte>, c: seq<byte>, d: seq<byte>, e: seq<byte>)
    ensures tag + Field(a) + Field(b) + Field(c) + Field(d) + Field(e) == tag + Join([a, b, c, d, e])
  {
    hide Field, Join;
    AppendStep(tag, [], a);
    AppendStep(tag, [a], b);
    AppendStep(tag, [a, b], c);
    AppendStep(tag, [a, b, c], d);
    AppendStep(tag, [a, b, c, d], e);
    JoinNone(tag);
    assert [a] + [b] == [a, b] && [a, b] + [c] == [a, b, c];
    assert [a, b, c] + [d] == [a, b, c, d] && [a, b, c, d] + [e] == [a, b, c, d, e] && [] + [a] == [a];
  }

  lemma JoinNone(tag: seq<byte>)
    ensures tag + Join([]) == tag
  {
  }

  /** One more field appended. */
  lemma AppendStep(tag: seq<byte>, fields: seq<seq<byte>>, last: seq<byte>)
    ensures tag + Join(fields) + Field(last) == tag + Join(fields + [last])
  {
    hide Field, Join;
    JoinSnoc(fields, last);
    Joins(tag, Join(fields), Field(last));
  }

  lemma {:induction false} JoinSnoc(fields: seq<seq<byte>>, last: seq<byte>)
    ensures Join(fields + [last]) == Join(fields) + Field(last)
  {
    hide Field;
    if fields == [] {
      assert [last][1..] == [] && Join([last]) == Field(last) + [];
    } else {
      assert (fields + [last])[1..] == fields[1..] + [last];
      JoinSnoc(fields[1..], last);
    }
  }

  // ---- reading it back ----

  datatype Cut = Cut(value: seq<byte>, rest: seq<byte>)

  function ReadField(b: seq<byte>): Option<Cut> {
    if |b| < 4 then None
    else
      var n := FromBigEndian(b[..4]);
      if |b| < 4 + n then None else Some(Cut(b[4..4 + n], b[4 + n..]))
  }

  lemma ReadWritten(value: seq<byte>, rest: seq<byte>)
    requires |value| < TWO_TO_32
    ensures ReadField(Field(value) + rest) == Some(Cut(value, rest))
  {
    hide BigEndian32, FromBigEndian;
    var b := Field(value) + rest;
    assert b[..4] == BigEndian32(|value|);
    BigEndianInverts(|value|);
    assert b[4..4 + |value|] == value && b[4 + |value|..] == rest;
  }

  /** `count` fields and nothing after them. */
  function Split(b: seq<byte>, count: nat): Option<seq<seq<byte>>> {
    if count == 0 then (if b == [] then Some([]) else None)
    else
      var head := ReadField(b);
      if head == None then None
      else
        var tail := Split(head.value.rest, count - 1);
        if tail == None then None else Some([head.value.value] + tail.value)
  }

  /** Whatever is read is what was written: nothing else has these fields. */
  lemma {:induction false} SplitExactly(b: seq<byte>, fields: seq<seq<byte>>)
    requires forall f | f in fields :: |f| < TWO_TO_32
    ensures Split(b, |fields|) == Some(fields) <==> b == Join(fields)
    decreases |fields|
  {
    hide Field, ReadField;
    SplitJoin(fields);
    if fields != [] && Split(b, |fields|) == Some(fields) {
      var head := ReadField(b).value;
      ReadOnly(b);
      assert fields[0] == head.value && Split(head.rest, |fields| - 1).value == fields[1..];
      assert forall f | f in fields[1..] :: f in fields;
      SplitExactly(head.rest, fields[1..]);
    }
  }

  lemma ReadOnly(b: seq<byte>)
    requires ReadField(b).Some?
    ensures b == Field(ReadField(b).value.value) + ReadField(b).value.rest
  {
    var n := FromBigEndian(b[..4]);
    var d := b[..4];
    EndianBack(d[0], d[1], d[2], d[3]);
    assert b == b[..4] + (b[4..4 + n] + b[4 + n..]);
  }

  lemma EndianBack(d0: byte, d1: byte, d2: byte, d3: byte)
    ensures BigEndian32(FromBigEndian([d0, d1, d2, d3])) == [d0, d1, d2, d3]
  {
    var n := FromBigEndian([d0, d1, d2, d3]);
    var a, c, e := n / 0x100, n / 0x1_0000, n / 0x100_0000;
    assert n == 256 * (256 * (256 * d0 + d1) + d2) + d3;
    assert a == 256 * (256 * d0 + d1) + d2;
    assert c == 256 * d0 + d1;
    assert e == d0;
  }

  /** Any list of fields shorter than 2^32 octets each is read back from its bytes, so the layout is injective. */
  lemma {:induction false} SplitJoin(fields: seq<seq<byte>>)
    requires forall f | f in fields :: |f| < TWO_TO_32
    ensures Split(Join(fields), |fields|) == Some(fields)
  {
    hide Field, ReadField;
    if fields != [] {
      assert fields[0] in fields && forall f | f in fields[1..] :: f in fields;
      ReadWritten(fields[0], Join(fields[1..]));
      SplitJoin(fields[1..]);
      assert fields == [fields[0]] + fields[1..];
    }
  }

  lemma OctetsInjective(a: string, b: string)
    requires Octets(a) == Octets(b)
    requires (forall i | 0 <= i < |a| :: a[i] as int < 256) && (forall i | 0 <= i < |b| :: b[i] as int < 256)
    ensures a == b
  {
    assert |a| == |Octets(a)| == |Octets(b)| == |b|;
    forall i | 0 <= i < |a| ensures a[i] == b[i] {
      assert Octets(a)[i] == Octets(b)[i];
      assert a[i] as int == b[i] as int;
    }
  }

  lemma UuidAscii(s: string)
    requires IsUuid(s)
    ensures |s| == 36 && forall i | 0 <= i < |s| :: s[i] as int < 256
  {
    forall i | 0 <= i < |s| ensures s[i] as int < 256 {
      assert UuidPosition(i, s[i]);
    }
  }

  lemma PurposeInjective(p: SecretPurpose, q: SecretPurpose)
    requires Octets(PurposeText(p)) == Octets(PurposeText(q))
    ensures p == q
  {
    OctetsInjective(PurposeText(p), PurposeText(q));
    PurposesDiffer(p, q);
  }

  lemma PurposesDiffer(p: SecretPurpose, q: SecretPurpose)
    requires PurposeText(p) == PurposeText(q)
    ensures p == q
  {
    var s, t := PurposeText(p), PurposeText(q);
    assert |s| == |t| && s[0] == t[0];
  }

  /** The first four fields are short and the fifth runs to the end, so its wrapped length does not matter. */
  lemma HeadsAgree(a: seq<seq<byte>>, b: seq<seq<byte>>)
    requires |a| == |b| == 5 && Join(a) == Join(b)
    requires forall i | 0 <= i < 4 :: |a[i]| < TWO_TO_32 && |b[i]| < TWO_TO_32
    ensures a == b
  {
    hide Field, ReadField;
    PeelOne(a, b);
    PeelOne(a[1..], b[1..]);
    PeelOne(a[1..][1..], b[1..][1..]);
    PeelOne(a[1..][1..][1..], b[1..][1..][1..]);
    assert a[1..][1..][1..][1..] == [a[4]] && b[1..][1..][1..][1..] == [b[4]];
    assert a[1..][1..][1..][0] == a[3] && a[1..][1..][0] == a[2] && a[1..][0] == a[1];
    assert b[1..][1..][1..][0] == b[3] && b[1..][1..][0] == b[2] && b[1..][0] == b[1];
    LastAgrees(a[4], b[4]);
  }

  lemma PeelOne(a: seq<seq<byte>>, b: seq<seq<byte>>)
    requires a != [] && b != [] && Join(a) == Join(b) && |a[0]| < TWO_TO_32 && |b[0]| < TWO_TO_32
    ensures a[0] == b[0] && Join(a[1..]) == Join(b[1..])
  {
    hide Field, ReadField;
    ReadWritten(a[0], Join(a[1..]));
    ReadWritten(b[0], Join(b[1..]));
  }

  lemma LastAgrees(a: seq<byte>, b: seq<byte>)
    requires Join([a]) == Join([b])
    ensures a == b
  {
    assert Join([a])[4..] == a && Join([b])[4..] == b;
  }

  /**
   * Equal authenticated data means the same owner, purpose, format and generation, whatever the generation's length.
   */
  lemma Injective(owner: string, purpose: SecretPurpose, format: int, generation: seq<byte>,
                  owner': string, purpose': SecretPurpose, format': int, generation': seq<byte>,
                      trim: seq<byte> -> seq<byte>)
    requires Accepted(owner, purpose, format, generation, trim) &&
               Accepted(owner', purpose', format', generation', trim)
    requires DomainTag() + Join(Fields(owner, purpose, format, generation)) ==
               DomainTag() + Join(Fields(owner', purpose', format', generation'))
    ensures owner == owner' && purpose == purpose' && format == format' && generation == generation'
  {
    hide Join, Octets, DomainTag, PurposeText, Namespace;
    var a, b := Fields(owner, purpose, format, generation), Fields(owner', purpose', format', generation');
    var n := |DomainTag()|;
    assert (DomainTag() + Join(a))[n..] == Join(a) && (DomainTag() + Join(b))[n..] == Join(b);
    UuidAscii(owner);
    UuidAscii(owner');
    ShortFields(owner, purpose, format, generation);
    ShortFields(owner', purpose', format', generation');
    HeadsAgree(a, b);
    OctetsInjective(owner, owner');
    PurposeInjective(purpose, purpose');
  }

  lemma ShortFields(owner: string, purpose: SecretPurpose, format: int, generation: seq<byte>)
    requires |owner| == 36
    ensures forall i | 0 <= i < 4 :: |Fields(owner, purpose, format, generation)[i]| < TWO_TO_32
  {
  }

  // ---- the octets of the layout ----

  function Ascii(s: string): seq<int> { seq(|s|, i requires 0 <= i < |s| => s[i] as int) }

  lemma TagOctets()
    ensures DomainTag() == [99, 101, 114, 116, 45, 109, 101, 47, 101, 110, 99, 114, 121, 112, 116, 101, 100, 45, 115,
              101, 99, 114,
                            101, 116, 47, 97, 97, 100, 0]
  {
  }

  /** The store of the record, and the name of its purpose, as they enter the data. */
  lemma NamesExactly(p: SecretPurpose)
    ensures Namespace(p) == "encryption_verifier" <==> p == StoreVerifier
    ensures p != StoreVerifier ==> Namespace(p) == "private_key_secrets"
    ensures PurposeText(CASigning) == "ca_signing" && PurposeText(BootstrapCA) == "bootstrap_ca"
    ensures PurposeText(LeafDelivery) == "leaf_delivery" && PurposeText(InternalTLS) == "internal_tls"
    ensures PurposeText(StoreVerifier) == "store_verifier"
  {
  }

  predicate Small(text: string) { |text| < 256 && forall i | 0 <= i < |text| :: text[i] as int < 256 }

  lemma NamesAscii(p: SecretPurpose)
    ensures Small(Namespace(p)) && Small(PurposeText(p))
  {
    PurposeAscii(p);
    hide PurposeText;
  }

  lemma PurposeAscii(p: SecretPurpose)
    ensures Small(PurposeText(p))
  {
    assert Small("ca_signing") && Small("bootstrap_ca") && Small("leaf_delivery");
    assert Small("internal_tls") && Small("store_verifier");
    hide Small;
  }

  lemma SmallField(text: string)
    requires Small(text)
    ensures Field(Octets(text)) == [0, 0, 0, |text|] + Ascii(text)
  {
    assert Octets(text) == Ascii(text);
  }

  lemma FormatField(generation: seq<byte>)
    ensures Field(BigEndian32(1)) == [0, 0, 0, 4] + [0, 0, 0, 1]
    ensures Field(generation) == BigEndian32(|generation|) + generation
  {
  }

  /** The fields in their order, each behind its length: record, owner, purpose, format and generation. */
  lemma LayoutExactly(owner: string, purpose: SecretPurpose, generation: seq<byte>)
    requires IsUuid(owner)
    ensures
      var store, use := Namespace(purpose), PurposeText(purpose);
      Join(Fields(owner, purpose, 1, generation)) ==
      ([0, 0, 0, |store|] + Ascii(store)) + ([0, 0, 0, 36] + Ascii(owner)) + ([0, 0, 0, |use|] + Ascii(use))
      + ([0, 0, 0, 4] + [0, 0, 0, 1]) + (BigEndian32(|generation|) + generation)
  {
    var store, use := Namespace(purpose), PurposeText(purpose);
    NamesAscii(purpose);
    UuidAscii(owner);
    hide Join, Field, Octets, Ascii, Namespace, PurposeText, IsUuid, BigEndian32;
    SmallField(store);
    SmallField(owner);
    SmallField(use);
    FormatField(generation);
    JoinFive([], Octets(store), Octets(owner), Octets(use), BigEndian32(1), generation);
    assert [] + Field(Octets(store)) == Field(Octets(store));
    assert forall data: seq<byte> :: [] + data == data;
  }
}
