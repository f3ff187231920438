/**
 * DER tag-length-value reading as Go's encoding/asn1 does it for raw values, and the parser helpers built on it
 * (internal/cryptoformats/pki_parser.go). Lengths follow section 10.1 of X.690.
 */
module Der {
  import opened Outcomes
  import opened Bytes

  datatype RawValue = RawValue(tagClass: nat, tag: nat, isCompound: bool, content: seq<byte>, full: seq<byte>)

  const MAX_INT32: nat := 0x7FFF_FFFF

  datatype Read<+T> = Read(value: T, rest: seq<byte>)

  // ---- base 128, for high tag numbers and object identifiers ----

  function Prefix128(n: nat): seq<byte> {
    if n == 0 then [] else Prefix128(n / 128) + [128 + n % 128]
  }

  function Base128(n: nat): seq<byte> { Prefix128(n / 128) + [n % 128] }

  function ReadBase128(b: seq<byte>, shifted: nat, acc: nat): Option<Read<nat>> {
    if b == [] || shifted == 5 then None
    else if shifted == 0 && b[0] == 128 then None
    else
      var n: nat := acc * 128 + b[0] % 128;
      if b[0] >= 128 then ReadBase128(b[1..], shifted + 1, n)
      else if n > MAX_INT32 then None
      else Some(Read(n, b[1..]))
  }

  lemma {:induction false} PrefixLength(n: nat, k: nat)
    requires n < Pow128(k)
    ensures |Prefix128(n)| <= k
  {
    if n > 0 {
      PrefixLength(n / 128, k - 1);
    }
  }

  function Pow128(k: nat): nat { if k == 0 then 1 else 128 * Pow128(k - 1) }

  lemma ReadMore(acc: nat, c: byte, tail: seq<byte>, shifted: nat)
    requires c >= 128 && shifted < 5 && (shifted == 0 ==> c != 128)
    ensures ReadBase128([c] + tail, shifted, acc) == ReadBase128(tail, shifted + 1, acc * 128 + (c - 128))
  {
    assert ([c] + tail)[1..] == tail;
  }

  lemma {:induction false} ReadPrefix(n: nat, tail: seq<byte>)
    requires |Prefix128(n)| <= 4
    ensures ReadBase128(Prefix128(n) + tail, 0, 0) == ReadBase128(tail, |Prefix128(n)|, n)
  {
    hide ReadBase128;
    if n == 0 {
      assert Prefix128(n) + tail == tail;
    } else {
      var last := [128 + n % 128];
      Joins(Prefix128(n / 128), last, tail);
      ReadPrefix(n / 128, last + tail);
      assert n / 128 == 0 ==> n % 128 == n && Prefix128(n / 128) == [];
      assert n / 128 > 0 ==> |Prefix128(n / 128)| > 0;
      ReadMore(n / 128, 128 + n % 128, tail, |Prefix128(n / 128)|);
      assert n / 128 * 128 + n % 128 == n;
    }
  }

  lemma ShortPrefix(n: nat)
    requires n <= MAX_INT32
    ensures |Prefix128(n / 128)| <= 4
  {
    assert Pow128(4) == 0x1000_0000;
    PrefixLength(n / 128, 4);
  }

  lemma ReadLast128(n: nat, rest: seq<byte>, shifted: nat)
    requires n <= MAX_INT32 && shifted <= 4
    ensures ReadBase128([n % 128] + rest, shifted, n / 128) == Some(Read(n, rest))
  {
    assert ([n % 128] + rest)[1..] == rest;
  }

  lemma ReadWritten128(n: nat, rest: seq<byte>)
    requires n <= MAX_INT32
    ensures ReadBase128(Base128(n) + rest, 0, 0) == Some(Read(n, rest))
  {
    hide ReadBase128, Prefix128;
    ShortPrefix(n);
    var last := [n % 128];
    Joins(Prefix128(n / 128), last, rest);
    assert Base128(n) + rest == Prefix128(n / 128) + (last + rest);
    ReadPrefix(n / 128, last + rest);
    ReadLast128(n, rest, |Prefix128(n / 128)|);
  }

  /** Only the minimal form is accepted. */
  lemma {:induction false} Written128(b: seq<byte>, shifted: nat, acc: nat)
    requires ReadBase128(b, shifted, acc).Some? && (shifted == 0 <==> acc == 0)
    ensures var r := ReadBase128(b, shifted, acc).value;
            Prefix128(acc) + b == Base128(r.value) + r.rest && r.value <= MAX_INT32
    decreases |b|
  {
    var n := acc * 128 + b[0] % 128;
    assert b == [b[0]] + b[1..];
    assert n / 128 == acc && n % 128 == b[0] % 128;
    if b[0] >= 128 {
      Written128(b[1..], shifted + 1, n);
      assert Prefix128(n) == Prefix128(acc) + [b[0]];
    }
    assert Prefix128(acc) + b == (Prefix128(acc) + [b[0]]) + b[1..];
  }

  // ---- lengths ----

  function Base256(n: nat): seq<byte> {
    if n == 0 then [] else Base256(n / 256) + [n % 256]
  }

  const MAX_LENGTH: nat := 0x8000_0000

  function EncodeLength(n: nat): seq<byte>
    requires n < MAX_LENGTH
  {
    if n < 128 then [n] else LengthSize(n); [128 + |Base256(n)|] + Base256(n)
  }

  lemma LengthSize(n: nat)
    ensures 0 < n < MAX_LENGTH ==> 1 <= |Base256(n)| <= 4
  {
    var a, b, c := n / 256, n / 256 / 256, n / 256 / 256 / 256;
    assert n < MAX_LENGTH ==> c < 128 && Base256(c / 256) == [];
    assert |Base256(b)| <= |Base256(c)| + 1 && |Base256(a)| <= |Base256(b)| + 1;
  }

  /** Each octet is shifted in only while the length is below 2^23, and a leading zero is refused. */
  function ReadLengthOctets(b: seq<byte>, count: nat, acc: nat): Option<Read<nat>> {
    if count == 0 then Some(Read(acc, b))
    else if b == [] || acc >= 0x80_0000 then None
    else if acc == 0 && b[0] == 0 then None
    else ReadLengthOctets(b[1..], count - 1, acc * 256 + b[0])
  }

  function ReadLength(b: seq<byte>): Option<Read<nat>> {
    if b == [] then None
    else if b[0] < 128 then Some(Read(b[0] as nat, b[1..]))
    else if b[0] == 128 then None
    else
      var r := ReadLengthOctets(b[1..], b[0] - 128, 0);
      if r.Some? && r.value.value < 128 then None else r
  }

  lemma {:induction false} ReadOctets(n: nat, tail: seq<byte>, extra: nat)
    requires n < MAX_LENGTH
    ensures ReadLengthOctets(Base256(n) + tail, |Base256(n)| + extra, 0) == ReadLengthOctets(tail, extra, n)
  {
    if n == 0 {
      assert Base256(n) + tail == tail;
    } else {
      var last := [n % 256];
      assert Base256(n) + tail == Base256(n / 256) + (last + tail);
      ReadOctets(n / 256, last + tail, extra + 1);
      assert (last + tail)[1..] == tail;
    }
  }

  lemma {:induction false} WrittenOctets(b: seq<byte>, count: nat, acc: nat)
    requires ReadLengthOctets(b, count, acc).Some? && acc < MAX_LENGTH
    ensures var r := ReadLengthOctets(b, count, acc).value;
            && Base256(acc) + b == Base256(r.value) + r.rest && r.value < MAX_LENGTH
            && |Base256(r.value)| == |Base256(acc)| + count
  {
    if count > 0 {
      var n := acc * 256 + b[0];
      assert n / 256 == acc && n % 256 == b[0];
      assert Base256(n) == Base256(acc) + [b[0]];
      assert b == [b[0]] + b[1..];
      assert Base256(acc) + b == Base256(n) + b[1..];
      WrittenOctets(b[1..], count - 1, n);
    }
  }

  lemma BaseZero(b: seq<byte>)
    ensures Base256(0) == [] && Base256(0) + b == b
  {
  }

  lemma ReadWrittenLength(n: nat, rest: seq<byte>)
    requires n < MAX_LENGTH
    ensures ReadLength(EncodeLength(n) + rest) == Some(Read(n, rest))
  {
    if n >= 128 {
      LengthSize(n);
      var b := EncodeLength(n) + rest;
      assert b[1..] == Base256(n) + rest;
      ReadOctets(n, rest, 0);
    }
  }

  lemma WrittenLong(b: seq<byte>)
    requires b != [] && b[0] > 128 && ReadLengthOctets(b[1..], b[0] - 128, 0).Some?
    ensures var r := ReadLengthOctets(b[1..], b[0] - 128, 0).value;
            r.value < MAX_LENGTH && b == [128 + |Base256(r.value)|] + Base256(r.value) + r.rest
  {
    hide ReadLengthOctets, Base256;
    BaseZero(b[1..]);
    WrittenOctets(b[1..], b[0] - 128, 0);
    var r := ReadLengthOctets(b[1..], b[0] - 128, 0).value;
    HeadTail(b);
    Joins([b[0]], Base256(r.value), r.rest);
  }

  lemma WrittenLength(b: seq<byte>)
    requires ReadLength(b).Some?
    ensures var r := ReadLength(b).value; r.value < MAX_LENGTH && b == EncodeLength(r.value) + r.rest
  {
    hide ReadLengthOctets, Base256;
    if b[0] > 128 {
      WrittenLong(b);
    } else {
      assert b == [b[0]] + b[1..];
    }
  }

  // ---- whole values ----

  function Identifier(tagClass: nat, isCompound: bool, tag: nat): seq<byte>
    requires tagClass < 4
  {
    var high := 64 * tagClass + if isCompound then 32 else 0;
    if tag < 31 then [high + tag] else [high + 31] + Base128(tag)
  }

  predicate Encodable(tagClass: nat, tag: nat, content: seq<byte>) {
    tagClass < 4 && tag <= MAX_INT32 && |content| < MAX_LENGTH
  }

  function Encode(tagClass: nat, isCompound: bool, tag: nat, content: seq<byte>): seq<byte>
    requires Encodable(tagClass, tag, content)
  {
    Identifier(tagClass, isCompound, tag) + (EncodeLength(|content|) + content)
  }

  function Value(tagClass: nat, isCompound: bool, tag: nat, content: seq<byte>): RawValue
    requires Encodable(tagClass, tag, content)
  {
    RawValue(tagClass, tag, isCompound, content, Encode(tagClass, isCompound, tag, content))
  }

  function ReadTag(b: seq<byte>): Option<Read<nat>> {
    if b == [] then None
    else if b[0] % 32 < 31 then Some(Read(b[0] % 32, b[1..]))
    else
      var r := ReadBase128(b[1..], 0, 0);
      if r.Some? && r.value.value < 31 then None else r
  }

  function ReadContent(b: seq<byte>): Option<Read<seq<byte>>> {
    var length := ReadLength(b);
    if length == None || |length.value.rest| < length.value.value then None
    else Some(Read(length.value.rest[..length.value.value], length.value.rest[length.value.value..]))
  }

  /** asn1.Unmarshal into a RawValue. */
  function Unmarshal(b: seq<byte>): Option<Read<RawValue>> {
    var tag := ReadTag(b);
    if tag == None then None
    else
      var content := ReadContent(tag.value.rest);
      if content == None then None
      else
        var rest := content.value.rest;
        Some(Read(RawValue(b[0] / 64, tag.value.value, b[0] / 32 % 2 == 1, content.value.value,
                           if |rest| <= |b| then b[..|b| - |rest|] else []),
                  rest))
  }

  /** A value that came out of the reader: its bytes are the one encoding of its fields. */
  predicate Canonical(v: RawValue) {
    Encodable(v.tagClass, v.tag, v.content) && v.full == Encode(v.tagClass, v.isCompound, v.tag, v.content)
  }

  lemma ReadWrittenTag(tagClass: nat, isCompound: bool, tag: nat, rest: seq<byte>)
    requires tagClass < 4 && tag <= MAX_INT32
    ensures var b := Identifier(tagClass, isCompound, tag) + rest;
            && ReadTag(b) == Some(Read(tag, rest))
            && b[0] / 64 == tagClass && b[0] / 32 % 2 == if isCompound then 1 else 0
  {
    hide ReadBase128, Base128;
    var b := Identifier(tagClass, isCompound, tag) + rest;
    if tag < 31 {
      assert b[1..] == rest;
    } else {
      assert b[1..] == Base128(tag) + rest;
      ReadWritten128(tag, rest);
    }
  }

  lemma WrittenBase128(b: seq<byte>)
    requires ReadBase128(b, 0, 0).Some?
    ensures var r := ReadBase128(b, 0, 0).value; r.value <= MAX_INT32 && b == Base128(r.value) + r.rest
  {
    hide ReadBase128, Base128;
    Written128(b, 0, 0);
    assert Prefix128(0) + b == b;
  }

  lemma WrittenHighTag(b: seq<byte>)
    requires b != [] && ReadBase128(b[1..], 0, 0).Some?
    ensures var r := ReadBase128(b[1..], 0, 0).value; r.value <= MAX_INT32 && b == [b[0]] + Base128(r.value) + r.rest
  {
    hide *;
    WrittenBase128(b[1..]);
    var r := ReadBase128(b[1..], 0, 0).value;
    HeadTail(b);
    Joins([b[0]], Base128(r.value), r.rest);
  }

  lemma TagOctet(x: byte)
    ensures x == 64 * (x / 64) + (if x / 32 % 2 == 1 then 32 else 0) + x % 32
  {
  }

  lemma WrittenTag(b: seq<byte>)
    requires ReadTag(b).Some?
    ensures var r := ReadTag(b).value;
            && r.value <= MAX_INT32
            && b == Identifier(b[0] / 64, b[0] / 32 % 2 == 1, r.value) + r.rest
  {
    hide ReadBase128, Base128;
    TagOctet(b[0]);
    if b[0] % 32 == 31 {
      WrittenHighTag(b);
    } else {
      assert b == [b[0]] + b[1..];
    }
  }

  lemma ReadWrittenContent(content: seq<byte>, rest: seq<byte>)
    requires |content| < MAX_LENGTH
    ensures ReadContent(EncodeLength(|content|) + content + rest) == Some(Read(content, rest))
  {
    var n := |content|;
    assert EncodeLength(n) + content + rest == EncodeLength(n) + (content + rest);
    ReadWrittenLength(n, content + rest);
    assert (content + rest)[..n] == content && (content + rest)[n..] == rest;
  }

  lemma WrittenContent(b: seq<byte>)
    requires ReadContent(b).Some?
    ensures var r := ReadContent(b).value; |r.value| < MAX_LENGTH && b == EncodeLength(|r.value|) + r.value + r.rest
  {
    hide ReadLength, EncodeLength;
    WrittenLength(b);
    var length := ReadLength(b).value;
    assert length.rest == length.rest[..length.value] + length.rest[length.value..];
  }

  /** Reading what was encoded gives the value and what follows it. */
  lemma ReadEncoded(tagClass: nat, isCompound: bool, tag: nat, content: seq<byte>, rest: seq<byte>)
    requires Encodable(tagClass, tag, content)
    ensures Unmarshal(Encode(tagClass, isCompound, tag, content) + rest) ==
              Some(Read(Value(tagClass, isCompound, tag, content), rest))
  {
    hide Identifier, EncodeLength, ReadTag, ReadContent;
    var body := EncodeLength(|content|) + content;
    var full := Encode(tagClass, isCompound, tag, content);
    var b := full + rest;
    assert b == Identifier(tagClass, isCompound, tag) + (body + rest);
    ReadWrittenTag(tagClass, isCompound, tag, body + rest);
    ReadWrittenContent(content, rest);
    assert b[..|b| - |rest|] == full;
  }

  lemma UnmarshalNeeds(b: seq<byte>)
    requires Unmarshal(b).Some?
    ensures b != [] && ReadTag(b).Some? && ReadContent(ReadTag(b).value.rest).Some?
  {
    hide ReadContent;
  }

  lemma IdentifierNonEmpty(tagClass: nat, isCompound: bool, tag: nat)
    requires tagClass < 4
    ensures Identifier(tagClass, isCompound, tag) != []
  {
  }

  /** Whatever the reader accepts is canonical, and its bytes come first in the input. */
  lemma EncodedRead(b: seq<byte>)
    requires Unmarshal(b).Some?
    ensures var r := Unmarshal(b).value; Canonical(r.value) && b == r.value.full + r.rest && |r.value.full| > 0
  {
    hide EncodeLength, Base128, ReadContent, ReadTag, Identifier;
    UnmarshalNeeds(b);
    WrittenTag(b);
    var tag := ReadTag(b).value;
    WrittenContent(tag.rest);
    var content := ReadContent(tag.rest).value;
    var id := Identifier(b[0] / 64, b[0] / 32 % 2 == 1, tag.value);
    var body := EncodeLength(|content.value|) + content.value;
    Joins(id, body, content.rest);
    IdentifierNonEmpty(b[0] / 64, b[0] / 32 % 2 == 1, tag.value);
    assert b[..|b| - |content.rest|] == id + body;
  }

  // ---- the parser's helpers ----

  const TAG_INTEGER: nat := 2
  const TAG_OCTET_STRING: nat := 4
  const TAG_NULL: nat := 5
  const TAG_OID: nat := 6
  const TAG_SEQUENCE: nat := 16

  predicate IsSequence(v: RawValue) { v.tagClass == 0 && v.tag == TAG_SEQUENCE && v.isCompound }

  predicate IsPrimitive(v: RawValue, tag: nat) { v.tagClass == 0 && v.tag == tag && !v.isCompound }

  function Sequence(content: seq<byte>): RawValue
    requires |content| < MAX_LENGTH
  {
    Value(0, true, TAG_SEQUENCE, content)
  }

  function Primitive(tag: nat, content: seq<byte>): RawValue
    requires tag <= MAX_INT32 && |content| < MAX_LENGTH
  {
    Value(0, false, tag, content)
  }

  /** parseASN1Full: one value and nothing after it. */
  function ParseFull(der: seq<byte>): Option<RawValue> {
    var r := Unmarshal(der);
    if r == None || r.value.rest != [] || r.value.value.full != der then None else Some(r.value.value)
  }

  /** What is accepted as one whole value is exactly an encoding. */
  lemma ParseFullExactly(der: seq<byte>, v: RawValue)
    ensures ParseFull(der) == Some(v) <==> Canonical(v) && v.full == der
  {
    hide Unmarshal, Encode;
    if Unmarshal(der).Some? {
      EncodedRead(der);
      assert Unmarshal(der).value.rest == [] ==> der == Unmarshal(der).value.value.full;
    }
    if Canonical(v) && v.full == der {
      ReadEncoded(v.tagClass, v.isCompound, v.tag, v.content, []);
      assert v.full + [] == der;
    }
  }

  function Concat(parts: seq<RawValue>): seq<byte> {
    if parts == [] then [] else parts[0].full + Concat(parts[1..])
  }

  function Split(content: seq<byte>): Option<seq<RawValue>>
    decreases |content|
  {
    if content == [] then Some([])
    else
      var r := Unmarshal(content);
      if r == None || |r.value.rest| >= |content| then None
      else
        var more := Split(r.value.rest);
        if more == None then None else Some([r.value.value] + more.value)
  }

  ghost predicate AllCanonical(parts: seq<RawValue>) { forall v | v in parts :: Canonical(v) }

  /** The values found are the one way to cut the content into encodings: their bytes joined are exactly the content. */
  lemma {:induction false} SplitExactly(content: seq<byte>, parts: seq<RawValue>)
    ensures Split(content) == Some(parts) <==> AllCanonical(parts) && Concat(parts) == content
    decreases |content|, |parts|
  {
    hide Unmarshal, Canonical;
    if content == [] {
      if parts != [] && AllCanonical(parts) {
        CanonicalNonEmpty(parts[0]);
      }
    } else if Unmarshal(content).None? {
      if parts != [] && AllCanonical(parts) && Concat(parts) == content {
        CanonicalReads(parts[0], Concat(parts[1..]));
      }
    } else {
      EncodedRead(content);
      var r := Unmarshal(content).value;
      if parts != [] {
        assert parts == [parts[0]] + parts[1..];
        SplitExactly(r.rest, parts[1..]);
        if AllCanonical(parts) && Concat(parts) == content {
          CanonicalReads(parts[0], Concat(parts[1..]));
          assert AllCanonical(parts[1..]);
        }
        if Split(content) == Some(parts) {
          assert parts[0] == r.value && parts[1..] == Split(r.rest).value;
        }
      }
    }
  }

  lemma CanonicalNonEmpty(v: RawValue)
    requires Canonical(v)
    ensures v.full != []
  {
  }

  lemma CanonicalReads(v: RawValue, rest: seq<byte>)
    requires Canonical(v)
    ensures Unmarshal(v.full + rest) == Some(Read(v, rest))
  {
    ReadEncoded(v.tagClass, v.isCompound, v.tag, v.content, rest);
  }

  /** sequenceParts: the loop over the content; it ends on every input because each value takes at least one octet. */
  method SequenceParts(sequence: RawValue) returns (parts: Option<seq<RawValue>>)
    ensures parts == if IsSequence(sequence) then Split(sequence.content) else None
    ensures parts.Some? ==> Concat(parts.value) == sequence.content && AllCanonical(parts.value)
  {
    hide Unmarshal, Canonical, Concat, Joined;
    if !IsSequence(sequence) { return None; }
    var content := sequence.content;
    var found: seq<RawValue> := [];
    JoinedEmpty(found, Split(content));
    while |content| > 0
      invariant Split(sequence.content) == Joined(found, Split(content))
      decreases |content|
    {
      var r := Unmarshal(content);
      if r == None || |r.value.rest| >= |content| {
        JoinedEmpty(found, None);
        return None;
      }
      var value := r.value.value;
      JoinedMore(found, value, Split(r.value.rest));
      found := found + [value];
      content := r.value.rest;
    }
    JoinedEmpty(found, Some([]));
    SplitExactly(sequence.content, found);
    return Some(found);
  }

  function Joined(found: seq<RawValue>, more: Option<seq<RawValue>>): Option<seq<RawValue>> {
    if more == None then None else Some(found + more.value)
  }

  lemma JoinedEmpty(found: seq<RawValue>, more: Option<seq<RawValue>>)
    ensures Joined([], more) == more
    ensures Joined(found, Some([])) == Some(found)
    ensures Joined(found, None) == None
  {
    if more.Some? { assert [] + more.value == more.value; }
    assert found + [] == found;
  }

  lemma JoinedMore(found: seq<RawValue>, v: RawValue, more: Option<seq<RawValue>>)
    ensures Joined(found, if more == None then None else Some([v] + more.value)) == Joined(found + [v], more)
  {
    if more.Some? { assert found + ([v] + more.value) == found + [v] + more.value; }
  }

  // ---- integers and object identifiers ----

  function Unsigned(b: seq<byte>): nat {
    if b == [] then 0 else Unsigned(b[..|b| - 1]) * 256 + b[|b| - 1]
  }

  function Pow256(k: nat): nat { if k == 0 then 1 else 256 * Pow256(k - 1) }

  /** Two's complement of at most eight octets, minimally encoded. */
  function ParseInt(content: seq<byte>): Option<int> {
    if content == [] then None
    else if |content| > 1 && ((content[0] == 0 && content[1] < 128) || (content[0] == 255 && content[1] >= 128))
        then None
    else if |content| > 8 then None
    else Some(Unsigned(content) - if content[0] >= 128 then Pow256(|content|) else 0)
  }

  function EncodePositive(n: nat): seq<byte>
    requires n > 0
  {
    var b := Base256(n);
    BaseStarts(n);
    if b[0] >= 128 then [0] + b else b
  }

  lemma {:induction false} BaseStarts(n: nat)
    requires n > 0
    ensures Base256(n) != [] && Base256(n)[0] != 0
  {
    if n >= 256 { BaseStarts(n / 256); }
  }

  lemma {:induction false} UnsignedBase(n: nat)
    ensures Unsigned(Base256(n)) == n
  {
    if n > 0 {
      UnsignedBase(n / 256);
      assert Base256(n)[..|Base256(n)| - 1] == Base256(n / 256);
    }
  }

  lemma {:induction false} BaseUnsigned(b: seq<byte>)
    requires b == [] || b[0] != 0
    ensures Base256(Unsigned(b)) == b
  {
    if b != [] {
      var m := b[..|b| - 1];
      BaseUnsigned(m);
      assert b == m + [b[|b| - 1]];
      assert Unsigned(b) / 256 == Unsigned(m) && Unsigned(b) % 256 == b[|b| - 1];
    }
  }

  lemma {:induction false} UnsignedLeadingZero(b: seq<byte>)
    ensures Unsigned([0] + b) == Unsigned(b)
  {
    if b != [] {
      UnsignedLeadingZero(b[..|b| - 1]);
      assert ([0] + b)[..|b|] == [0] + b[..|b| - 1];
    } else {
      assert ([0] + b)[..0] == [];
    }
  }

  lemma {:induction false} UnsignedBound(b: seq<byte>)
    ensures Unsigned(b) < Pow256(|b|)
  {
    if b != [] { UnsignedBound(b[..|b| - 1]); }
  }

  lemma BaseSize(n: nat)
    requires n < 0x1_0000_0000
    ensures |Base256(n)| <= 4
  {
    var a, b, c := n / 256, n / 256 / 256, n / 256 / 256 / 256;
    assert c < 256 && Base256(c / 256) == [];
    assert |Base256(b)| <= |Base256(c)| + 1 && |Base256(a)| <= |Base256(b)| + 1;
  }

  lemma {:induction false} UnsignedHead(b: seq<byte>)
    requires b != []
    ensures Unsigned(b) == b[0] * Pow256(|b| - 1) + Unsigned(b[1..])
  {
    if |b| > 1 {
      var m := b[..|b| - 1];
      UnsignedHead(m);
      assert b[1..][..|b| - 2] == m[1..];
      Shifted(b[0], Pow256(|b| - 2), Unsigned(m[1..]), b[|b| - 1]);
    }
  }

  lemma Shifted(a: nat, p: nat, u: nat, c: nat)
    ensures (a * p + u) * 256 + c == a * (256 * p) + (u * 256 + c)
  {
  }

  lemma MulLe(a: int, b: int, p: int)
    requires a <= b && p >= 0
    ensures a * p <= b * p
  {
  }

  /** The range of a * p + u by a; `ap` is a * p. */
  lemma HeadRange(a: int, p: int, u: int, ap: int)
    requires 0 <= a < 256 && 0 <= u < p && ap == a * p
    ensures ap + u < 256 * p && (a < 128 <==> ap + u < 128 * p)
    ensures (a == 0 <==> ap + u < p) && (a == 255 <==> 255 * p <= ap + u)
  {
    if a >= 1 { MulLe(1, a, p); }
    if a < 128 { MulLe(a, 127, p); } else { MulLe(128, a, p); }
    if a < 255 { MulLe(a, 254, p); }
    MulLe(a, 255, p);
  }

  lemma PowNext(k: nat)
    ensures Pow256(k + 1) == 256 * Pow256(k)
  {
  }

  /** The value an integer's content stands for, in two's complement. */
  function Signed(content: seq<byte>): int
    requires content != []
  {
    if content[0] < 128 then Unsigned(content) else Unsigned(content) - Pow256(|content|)
  }

  /**
   * An integer is accepted exactly in at most eight octets, none of which could be left out: its value is outside the
   * range of one octet less.
   */
  lemma ParseIntExactly(content: seq<byte>, n: int)
    ensures ParseInt(content) == Some(n) <==>
              && 1 <= |content| <= 8 && n == Signed(content)
              && (|content| > 1 ==> 2 * n < -(Pow256(|content| - 1) as int) || Pow256(|content| - 1) <= 2 * n)
  {
    if |content| > 1 {
      hide Unsigned, Pow256;
      var rest := content[1..];
      HeadFacts(content);
      HeadFacts(rest);
      PowNext(|content| - 2);
      PowNext(|content| - 1);
      HeadRepeats(content);
    }
  }

  /** What the first octet says about the value. */
  lemma HeadFacts(b: seq<byte>)
    requires b != []
    ensures
      var p := Pow256(|b| - 1);
      && Unsigned(b) < 256 * p && (b[0] < 128 <==> Unsigned(b) < 128 * p)
      && (b[0] == 0 <==> Unsigned(b) < p) && (b[0] == 255 <==> 255 * p <= Unsigned(b))
  {
    hide Unsigned, Pow256;
    UnsignedHead(b);
    UnsignedBound(b[1..]);
    HeadRange(b[0], Pow256(|b| - 1), Unsigned(b[1..]), b[0] * Pow256(|b| - 1));
  }

  lemma HeadRepeats(b: seq<byte>)
    requires b != []
    ensures b[0] == 0 ==> Unsigned(b) == Unsigned(b[1..])
    ensures b[0] == 255 ==> Unsigned(b) == 255 * Pow256(|b| - 1) + Unsigned(b[1..])
  {
    UnsignedHead(b);
  }

  /** A positive integer below 2^32 has one accepted encoding. */
  lemma ParsePositiveExactly(content: seq<byte>, n: nat)
    requires 0 < n < 0x1_0000_0000
    ensures ParseInt(content) == Some(n) <==> content == EncodePositive(n)
  {
    BaseStarts(n);
    UnsignedBase(n);
    UnsignedLeadingZero(Base256(n));
    BaseSize(n);
    UnsignedBound(content);
    if ParseInt(content) == Some(n) {
      assert content[0] < 128;
      if content[0] == 0 {
        assert content == [0] + content[1..];
        UnsignedLeadingZero(content[1..]);
        BaseUnsigned(content[1..]);
      } else {
        BaseUnsigned(content);
      }
    }
  }

  /** The subidentifiers of an object identifier's content. */
  function ParseArcs(b: seq<byte>): Option<seq<nat>>
    decreases |b|
  {
    if b == [] then Some([])
    else
      var r := ReadBase128(b, 0, 0);
      if r == None || |r.value.rest| >= |b| then None
      else
        var more := ParseArcs(r.value.rest);
        if more == None then None else Some([r.value.value] + more.value)
  }

  function EncodeArcs(arcs: seq<nat>): seq<byte> {
    if arcs == [] then [] else Base128(arcs[0]) + EncodeArcs(arcs[1..])
  }

  lemma {:induction false} ArcsWritten(b: seq<byte>)
    requires ParseArcs(b).Some?
    ensures EncodeArcs(ParseArcs(b).value) == b
    decreases |b|
  {
    if b != [] {
      WrittenBase128(b);
      var r := ReadBase128(b, 0, 0).value;
      ArcsWritten(r.rest);
      assert ParseArcs(b).value[1..] == ParseArcs(r.rest).value;
    }
  }

  lemma {:induction false} ArcsRead(arcs: seq<nat>)
    requires forall a | a in arcs :: a <= MAX_INT32
    ensures ParseArcs(EncodeArcs(arcs)) == Some(arcs)
  {
    if arcs != [] {
      assert arcs[0] in arcs && forall a | a in arcs[1..] :: a in arcs;
      ReadWritten128(arcs[0], EncodeArcs(arcs[1..]));
      ArcsRead(arcs[1..]);
      assert arcs == [arcs[0]] + arcs[1..];
    }
  }

  /** The first subidentifier holds the first two arcs. */
  function ParseOid(content: seq<byte>): Option<seq<nat>> {
    var arcs := ParseArcs(content);
    if arcs == None || arcs.value == [] then None
    else
      Some(FirstSplit(arcs.value))
  }

  predicate IsOid(oid: seq<nat>) {
    && |oid| >= 2 && oid[0] <= 2 && (oid[0] < 2 ==> oid[1] < 40) && oid[1] <= MAX_INT32 - 80
    && forall a | a in oid :: a <= MAX_INT32
  }

  function EncodeOid(oid: seq<nat>): seq<byte>
    requires |oid| >= 2
  {
    EncodeArcs(FirstJoined(oid))
  }

  /** Two contents name the same identifier only when they are the same octets. */
  lemma ParseOidExactly(content: seq<byte>, oid: seq<nat>)
    requires IsOid(oid)
    ensures ParseOid(content) == Some(oid) <==> content == EncodeOid(oid)
  {
    hide EncodeArcs, ParseArcs, IsOid;
    OidArcs(oid);
    if ParseOid(content) == Some(oid) {
      ArcsWritten(content);
      OidParsed(ParseArcs(content).value, oid);
    }
    if content == EncodeOid(oid) {
      ArcsRead(FirstJoined(oid));
      OidSplit(oid);
    }
  }

  function FirstJoined(oid: seq<nat>): seq<nat>
    requires |oid| >= 2
  {
    [40 * oid[0] + oid[1]] + oid[2..]
  }

  function FirstSplit(arcs: seq<nat>): seq<nat>
    requires arcs != []
  {
    (if arcs[0] < 80 then [arcs[0] / 40, arcs[0] % 40] else [2, arcs[0] - 80]) + arcs[1..]
  }

  lemma OidArcs(oid: seq<nat>)
    requires IsOid(oid)
    ensures |oid| >= 2 && forall a | a in FirstJoined(oid) :: a <= MAX_INT32
  {
    assert oid[0] in oid && oid[1] in oid && forall a | a in oid[2..] :: a in oid;
  }

  lemma OidParsed(arcs: seq<nat>, oid: seq<nat>)
    requires arcs != [] && FirstSplit(arcs) == oid
    ensures |oid| >= 2 && FirstJoined(oid) == arcs
  {
    assert FirstSplit(arcs)[2..] == arcs[1..];
    assert arcs == [arcs[0]] + arcs[1..];
  }

  lemma OidSplit(oid: seq<nat>)
    requires IsOid(oid)
    ensures |oid| >= 2 && FirstSplit(FirstJoined(oid)) == oid
  {
    assert FirstJoined(oid)[1..] == oid[2..];
    assert oid == [oid[0], oid[1]] + oid[2..];
  }

  // ---- algorithm identifiers ----

  datatype AlgorithmIdentifier = AlgorithmIdentifier(algorithm: seq<nat>, parameters: Option<RawValue>)

  function ParseAlgorithmIdentifier(raw: RawValue): Option<AlgorithmIdentifier> {
    if !IsSequence(raw) then None
    else
      var parts := Split(raw.content);
      if parts == None || |parts.value| < 1 || |parts.value| > 2 || !IsPrimitive(parts.value[0], TAG_OID) then None
      else
        var oid := ParseOid(parts.value[0].content);
        if oid == None then None
        else Some(AlgorithmIdentifier(oid.value, if |parts.value| == 2 then Some(parts.value[1]) else None))
  }

  function ParseIntValue(v: RawValue): Option<int> {
    if !IsPrimitive(v, TAG_INTEGER) then None else ParseInt(v.content)
  }
}
