/**
 * Subject alternative names: their validation (internal/domain/certificate.go) and their ordered DER form, section
 * 4.2.1.6 of RFC 5280 (internal/cryptoengine/certificate_signer.go).
 */
module Sans {
  import opened Outcomes
  import opened Bytes
  import opened Der

  datatype SanKind = DNS | IP | URI

  datatype San = San(kind: SanKind, value: seq<byte>)

  /** netip.Addr: 4 or 16 octets, and for IPv6 perhaps a zone. */
  datatype Addr = Addr(octets: seq<byte>, zone: seq<byte>) {
    predicate Plain() { (|octets| == 4 || |octets| == 16) && zone == [] }
  }

  /** The library functions: strings.TrimSpace, netip.ParseAddr, Addr.String, and url.Parse with IsAbs. */
  datatype Library = Library(
    trim: seq<byte> -> seq<byte>,
    parseAddr: seq<byte> -> Option<Addr>,
    format: Addr -> seq<byte>,
    isAbsoluteUri: seq<byte> -> bool)
  {
    /** What is relied on: trimming twice is trimming once, and a plain address is read back from its text. */
    ghost predicate Lawful() {
      && (forall v :: trim(trim(v)) == trim(v))
      && (forall v :: parseAddr(v).Some? && parseAddr(v).value.zone == [] ==> parseAddr(v).value.Plain())
      && (forall a: Addr :: a.Plain() ==> FormatOk(a))
    }

    ghost predicate FormatOk(a: Addr) {
      parseAddr(format(a)) == Some(a) && trim(format(a)) == format(a) && 0 < |format(a)| <= MAX_VALUE_LENGTH
    }
  }

  const MAX_VALUE_LENGTH: nat := 2048
  const MAX_DNS_LENGTH: nat := 253
  const MAX_LABEL_LENGTH: nat := 63

  const DOT: byte := 46
  const STAR: byte := 42
  const HYPHEN: byte := 45

  // ---- DNS names ----

  /** strings.Split(v, ".") */
  function Labels(v: seq<byte>): (labels: seq<seq<byte>>)
    ensures labels != []
  {
    if v == [] then [[]]
    else
      var more := Labels(v[1..]);
      if v[0] == DOT then [[]] + more else [[v[0]] + more[0]] + more[1..]
  }

  predicate LabelOctet(c: byte) { 97 <= c <= 122 || 65 <= c <= 90 || 48 <= c <= 57 || c == HYPHEN }

  predicate IsLabel(part: seq<byte>) {
    && 1 <= |part| <= MAX_LABEL_LENGTH && part[0] != HYPHEN && part[|part| - 1] != HYPHEN
    && forall i | 0 <= i < |part| :: LabelOctet(part[i])
  }

  /** At most 253 octets, at least two labels, and a wildcard only as the whole first label. */
  predicate IsDnsName(v: seq<byte>) {
    && |v| <= MAX_DNS_LENGTH && |Labels(v)| >= 2
    && forall i | 0 <= i < |Labels(v)| :: IsLabel(Labels(v)[i]) || (i == 0 && Labels(v)[i] == [STAR])
  }

  method IsValidDnsLabel(part: seq<byte>) returns (ok: bool)
    ensures ok <==> IsLabel(part)
  {
    if |part| < 1 || |part| > MAX_LABEL_LENGTH { return false; }
    if part[0] == HYPHEN || part[|part| - 1] == HYPHEN { return false; }
    for i := 0 to |part|
      invariant forall k | 0 <= k < i :: LabelOctet(part[k])
    {
      if !LabelOctet(part[i]) { return false; }
    }
    return true;
  }

  method ValidateDnsValue(v: seq<byte>) returns (ok: bool)
    ensures ok <==> IsDnsName(v)
  {
    if |v| > MAX_DNS_LENGTH { return false; }
    var labels := Labels(v);
    for i := 0 to |labels|
      invariant forall k | 0 <= k < i :: IsLabel(labels[k]) || (k == 0 && labels[k] == [STAR])
    {
      var part := labels[i];
      if part == [] { return false; }
      if part == [STAR] {
        if i != 0 { return false; }
        continue;
      }
      if STAR in part {
        var k :| 0 <= k < |part| && part[k] == STAR;
        assert !LabelOctet(part[k]);
        return false;
      }
      var valid := IsValidDnsLabel(part);
      if !valid { return false; }
    }
    return |labels| >= 2;
  }

  predicate Ia5(v: seq<byte>) { forall i | 0 <= i < |v| :: v[i] < 128 }

  lemma {:induction false} LabelsKeepOctets(v: seq<byte>, i: nat)
    requires i < |v|
    ensures v[i] == DOT || exists k :: 0 <= k < |Labels(v)| && v[i] in Labels(v)[k]
  {
    var more := Labels(v[1..]);
    if v[0] != DOT {
      assert Labels(v)[0] == [v[0]] + more[0];
      assert v[0] in Labels(v)[0];
    }
    if i > 0 && v[i] != DOT {
      LabelsKeepOctets(v[1..], i - 1);
      var k :| 0 <= k < |more| && v[i] in more[k];
      if v[0] == DOT {
        assert Labels(v)[k + 1] == more[k];
      } else if k == 0 {
        assert v[i] in Labels(v)[0];
      } else {
        assert Labels(v)[k] == more[k];
      }
    }
  }

  lemma DnsIsIa5(v: seq<byte>)
    requires IsDnsName(v)
    ensures Ia5(v)
  {
    forall i | 0 <= i < |v| ensures v[i] < 128 {
      LabelsKeepOctets(v, i);
      if v[i] != DOT {
        var k :| 0 <= k < |Labels(v)| && v[i] in Labels(v)[k];
        var j :| 0 <= j < |Labels(v)[k]| && Labels(v)[k][j] == v[i];
        assert Labels(v)[k] == [STAR] || LabelOctet(Labels(v)[k][j]);
      }
    }
  }

  /** A label is made of ASCII letters, digits and hyphens. */
  lemma LabelOctetExactly(c: byte)
    ensures LabelOctet(c) <==>
              'A' <= c as char <= 'Z' || 'a' <= c as char <= 'z' || '0' <= c as char <= '9' || c as char == '-'
  {
  }

  /** One part of a name: 1 to 63 letters, digits and hyphens, with no hyphen at either end. */
  lemma LabelExactly(part: seq<byte>)
    ensures IsLabel(part) <==>
              && 1 <= |part| <= 63 && part[0] as char != '-' && part[|part| - 1] as char != '-'
              && forall c | c in part ::
                   'A' <= c as char <= 'Z' || 'a' <= c as char <= 'z' || '0' <= c as char <= '9' || c as char == '-'
  {
    forall c: byte ensures LabelOctet(c) <==>
              'A' <= c as char <= 'Z' || 'a' <= c as char <= 'z' || '0' <= c as char <= '9' || c as char == '-' {
      LabelOctetExactly(c);
    }
    hide LabelOctet;
    if forall c | c in part :: LabelOctet(c) { assert forall i | 0 <= i < |part| :: part[i] in part; }
  }

  /** A name: at most 253 octets in two or more parts, of which the first may be one asterisk. */
  lemma DnsExactly(v: seq<byte>)
    ensures IsDnsName(v) <==>
              && |v| <= 253 && |Labels(v)| >= 2
              && (IsLabel(Labels(v)[0]) || (|Labels(v)[0]| == 1 && Labels(v)[0][0] as char == '*'))
              && forall i | 0 < i < |Labels(v)| :: IsLabel(Labels(v)[i])
  {
    hide IsLabel;
  }

  ghost predicate Dotless(parts: seq<seq<byte>>) { forall part | part in parts :: DOT !in part }

  function JoinDots(parts: seq<seq<byte>>): seq<byte> {
    if parts == [] then [] else if |parts| == 1 then parts[0] else parts[0] + [DOT] + JoinDots(parts[1..])
  }

  lemma {:induction false} LabelsJoin(v: seq<byte>)
    ensures Dotless(Labels(v)) && JoinDots(Labels(v)) == v
  {
    if v != [] {
      LabelsJoin(v[1..]);
      var more := Labels(v[1..]);
      if v[0] == DOT {
        assert Labels(v) == [[]] + more && Labels(v)[1..] == more;
        assert [] + [DOT] + v[1..] == v;
      } else {
        assert Labels(v)[0] == [v[0]] + more[0] && Labels(v)[1..] == more[1..];
        assert more[0] in more && DOT !in more[0];
        forall part | part in Labels(v) ensures DOT !in part {
          assert part == Labels(v)[0] || part in more[1..];
        }
        JoinHead(v[0], more);
      }
    }
  }

  lemma JoinHead(c: byte, parts: seq<seq<byte>>)
    requires parts != []
    ensures JoinDots([[c] + parts[0]] + parts[1..]) == [c] + JoinDots(parts)
  {
    var grown := [[c] + parts[0]] + parts[1..];
    assert grown[1..] == parts[1..];
    if |parts| > 1 { assert ([c] + parts[0]) + [DOT] + JoinDots(parts[1..]) ==
        [c] + (parts[0] + [DOT] + JoinDots(parts[1..])); }
  }

  lemma {:induction false} LabelsOnly(v: seq<byte>, parts: seq<seq<byte>>)
    requires parts != [] && Dotless(parts) && JoinDots(parts) == v
    ensures Labels(v) == parts
    decreases |v|, |parts|
  {
    assert parts[0] in parts;
    if parts[0] == [] {
      if |parts| > 1 {
        assert v == [DOT] + JoinDots(parts[1..]) && v[1..] == JoinDots(parts[1..]);
        assert forall part | part in parts[1..] :: part in parts;
        LabelsOnly(v[1..], parts[1..]);
        assert parts == [[]] + parts[1..];
      } else {
        assert parts == [[]];
      }
    } else {
      var c, shorter := parts[0][0], [parts[0][1..]] + parts[1..];
      assert c in parts[0] && parts[0] == [c] + shorter[0] && shorter[1..] == parts[1..];
      JoinHead(c, shorter);
      assert parts == [[c] + shorter[0]] + shorter[1..];
      assert v == [c] + JoinDots(shorter) && v[1..] == JoinDots(shorter);
      forall part | part in shorter ensures DOT !in part { assert part == shorter[0] || part in parts; }
      LabelsOnly(v[1..], shorter);
    }
  }

  /** Joining the labels with dots gives the name back, and no other cut without dots in its parts does. */
  lemma LabelsExactly(v: seq<byte>, parts: seq<seq<byte>>)
    ensures Labels(v) == parts <==> parts != [] && Dotless(parts) && JoinDots(parts) == v
  {
    LabelsJoin(v);
    if parts != [] && Dotless(parts) && JoinDots(parts) == v { LabelsOnly(v, parts); }
  }

  // ---- one name ----

  function NormalizeIp(lib: Library, v: seq<byte>): Option<seq<byte>> {
    var a := lib.parseAddr(v);
    if a == None || a.value.zone != [] then None else Some(lib.format(a.value))
  }

  function NewSan(lib: Library, kind: SanKind, value: seq<byte>): Option<San> {
    var v := lib.trim(value);
    if v == [] || |v| > MAX_VALUE_LENGTH then None
    else
      match kind
      case DNS => if IsDnsName(v) then Some(San(DNS, v)) else None
      case IP => (match NormalizeIp(lib, v) case None => None case Some(n) => Some(San(IP, n)))
      case URI => if lib.isAbsoluteUri(v) then Some(San(URI, v)) else None
  }

  /** The fixed name of the bootstrap identity, "cert-me", which NewSan never sees. */
  const BOOTSTRAP_NAME: San := San(DNS, [99, 101, 114, 116, 45, 109, 101])

  lemma BootstrapText()
    ensures BOOTSTRAP_NAME.kind == DNS && |BOOTSTRAP_NAME.value| == |"cert-me"|
    ensures forall i | 0 <= i < |"cert-me"| :: BOOTSTRAP_NAME.value[i] as char == "cert-me"[i]
  {
  }

  /** A name that NewSan would build again as it is. */
  predicate CanonicalSan(lib: Library, s: San) { NewSan(lib, s.kind, s.value) == Some(s) }

  /** What is built from a trimmed value of at most 2048 octets, kind by kind. */
  lemma NewSanExactly(lib: Library, kind: SanKind, value: seq<byte>)
    ensures
      var v, a := lib.trim(value), lib.parseAddr(lib.trim(value));
      NewSan(lib, kind, value) ==
      if |v| == 0 || |v| > 2048 then None
      else if kind == DNS && IsDnsName(v) then Some(San(DNS, v))
      else if kind == URI && lib.isAbsoluteUri(v) then Some(San(URI, v))
      else if kind == IP && a.Some? && a.value.zone == [] then Some(San(IP, lib.format(a.value)))
      else None
  {
    hide IsDnsName;
  }

  /** Whatever NewSan builds is canonical. */
  lemma NewSanCanonical(lib: Library, kind: SanKind, value: seq<byte>)
    requires lib.Lawful() && NewSan(lib, kind, value).Some?
    ensures CanonicalSan(lib, NewSan(lib, kind, value).value)
    ensures NewSan(lib, kind, value).value.kind == kind && |NewSan(lib, kind, value).value.value| <= MAX_VALUE_LENGTH
  {
    hide IsDnsName;
    var v := lib.trim(value);
    assert lib.trim(v) == v;
    if kind == IP {
      var a := lib.parseAddr(v).value;
      assert a.Plain() && lib.FormatOk(a);
    }
  }

  const CLASS_CONTEXT: nat := 2
  const TAG_DNS: nat := 2
  const TAG_URI: nat := 6
  const TAG_IP: nat := 7

  predicate Short(s: San) { |s.value| <= MAX_VALUE_LENGTH }

  function Name(tag: nat, octets: seq<byte>): RawValue
    requires tag <= MAX_INT32 && |octets| < MAX_LENGTH
  {
    Value(CLASS_CONTEXT, false, tag, octets)
  }

  function SanRawValue(lib: Library, s: San): Option<RawValue>
    requires Short(s)
  {
    match s.kind
    case DNS => if Ia5(s.value) then Some(Name(TAG_DNS, s.value)) else None
    case URI => if Ia5(s.value) then Some(Name(TAG_URI, s.value)) else None
    case IP =>
      var a := lib.parseAddr(s.value);
      if a == None || a.value.zone != [] || |a.value.octets| >= MAX_LENGTH then None
      else Some(Name(TAG_IP, a.value.octets))
  }

  /** How a name is written: names and URIs as they are, in ASCII only, addresses by their octets. */
  lemma WrittenExactly(lib: Library, s: San)
    requires Short(s)
    ensures s.kind != IP ==>
              SanRawValue(lib, s) ==
              if forall c | c in s.value :: c <= 127 then Some(Value(2, false, if s.kind == DNS then 2 else 6, s.value))
              else None
    ensures s.kind == IP ==>
              var a := lib.parseAddr(s.value);
              SanRawValue(lib, s) ==
              if a.Some? && a.value.zone == [] &&
                  |a.value.octets| < MAX_LENGTH then Some(Value(2, false, 7, a.value.octets))
              else None
  {
    hide Encode;
    if forall c | c in s.value :: c <= 127 {
      assert forall i | 0 <= i < |s.value| :: s.value[i] in s.value;
      assert Ia5(s.value);
    }
  }

  function Checked(lib: Library, kind: SanKind, value: seq<byte>): Option<San> {
    var s := NewSan(lib, kind, value);
    if s.Some? && s.value.value == value then s else None
  }

  /** Only class and tag are looked at, not whether the name is marked compound. */
  function DecodeName(lib: Library, name: RawValue): Option<San> {
    if name.tagClass == CLASS_CONTEXT && name.tag == TAG_DNS then Checked(lib, DNS, name.content)
    else if name.tagClass == CLASS_CONTEXT && name.tag == TAG_URI then Checked(lib, URI, name.content)
    else if name.tagClass == CLASS_CONTEXT && name.tag == TAG_IP then
      if |name.content| != 4 && |name.content| != 16 then None
      else Checked(lib, IP, lib.format(Addr(name.content, [])))
    else None
  }

  /**
   * A written name is read back exactly when it is canonical, and never as another name unless its address text was
   * not.
   */
  lemma NameRoundTripExactly(lib: Library, s: San)
    requires lib.Lawful() && Short(s) && SanRawValue(lib, s).Some?
    ensures DecodeName(lib, SanRawValue(lib, s).value) == Some(s) <==> CanonicalSan(lib, s)
    ensures Canonical(SanRawValue(lib, s).value)
  {
    hide IsDnsName, Encode, Ia5;
    if s.kind == IP {
      var a := lib.parseAddr(s.value).value;
      assert a.Plain() && lib.FormatOk(a);
      assert Addr(a.octets, []) == a;
    }
  }

  /** A read name is written back the same exactly when it was primitive and plain ASCII. */
  lemma NameRewrittenExactly(lib: Library, name: RawValue)
    requires lib.Lawful() && Canonical(name) && DecodeName(lib, name).Some?
    ensures var s := DecodeName(lib, name).value;
            && Short(s) && CanonicalSan(lib, s)
            && (SanRawValue(lib, s) == Some(name) <==> !name.isCompound && (s.kind == URI ==> Ia5(s.value)))
  {
    hide IsDnsName, Encode, Ia5;
    var s := DecodeName(lib, name).value;
    NewSanCanonical(lib, s.kind, s.value);
    if s.kind == DNS { DnsIsIa5(s.value); }
    if s.kind == IP {
      var a := Addr(name.content, []);
      assert a.Plain() && lib.FormatOk(a);
    }
  }

  // ---- the extension ----

  ghost predicate AllShort(sans: seq<San>) { forall s | s in sans :: Short(s) }

  function Names(lib: Library, sans: seq<San>): Option<seq<RawValue>>
    requires AllShort(sans)
  {
    if sans == [] then Some([])
    else
      assert sans[0] in sans && forall s | s in sans[1..] :: s in sans;
      var head, tail := SanRawValue(lib, sans[0]), Names(lib, sans[1..]);
      if head == None || tail == None then None else Some([head.value] + tail.value)
  }

  /** asn1.Marshal; content too long for Go's own reader is not modelled. */
  function MarshalNames(names: seq<RawValue>): Option<seq<byte>> {
    if |Concat(names)| >= MAX_LENGTH then None else Some(Sequence(Concat(names)).full)
  }

  function Marshal(lib: Library, sans: seq<San>): Option<seq<byte>>
    requires AllShort(sans)
  {
    var names := Names(lib, sans);
    if names == None then None else MarshalNames(names.value)
  }

  function DecodeNames(lib: Library, names: seq<RawValue>): Option<seq<San>> {
    if names == [] then Some([])
    else
      var head, tail := DecodeName(lib, names[0]), DecodeNames(lib, names[1..]);
      if head == None || tail == None then None else Some([head.value] + tail.value)
  }

  /** asn1.Unmarshal into a list of raw values. */
  function UnmarshalNames(extension: seq<byte>): Option<seq<RawValue>> {
    var outer := ParseFull(extension);
    if outer == None || !IsSequence(outer.value) then None else Split(outer.value.content)
  }

  function Decode(lib: Library, extension: seq<byte>): Option<seq<San>> {
    var names := UnmarshalNames(extension);
    if names == None then None else DecodeNames(lib, names.value)
  }

  method MarshalOrderedSans(lib: Library, sans: seq<San>) returns (r: Option<seq<byte>>)
    requires AllShort(sans)
    ensures r == Marshal(lib, sans)
  {
    hide SanRawValue, MarshalNames, AllShort;
    var names: seq<RawValue> := [];
    ShortTails(sans);
    JoinedEmpty(names, Names(lib, sans));
    for i := 0 to |sans|
      invariant AllShort(sans[i..])
      invariant Names(lib, sans) == Joined(names, Names(lib, sans[i..]))
    {
      ShortTails(sans[i..]);
      assert sans[i..][1..] == sans[i + 1..];
      var value := SanRawValue(lib, sans[i]);
      if value == None { return None; }
      JoinedMore(names, value.value, Names(lib, sans[i + 1..]));
      names := names + [value.value];
    }
    JoinedEmpty(names, Some([]));
    r := MarshalNames(names);
  }

  lemma ShortTails(sans: seq<San>)
    requires AllShort(sans)
    ensures sans[0..] == sans && AllShort(sans[0..])
    ensures sans != [] ==> Short(sans[0]) && AllShort(sans[1..])
  {
    if sans != [] { assert sans[0] in sans && forall s | s in sans[1..] :: s in sans; }
  }

  datatype Extension = Extension(isSan: bool, value: seq<byte>)

  ghost predicate OnlySan(extensions: seq<Extension>, at: nat) {
    && at < |extensions| && extensions[at].isSan
    && forall j | 0 <= j < |extensions| && j != at :: !extensions[j].isSan
  }

  /** No extension reads as no names; two are refused; the one there is is decoded in order. */
  method OrderedSansFromDer(lib: Library, extensions: seq<Extension>) returns (r: Result<seq<San>>)
    ensures (forall e | e in extensions :: !e.isSan) ==> r == Ok([])
    ensures forall i, j | 0 <= i < j < |extensions| && extensions[i].isSan && extensions[j].isSan ::
              r == Err(InvalidValue)
    ensures forall i: nat | OnlySan(extensions, i) ::
              var decoded := Decode(lib, extensions[i].value);
              r == if decoded.Some? then Ok(decoded.value) else Err(InvalidValue)
  {
    hide UnmarshalNames, DecodeName;
    var found: Option<Extension> := None;
    ghost var at := 0;
    for i := 0 to |extensions|
      invariant found == None <==> forall k | 0 <= k < i :: !extensions[k].isSan
      invariant found.Some? ==>
                  && at < i && extensions[at] == found.value && found.value.isSan
                  && forall k | 0 <= k < i && k != at :: !extensions[k].isSan
    {
      if extensions[i].isSan {
        if found.Some? {
          assert extensions[i] in extensions && extensions[at].isSan && at < i;
          return Err(InvalidValue);
        }
        found, at := Some(extensions[i]), i;
      }
    }
    if found == None {
      assert forall k | 0 <= k < |extensions| :: !extensions[k].isSan;
      return Ok([]);
    }
    assert extensions[at] in extensions;
    var names := UnmarshalNames(found.value.value);
    if names == None { return Err(InvalidValue); }
    var sans: seq<San> := [];
    SansEmpty(sans, DecodeNames(lib, names.value));
    assert names.value[0..] == names.value;
    for i := 0 to |names.value|
      invariant DecodeNames(lib, names.value) == SansJoined(sans, DecodeNames(lib, names.value[i..]))
    {
      assert names.value[i..][1..] == names.value[i + 1..];
      var s := DecodeName(lib, names.value[i]);
      if s == None { return Err(InvalidValue); }
      SansMore(sans, s.value, DecodeNames(lib, names.value[i + 1..]));
      sans := sans + [s.value];
    }
    SansEmpty(sans, Some([]));
    return Ok(sans);
  }

  function SansJoined(found: seq<San>, more: Option<seq<San>>): Option<seq<San>> {
    if more == None then None else Some(found + more.value)
  }

  lemma SansEmpty(found: seq<San>, more: Option<seq<San>>)
    ensures SansJoined([], more) == more && SansJoined(found, Some([])) == Some(found)
  {
    if more.Some? { assert [] + more.value == more.value; }
    assert found + [] == found;
  }

  lemma SansMore(found: seq<San>, s: San, more: Option<seq<San>>)
    ensures SansJoined(found, if more == None then None else Some([s] + more.value)) == SansJoined(found + [s], more)
  {
    if more.Some? { assert found + ([s] + more.value) == found + [s] + more.value; }
  }

  // ---- round trips ----

  lemma {:induction false} NamesDecode(lib: Library, sans: seq<San>)
    requires lib.Lawful() && AllShort(sans) && Names(lib, sans).Some?
    ensures AllCanonical(Names(lib, sans).value)
    ensures DecodeNames(lib, Names(lib, sans).value) == Some(sans) <==> forall s | s in sans :: CanonicalSan(lib, s)
  {
    hide SanRawValue, DecodeName, CanonicalSan, Canonical, Library.Lawful;
    if sans != [] {
      ShortTails(sans);
      NamesDecode(lib, sans[1..]);
      NameRoundTripExactly(lib, sans[0]);
      assert sans == [sans[0]] + sans[1..];
      var names := Names(lib, sans).value;
      assert names[1..] == Names(lib, sans[1..]).value;
    }
  }

  lemma WrittenNames(names: seq<RawValue>)
    requires AllCanonical(names) && MarshalNames(names).Some?
    ensures UnmarshalNames(MarshalNames(names).value) == Some(names)
  {
    hide Encode, Unmarshal, Split, ParseFull;
    var outer := Sequence(Concat(names));
    ParseFullExactly(MarshalNames(names).value, outer);
    SplitExactly(Concat(names), names);
  }

  /** A list that was marshalled is read back in the same order exactly when each of its names is canonical. */
  lemma RoundTripExactly(lib: Library, sans: seq<San>)
    requires lib.Lawful() && AllShort(sans) && Marshal(lib, sans).Some?
    ensures Decode(lib, Marshal(lib, sans).value) == Some(sans) <==> forall s | s in sans :: CanonicalSan(lib, s)
  {
    hide Names, MarshalNames, UnmarshalNames, CanonicalSan, Library.Lawful, DecodeNames;
    NamesDecode(lib, sans);
    WrittenNames(Names(lib, sans).value);
  }

  /** Every list of names built by NewSan and accepted for marshalling comes back the same. */
  lemma NewSansRoundTrip(lib: Library, kinds: seq<SanKind>, values: seq<seq<byte>>, sans: seq<San>)
    requires lib.Lawful() && |kinds| == |values| == |sans|
    requires forall i | 0 <= i < |sans| :: NewSan(lib, kinds[i], values[i]) == Some(sans[i])
    ensures AllShort(sans)
    ensures Marshal(lib, sans).Some? ==> Decode(lib, Marshal(lib, sans).value) == Some(sans)
  {
    hide Marshal, Decode, NewSan, CanonicalSan, Library.Lawful;
    forall s | s in sans ensures Short(s) && CanonicalSan(lib, s) {
      var i :| 0 <= i < |sans| && sans[i] == s;
      NewSanCanonical(lib, kinds[i], values[i]);
    }
    if Marshal(lib, sans).Some? { RoundTripExactly(lib, sans); }
  }

  /** A list with the fixed bootstrap name is marshalled but refused on the way back: the name has no dot. */
  lemma BootstrapRefused(lib: Library, sans: seq<San>)
    requires lib.Lawful() && AllShort(sans) && BOOTSTRAP_NAME in sans && Marshal(lib, sans).Some?
    ensures Decode(lib, Marshal(lib, sans).value) == None
  {
    hide Names, MarshalNames, UnmarshalNames, Library.Lawful, DecodeNames, CanonicalSan, AllCanonical;
    NamesDecode(lib, sans);
    WrittenNames(Names(lib, sans).value);
    NamesRefused(lib, sans);
  }

  lemma {:induction false} NamesRefused(lib: Library, sans: seq<San>)
    requires AllShort(sans) && BOOTSTRAP_NAME in sans && Names(lib, sans).Some?
    ensures DecodeNames(lib, Names(lib, sans).value) == None
  {
    hide SanRawValue, DecodeName;
    ShortTails(sans);
    assert Names(lib, sans).value[1..] == Names(lib, sans[1..]).value;
    if sans[0] == BOOTSTRAP_NAME {
      BootstrapName(lib);
    } else {
      assert sans == [sans[0]] + sans[1..];
      NamesRefused(lib, sans[1..]);
    }
  }

  lemma BootstrapName(lib: Library)
    requires SanRawValue(lib, BOOTSTRAP_NAME).Some?
    ensures DecodeName(lib, SanRawValue(lib, BOOTSTRAP_NAME).value) == None
  {
    NoDots(BOOTSTRAP_NAME.value);
  }

  lemma {:induction false} NoDots(v: seq<byte>)
    requires DOT !in v
    ensures |Labels(v)| == 1
  {
    if v != [] {
      NoDots(v[1..]);
      assert v[0] in v;
    }
  }

  ghost predicate Rewritable(lib: Library, names: seq<RawValue>) {
    forall name | name in names :: !name.isCompound && (name.tag == TAG_URI ==> Ia5(name.content))
  }

  lemma {:induction false} NamesRewritten(lib: Library, names: seq<RawValue>)
    requires lib.Lawful() && AllCanonical(names) && DecodeNames(lib, names).Some?
    ensures AllShort(DecodeNames(lib, names).value)
    ensures Names(lib, DecodeNames(lib, names).value) == Some(names) <==> Rewritable(lib, names)
  {
    hide SanRawValue, Canonical, Library.Lawful, Ia5, Checked;
    if names != [] {
      assert names == [names[0]] + names[1..] && names[0] in names;
      NamesRewritten(lib, names[1..]);
      NameRewrittenExactly(lib, names[0]);
      NameKind(lib, names[0]);
      var sans := DecodeNames(lib, names).value;
      assert sans[1..] == DecodeNames(lib, names[1..]).value;
      forall s | s in sans ensures Short(s) { assert s == sans[0] || s in sans[1..]; }
    }
  }

  lemma NameKind(lib: Library, name: RawValue)
    requires DecodeName(lib, name).Some?
    ensures DecodeName(lib, name).value.kind == URI <==> name.tag == TAG_URI
    ensures name.tag == TAG_URI ==> DecodeName(lib, name).value.value == name.content
  {
    hide IsDnsName;
  }

  lemma ReadNames(extension: seq<byte>)
    requires UnmarshalNames(extension).Some?
    ensures var names := UnmarshalNames(extension).value;
            AllCanonical(names) && MarshalNames(names) == Some(extension)
  {
    hide Encode, Unmarshal, Split, ParseFull, Concat;
    var outer := ParseFull(extension).value;
    ParseFullExactly(extension, outer);
    SplitExactly(outer.content, UnmarshalNames(extension).value);
  }

  /**
   * An extension that was read is written back octet for octet exactly when its names are primitive and its URIs
   * ASCII.
   */
  lemma RewrittenExactly(lib: Library, extension: seq<byte>)
    requires lib.Lawful() && Decode(lib, extension).Some?
    ensures AllShort(Decode(lib, extension).value)
    ensures Marshal(lib, Decode(lib, extension).value) == Some(extension) <==>
              Rewritable(lib, UnmarshalNames(extension).value)
  {
    hide UnmarshalNames, MarshalNames, Library.Lawful, DecodeNames, Names, Rewritable;
    var names := UnmarshalNames(extension).value;
    ReadNames(extension);
    NamesRewritten(lib, names);
    var sans := Decode(lib, extension).value;
    if Marshal(lib, sans) == Some(extension) {
      NamesDecode(lib, sans);
      WrittenNames(Names(lib, sans).value);
    }
  }

  // ---- the laws can be met, and rewriting can fail ----

  /** A library that trims nothing and writes an address as its own octets. */
  function OctetLibrary(): Library {
    Library(
      v => v,
      (v: seq<byte>) => if |v| == 4 || |v| == 16 then Some(Addr(v, [])) else None,
      (a: Addr) => a.octets,
      _ => true)
  }

  lemma OctetLibraryLawful()
    ensures OctetLibrary().Lawful()
  {
  }

  function Dotted(isCompound: bool): RawValue { Value(CLASS_CONTEXT, isCompound, TAG_DNS, [97, DOT, 98]) }

  lemma DottedNames(isCompound: bool)
    ensures MarshalNames([Dotted(isCompound)]) == Some([48, 5, if isCompound then 162 else 130, 3, 97, 46, 98])
    ensures AllCanonical([Dotted(isCompound)])
    ensures DecodeName(OctetLibrary(), Dotted(isCompound)) == Some(San(DNS, [97, DOT, 98]))
  {
    var name := Dotted(isCompound);
    assert name.full == [if isCompound then 162 else 130, 3, 97, 46, 98];
    assert Concat([name]) == name.full + Concat([]) == name.full;
    var full := Sequence(name.full).full;
    assert full == [48] + ([5] + name.full);
    assert full == [48, 5, if isCompound then 162 else 130, 3, 97, 46, 98];
    assert MarshalNames([name]) == Some(full);
    DottedLabels();
  }

  lemma DottedLabels()
    ensures Labels([97, DOT, 98]) == [[97], [98]]
  {
    assert [98][1..] == [] && [98] + [] == [98] && [[98]] + [] == [[98]];
    assert Labels([98]) == [[98]];
    assert [DOT, 98][1..] == [98];
    assert Labels([DOT, 98]) == [[], [98]];
    assert [97, DOT, 98][1..] == [DOT, 98] && [97] + [] == [97] && [[], [98]][1..] == [[98]];
  }

  /**
   * The octets 30 05 A2 03 'a.b', whose one name is marked compound, read as a.b and are written back with 82 for A2.
   */
  lemma CompoundNameExample()
    ensures
      var lib := OctetLibrary();
      && lib.Lawful()
      && Decode(lib, [48, 5, 162, 3, 97, 46, 98]) == Some([San(DNS, [97, 46, 98])])
      && Marshal(lib, [San(DNS, [97, 46, 98])]) == Some([48, 5, 130, 3, 97, 46, 98])
  {
    hide Dotted, Value, Encode, Concat, UnmarshalNames, MarshalNames, Library.Lawful, DecodeName, OctetLibrary;
    var lib, read := OctetLibrary(), [San(DNS, [97, 46, 98])];
    OctetLibraryLawful();
    DottedNames(true);
    DottedNames(false);
    WrittenNames([Dotted(true)]);
    WrittenNames([Dotted(false)]);
    DottedWritten();
    DecodeOne(lib, Dotted(true));
    assert read[1..] == [] && [Dotted(false)] + [] == [Dotted(false)];
  }

  lemma DecodeOne(lib: Library, name: RawValue)
    requires DecodeName(lib, name).Some?
    ensures DecodeNames(lib, [name]) == Some([DecodeName(lib, name).value])
  {
    hide DecodeName;
    assert [DecodeName(lib, name).value] + [] == [DecodeName(lib, name).value];
  }

  lemma DottedWritten()
    ensures SanRawValue(OctetLibrary(), San(DNS, [97, 46, 98])) == Some(Dotted(false))
  {
  }
}
