/** Minimal lower-case hexadecimal, the stored form of serials and CRL numbers. */
module HexNumbers {

  import opened Outcomes

  const MAX_HEX_LENGTH: nat := 40

  predicate IsLowerHexDigit(c: char) {
    '0' <= c <= '9' || 'a' <= c <= 'f'
  }

  predicate AllHex(s: string) {
    forall i | 0 <= i < |s| :: IsLowerHexDigit(s[i])
  }

  predicate Minimal(s: string) {
    s != "" && AllHex(s) && (|s| > 1 ==> s[0] != '0')
  }

  function DigitValue(c: char): nat
    requires IsLowerHexDigit(c)
  {
    if '0' <= c <= '9' then (c - '0') as nat else (c - 'a') as nat + 10
  }

  function DigitChar(n: nat): char
    requires n < 16
  {
    if n < 10 then '0' + n as char else 'a' + (n - 10) as char
  }

  /** big.Int.SetString(s, 16). */
  function Value(s: string): nat
    requires AllHex(s)
  {
    if s == "" then 0 else 16 * Value(s[..|s| - 1]) + DigitValue(s[|s| - 1])
  }

  /** big.Int.Text(16). */
  function Text(n: nat): string {
    if n < 16 then [DigitChar(n)] else Text(n / 16) + [DigitChar(n % 16)]
  }

  function Pow16(k: nat): nat {
    if k == 0 then 1 else 16 * Pow16(k - 1)
  }

  lemma DigitRoundTrip(c: char)
    requires IsLowerHexDigit(c)
    ensures DigitValue(c) < 16 && DigitChar(DigitValue(c)) == c
  {
    assert c == (c as int) as char;
  }

  lemma CharRoundTrip(n: nat)
    requires n < 16
    ensures IsLowerHexDigit(DigitChar(n)) && DigitValue(DigitChar(n)) == n
    ensures DigitChar(n) == '0' <==> n == 0
  {
  }

  lemma {:induction false} TextIsMinimal(n: nat)
    ensures Minimal(Text(n)) && Value(Text(n)) == n
    ensures Text(n)[0] == '0' <==> n == 0
  {
    CharRoundTrip(n % 16);
    if n < 16 {
      assert Text(n)[..0] == "";
    } else {
      TextIsMinimal(n / 16);
      var t := Text(n);
      assert t[..|t| - 1] == Text(n / 16);
      assert t[|t| - 1] == DigitChar(n % 16);
    }
  }

  lemma {:induction false} MinimalIsText(s: string)
    requires Minimal(s)
    ensures Text(Value(s)) == s
    ensures Value(s) == 0 <==> s == "0"
  {
    var front, last := s[..|s| - 1], s[|s| - 1];
    DigitRoundTrip(last);
    if |s| == 1 {
      assert front == "" && s == [last];
    } else {
      assert front[0] == s[0];
      MinimalIsText(front);
      assert Value(s) / 16 == Value(front) && Value(s) % 16 == DigitValue(last);
      assert s == front + [last];
    }
  }

  lemma {:induction false} TextLength(n: nat, k: nat)
    requires k > 0
    ensures |Text(n)| <= k <==> n < Pow16(k)
  {
    if n >= 16 {
      if k == 1 {
        TextIsMinimal(n / 16);
      } else {
        TextLength(n / 16, k - 1);
      }
    } else {
      PowPositive(k - 1);
    }
  }

  lemma {:induction false} PowPositive(k: nat)
    ensures Pow16(k) >= 1
  {
    if k > 0 { PowPositive(k - 1); }
  }

  lemma PowAbove(k: nat)
    requires k > 0
    ensures Pow16(k) >= 16
  {
    PowPositive(k - 1);
  }

  /** What `validateMinimalHex` reports, in the order it looks. */
  datatype HexError = Empty | TooLong | LeadingZero | NotHex

  function HexCheck(raw: string, maxLen: nat): Option<HexError> {
    if raw == "" then Some(Empty)
    else if |raw| > maxLen then Some(TooLong)
    else if |raw| > 1 && raw[0] == '0' then Some(LeadingZero)
    else if !AllHex(raw) then Some(NotHex)
    else None
  }

  method ValidateMinimalHex(raw: string, maxLen: nat) returns (err: Option<HexError>)
    ensures err == None <==> Minimal(raw) && |raw| <= maxLen
    ensures err == HexCheck(raw, maxLen)
  {
    if raw == "" { return Some(Empty); }
    if |raw| > maxLen { return Some(TooLong); }
    if |raw| > 1 && raw[0] == '0' { return Some(LeadingZero); }
    for i := 0 to |raw|
      invariant AllHex(raw[..i])
    {
      if !IsLowerHexDigit(raw[i]) { return Some(NotHex); }
      assert raw[..i + 1] == raw[..i] + [raw[i]];
    }
    assert raw[..|raw|] == raw;
    return None;
  }

  /** A certificate serial; "" is the unset value. */
  datatype SerialNumber = SerialNumber(hex: string) {
    predicate Valid() {
      hex == "" || (Minimal(hex) && |hex| <= MAX_HEX_LENGTH && hex != "0")
    }

    predicate IsZero() { hex == "" }

    function Big(): nat
      requires Valid()
    {
      Value(hex)
    }
  }

  /** The values the constructors of values.go can build. */
  type Serial = s: SerialNumber | s.Valid() witness SerialNumber("")

  function ParseSerialNumber(raw: string): Option<Serial> {
    if HexCheck(raw, MAX_HEX_LENGTH) != None then None
    else if raw == "0" then None
    else Some(SerialNumber(raw))
  }

  function NewSerialNumberFromBig(n: int): (r: Option<Serial>) {
    if n <= 0 then None
    else ParseSerialNumber(Text(n))
  }

  /** A CRL number; "" is the unset value. Increment may leave the 40 digits ParseCRLNumber allows. */
  datatype CrlNumberValue = CrlNumber(hex: string) {
    predicate Valid() { hex == "" || Minimal(hex) }

    predicate IsZero() { hex == "" }

    function Big(): nat
      requires Valid()
    {
      Value(hex)
    }
  }

  type CRLNumber = c: CrlNumberValue | c.Valid() witness CrlNumber("")

  function ParseCRLNumber(raw: string): Option<CRLNumber> {
    if HexCheck(raw, MAX_HEX_LENGTH) != None then None else Some(CrlNumber(raw))
  }

  function NewCRLNumberFromBig(n: int): Option<CRLNumber> {
    if n < 0 then None else ParseCRLNumber(Text(n))
  }

  function Increment(c: CRLNumber): (r: CRLNumber)
    ensures !r.IsZero() && r.Big() == c.Big() + 1
  {
    TextIsMinimal(c.Big() + 1);
    CrlNumber(Text(c.Big() + 1))
  }

  /** big.Int.Cmp. */
  function Compare(a: nat, b: nat): (r: int)
    ensures -1 <= r <= 1 && (r < 0 <==> a < b) && (r == 0 <==> a == b)
  {
    if a < b then -1 else if a == b then 0 else 1
  }

  /** Parsing and big-integer conversion are inverse, and serials fill exactly 1 .. 16^40 - 1. */
  lemma SerialBijection(n: int)
    ensures NewSerialNumberFromBig(n).Some? <==> 0 < n < Pow16(MAX_HEX_LENGTH)
    ensures NewSerialNumberFromBig(n).Some? ==>
              !NewSerialNumberFromBig(n).value.IsZero() && NewSerialNumberFromBig(n).value.Big() == n
  {
    if n > 0 {
      TextIsMinimal(n);
      TextLength(n, MAX_HEX_LENGTH);
    }
  }

  lemma SerialTextRoundTrip(s: Serial)
    requires !s.IsZero()
    ensures ParseSerialNumber(s.hex) == Some(s)
    ensures s.Big() > 0 && NewSerialNumberFromBig(s.Big()) == Some(s)
  {
    MinimalIsText(s.hex);
  }

  /** String equality is numeric equality on serials, the unset one included. */
  lemma SerialEqualIsCompare(a: Serial, b: Serial)
    ensures a.hex == b.hex <==> Compare(a.Big(), b.Big()) == 0
  {
    if a.hex != "" { MinimalIsText(a.hex); }
    if b.hex != "" { MinimalIsText(b.hex); }
  }

  lemma CRLNumberBijection(n: int)
    ensures NewCRLNumberFromBig(n).Some? <==> 0 <= n < Pow16(MAX_HEX_LENGTH)
    ensures NewCRLNumberFromBig(n).Some? ==>
              !NewCRLNumberFromBig(n).value.IsZero() && NewCRLNumberFromBig(n).value.Big() == n
  {
    if n >= 0 {
      TextIsMinimal(n);
      TextLength(n, MAX_HEX_LENGTH);
    }
  }

  /** For CRL numbers, Compare is blind to exactly one pair: the unset number and "0". */
  lemma CRLNumberEqualIsCompare(a: CRLNumber, b: CRLNumber)
    ensures Compare(a.Big(), b.Big()) == 0 <==> a == b || (a.hex == "" && b.hex == "0") || (a.hex == "0" && b.hex == "")
  {
    if a.hex != "" { MinimalIsText(a.hex); }
    if b.hex != "" { MinimalIsText(b.hex); }
    assert Value("0") == 0;
  }

  /** Increment stays readable by ParseCRLNumber exactly below 16^40 - 1. */
  lemma IncrementParseable(c: CRLNumber)
    ensures ParseCRLNumber(Increment(c).hex) == Some(Increment(c)) <==> c.Big() < Pow16(MAX_HEX_LENGTH) - 1
  {
    TextIsMinimal(c.Big() + 1);
    TextLength(c.Big() + 1, MAX_HEX_LENGTH);
  }

  /** The last parseable number, where Increment first leaves the parser's domain. */
  lemma IncrementLeavesDomain()
    ensures exists c: CRLNumber :: ParseCRLNumber(c.hex) == Some(c) && ParseCRLNumber(Increment(c).hex) == None
  {
    var n := Pow16(MAX_HEX_LENGTH) - 1;
    PowAbove(MAX_HEX_LENGTH);
    CRLNumberBijection(n);
    var c := NewCRLNumberFromBig(n).value;
    IncrementParseable(c);
    assert ParseCRLNumber(c.hex) == Some(c);
  }

  const UUID_LENGTH: nat := 36

  predicate UuidPosition(i: nat, c: char) {
    if i == 8 || i == 13 || i == 18 || i == 23 then c == '-' else IsLowerHexDigit(c)
  }

  predicate IsUuid(raw: string) {
    |raw| == UUID_LENGTH && forall i | 0 <= i < |raw| :: UuidPosition(i, raw[i])
  }

  method ParseUuid(raw: string) returns (ok: bool)
    ensures ok <==> IsUuid(raw)
  {
    if |raw| != UUID_LENGTH { return false; }
    for i := 0 to UUID_LENGTH
      invariant forall j | 0 <= j < i :: UuidPosition(j, raw[j])
    {
      if !UuidPosition(i, raw[i]) { return false; }
    }
    return true;
  }
}
