/**
 * The imperative half of key import: owned copies, zeroing, CBC padding and the request budget
 * (internal/cryptoformats/pki_parser.go).
 */
module KeyImport {
  import opened Outcomes
  import opened Bytes
  import opened Der
  import opened Pbes2

  /** append([]byte(nil), s...) */
  method Copy(s: seq<byte>) returns (a: array<byte>)
    ensures fresh(a) && a[..] == s
  {
    a := new byte[|s|](i requires 0 <= i < |s| => s[i]);
    assert a[..] == s;
  }

  class Pbes2Parameters {
    const iterations: int
    const keySize: nat
    const salt: array<byte>
    const iv: array<byte>
    const ciphertext: array<byte>

    constructor (iterations: int, keySize: nat, salt: array<byte>, iv: array<byte>, ciphertext: array<byte>)
      ensures this.iterations == iterations && this.keySize == keySize
      ensures this.salt == salt && this.iv == iv && this.ciphertext == ciphertext
    {
      this.iterations, this.keySize, this.salt, this.iv, this.ciphertext := iterations, keySize, salt, iv, ciphertext;
    }

    function View(): Params
      reads salt, iv, ciphertext
    {
      Params(iterations, salt[..], keySize, iv[..], ciphertext[..])
    }

    method Clear()
      requires salt != iv && salt != ciphertext && iv != ciphertext
      modifies salt, iv, ciphertext
      ensures View() == Params(iterations, Zeros(salt.Length), keySize, Zeros(iv.Length), Zeros(ciphertext.Length))
    {
      Zero(salt);
      Zero(iv);
      Zero(ciphertext);
    }
  }

  method ParsePbkdf2Parameters(raw: RawValue)
    returns (ok: bool, iterations: int, salt: array<byte>, keyLength: int, hasKeyLength: bool)
    ensures fresh(salt)
    ensures ok <==> ParsePbkdf2(raw).Some?
    ensures ok ==>
              ParsePbkdf2(raw).value ==
              Pbkdf2(iterations, salt[..], if hasKeyLength then Some(keyLength) else None)
  {
    hide Split, ParseAlgorithmIdentifier, ParseInt, Canonical, Concat;
    ok, iterations, keyLength, hasKeyLength := false, 0, 0, false;
    salt := new byte[0];
    var cut := SequenceParts(raw);
    if cut == None { return; }
    var parts := cut.value;
    if |parts| < 3 || |parts| > 4 || !IsPrimitive(parts[0], TAG_OCTET_STRING) { return; }
    var saltBytes := parts[0].content;
    if |saltBytes| < 8 || |saltBytes| > 64 { return; }
    var count := ParseIntValue(parts[1]);
    if count == None || count.value < 1 || count.value > MAX_ITERATIONS { return; }
    iterations := count.value;
    salt := Copy(saltBytes);
    var index := 2;
    if IsPrimitive(parts[index], TAG_INTEGER) {
      var length := ParseIntValue(parts[index]);
      if length == None || length.value <= 0 { return; }
      keyLength, hasKeyLength := length.value, true;
      index := index + 1;
    }
    if index >= |parts| || index != |parts| - 1 || !IsSequence(parts[index]) { return; }
    if !PrfAccepted(parts[index]) { return; }
    ok := true;
  }

  /**
   * The result owns its arrays: zeroing the salt that was parsed first, on whatever way out, leaves them and the
   * input as they are.
   */
  method InspectEncryptedPkcs8(der: array<byte>) returns (r: Pbes2Parameters?, ghost scratch: array?<byte>)
    ensures r != null <==> Inspect(der[..]).Some?
    ensures r != null ==> fresh(r.salt) && fresh(r.iv) && fresh(r.ciphertext)
    ensures r != null ==> r.salt != r.iv && r.salt != r.ciphertext && r.iv != r.ciphertext
    ensures r != null ==> Inspect(der[..]) == Some(r.View())
    ensures scratch != null ==> fresh(scratch) && scratch[..] == Zeros(scratch.Length)
  {
    hide Split, ParseAlgorithmIdentifier, ParsePbkdf2, ParseFull, CipherOf, Concat, AllCanonical, Canonical;
    scratch := null;
    var outer := ParseFull(der[..]);
    if outer == None || !IsSequence(outer.value) { return null, null; }
    var parts := SequenceParts(outer.value);
    if parts == None || |parts.value| != 2 || !IsPrimitive(parts.value[1], TAG_OCTET_STRING) { return null, null; }
    var scheme := AlgorithmParameters(parts.value[0], PBES2);
    if scheme == None || !IsSequence(scheme.value) { return null, null; }
    var pbesParts := SequenceParts(scheme.value);
    if pbesParts == None || |pbesParts.value| != 2 { return null, null; }
    var kdf := AlgorithmParameters(pbesParts.value[0], PBKDF2);
    if kdf == None || !IsSequence(kdf.value) { return null, null; }
    var ok, iterations, salt, keyLength, hasKeyLength := ParsePbkdf2Parameters(kdf.value);
    if !ok { return null, null; }
    scratch := salt;
    ghost var parsed := Pbkdf2(iterations, salt[..], if hasKeyLength then Some(keyLength) else None);
    r := FinishInspection(iterations, salt, keyLength, hasKeyLength, pbesParts.value[1], parts.value[1].content);
    Zero(salt);
    assert Inspect(der[..]) == Finish(parsed, pbesParts.value[1], parts.value[1].content);
  }

  /** What the rest of the inspection accepts once PBKDF2 is known. */
  function Finish(kdf: Pbkdf2, cipher: RawValue, ciphertext: seq<byte>): Option<Params> {
    var c := CipherOf(cipher);
    if c == None then None else Assemble(kdf, c.value, ciphertext)
  }

  method FinishInspection(iterations: int, salt: array<byte>, keyLength: int, hasKeyLength: bool, cipher: RawValue,
      ciphertext: seq<byte>)
    returns (r: Pbes2Parameters?)
    ensures r != null ==> fresh(r) && fresh(r.salt) && fresh(r.iv) && fresh(r.ciphertext)
    ensures r != null ==> r.salt != r.iv && r.salt != r.ciphertext && r.iv != r.ciphertext
    ensures var kdf := Pbkdf2(iterations, salt[..], if hasKeyLength then Some(keyLength) else None);
            Finish(kdf, cipher, ciphertext) == if r == null then None else Some(r.View())
  {
    hide CipherOf;
    var c := CipherOf(cipher);
    if c == None { return null; }
    if hasKeyLength && keyLength != c.value.keySize { return null; }
    if |ciphertext| == 0 || |ciphertext| % BLOCK_SIZE != 0 || |ciphertext| > FILE_LIMIT { return null; }
    var ownSalt := Copy(salt[..]);
    var ownIv := Copy(c.value.iv);
    var ownCiphertext := Copy(ciphertext);
    r := new Pbes2Parameters(iterations, c.value.keySize, ownSalt, ownIv, ownCiphertext);
  }

  // ---- CBC padding, section 6.3 of RFC 5652 ----

  /** Bitwise exclusive or of non-negative machine integers. */
  function Xor(a: nat, b: nat): nat {
    if a == 0 && b == 0 then 0 else 2 * Xor(a / 2, b / 2) + if a % 2 != b % 2 then 1 else 0
  }

  /** Bitwise or of non-negative machine integers. */
  function Or(a: nat, b: nat): nat {
    if a == 0 && b == 0 then 0 else 2 * Or(a / 2, b / 2) + if a % 2 == 1 || b % 2 == 1 then 1 else 0
  }

  lemma {:induction false} XorZero(a: nat, b: nat)
    ensures Xor(a, b) == 0 <==> a == b
  {
    if a != 0 || b != 0 { XorZero(a / 2, b / 2); }
  }

  lemma {:induction false} OrZero(a: nat, b: nat)
    ensures Or(a, b) == 0 <==> a == 0 && b == 0
  {
    if a != 0 || b != 0 { OrZero(a / 2, b / 2); }
  }

  function Bit(a: nat, k: nat): bool { if k == 0 then a % 2 == 1 else Bit(a / 2, k - 1) }

  lemma XorStep(a: nat, b: nat)
    ensures Xor(a, b) / 2 == Xor(a / 2, b / 2)
    ensures Xor(a, b) % 2 == 1 <==> a % 2 != b % 2
  {
    if a == 0 && b == 0 { XorZero(0, 0); }
  }

  lemma OrStep(a: nat, b: nat)
    ensures Or(a, b) / 2 == Or(a / 2, b / 2)
    ensures Or(a, b) % 2 == 1 <==> a % 2 == 1 || b % 2 == 1
  {
    if a == 0 && b == 0 { OrZero(0, 0); }
  }

  /** Both work bit by bit. */
  lemma {:induction false} BitwiseExactly(a: nat, b: nat, k: nat)
    ensures Bit(Xor(a, b), k) <==> Bit(a, k) != Bit(b, k)
    ensures Bit(Or(a, b), k) <==> Bit(a, k) || Bit(b, k)
    decreases k
  {
    hide Xor, Or;
    XorStep(a, b);
    OrStep(a, b);
    if k > 0 { BitwiseExactly(a / 2, b / 2, k - 1); }
  }

  /** subtle.ConstantTimeLessOrEq */
  function LessOrEq(x: int, y: int): nat { if x <= y then 1 else 0 }

  lemma LessOrEqExactly(x: int, y: int)
    ensures LessOrEq(x, y) == 1 <==> x <= y
    ensures LessOrEq(x, y) == 0 <==> y < x
  {
  }

  predicate Padded(data: seq<byte>, blockSize: int, n: nat) {
    && blockSize > 0 && data != [] && |data| % blockSize == 0
    && 1 <= n <= blockSize && n <= |data|
    && forall i | |data| - n <= i < |data| :: data[i] == n
  }

  /** The count on the last octet, if the buffer is padded with it. */
  function Removed(data: seq<byte>, blockSize: int): Result<nat> {
    if data != [] && Padded(data, blockSize, data[|data| - 1]) then Ok(data[|data| - 1]) else Err(InvalidValue)
  }

  /** The masked loop over the last block accepts exactly a block-aligned buffer whose last n octets all read n. */
  method RemovePkcs7Padding(data: seq<byte>, blockSize: int) returns (r: Result<nat>)
    ensures r == Removed(data, blockSize)
  {
    hide Or, Xor;
    if |data| == 0 || blockSize <= 0 || |data| % blockSize != 0 { return Err(InvalidValue); }
    WholeBlocks(|data|, blockSize);
    var padding: int := data[|data| - 1];
    if padding < 1 || padding > blockSize { return Err(InvalidValue); }
    var mismatch: nat := 0;
    for i := 0 to blockSize
      invariant mismatch == 0 <==> forall k | |data| - i <= k < |data| && k >= |data| - padding :: data[k] == padding
    {
      var mask := LessOrEq(i + 1, padding);
      var at := |data| - 1 - i;
      XorZero(data[at], padding);
      OrZero(mismatch, mask * Xor(data[at], padding));
      mismatch := Or(mismatch, mask * Xor(data[at], padding));
    }
    if mismatch != 0 { return Err(InvalidValue); }
    return Ok(padding);
  }

  /** The count is determined by the buffer. */
  lemma PaddedOnce(data: seq<byte>, blockSize: int, n: nat)
    requires Padded(data, blockSize, n)
    ensures n == data[|data| - 1]
  {
  }

  /** A count is returned exactly when the buffer is padded with it. */
  lemma RemovedExactly(data: seq<byte>, blockSize: int, n: nat)
    ensures Removed(data, blockSize) == Ok(n) <==> Padded(data, blockSize, n)
  {
    if Padded(data, blockSize, n) { PaddedOnce(data, blockSize, n); }
  }

  lemma WholeBlocks(length: nat, blockSize: int)
    requires length > 0 && blockSize > 0 && length % blockSize == 0
    ensures length >= blockSize
  {
  }

  function Pad(m: seq<byte>, blockSize: int): seq<byte>
    requires 0 < blockSize < 256
  {
    var n := blockSize - |m| % blockSize;
    m + seq(n, _ => n)
  }

  /** The padding of every message is recognised, and taking it off gives the message back. */
  lemma PadUnpad(m: seq<byte>, blockSize: int)
    requires 0 < blockSize < 256
    ensures var n := blockSize - |m| % blockSize;
            && Removed(Pad(m, blockSize), blockSize) == Ok(n)
            && n <= |Pad(m, blockSize)| && Pad(m, blockSize)[..|Pad(m, blockSize)| - n] == m
  {
    hide Removed;
    var n := blockSize - |m| % blockSize;
    PadLength(|m|, blockSize);
    RemovedExactly(Pad(m, blockSize), blockSize, n);
  }

  lemma PadLength(length: nat, blockSize: int)
    requires blockSize > 0
    ensures (length + (blockSize - length % blockSize)) % blockSize == 0
  {
    var q, r := length / blockSize, length % blockSize;
    assert length == q * blockSize + r;
    assert length + (blockSize - r) == (q + 1) * blockSize by { Distribute(q, blockSize); }
    MultipleMod(q + 1, blockSize);
  }

  lemma Distribute(q: nat, k: int)
    ensures (q + 1) * k == q * k + k
  {
  }

  lemma {:induction false} MultipleMod(q: nat, k: int)
    requires k > 0
    ensures (q * k) % k == 0
  {
    var d, r := (q * k) / k, (q * k) % k;
    assert q * k == d * k + r;
    MultipleGap(q, d, k, r);
  }

  lemma MultipleGap(q: nat, d: int, k: int, r: int)
    requires k > 0 && q * k == d * k + r && 0 <= r < k
    ensures r == 0
  {
    assert (q - d) * k == r;
    Grows(q - d, k);
  }

  lemma Grows(e: int, k: int)
    requires k > 0
    ensures e >= 1 ==> e * k >= k
    ensures e <= -1 ==> e * k <= -k
  {
  }

  // ---- the iteration budget of one request ----

  const MAX_REQUEST_ITERATIONS: int := 4_000_000

  function Total(iterations: seq<nat>): nat {
    if iterations == [] then 0 else iterations[|iterations| - 1] + Total(iterations[..|iterations| - 1])
  }

  ghost predicate WithinBudget(preflights: seq<Result<nat>>) {
    && (forall p | p in preflights :: p.Ok?)
    && Total(Iterations(preflights)) <= MAX_REQUEST_ITERATIONS
  }

  function Iterations(preflights: seq<Result<nat>>): seq<nat> {
    seq(|preflights|, i requires 0 <= i < |preflights| => if preflights[i].Ok? then preflights[i].value else 0)
  }

  /** A request is within its budget when every key is readable and all iterations together are at most four million. */
  lemma BudgetExactly(preflights: seq<Result<nat>>)
    ensures WithinBudget(preflights) <==>
              (forall r | r in preflights :: r.Ok?) && Total(Iterations(preflights)) <= 4_000_000
  {
    if forall r | r in preflights :: r.Ok? { assert forall i | 0 <= i < |preflights| :: preflights[i] in preflights; }
  }

  /** Stopping at the first key that fails or overruns decides the same as adding up the whole request. */
  method PreflightCAKeys(preflights: seq<Result<nat>>) returns (ok: bool)
    ensures ok <==> WithinBudget(preflights)
  {
    var total := 0;
    for i := 0 to |preflights|
      invariant total == Total(Iterations(preflights[..i])) <= MAX_REQUEST_ITERATIONS
      invariant forall k | 0 <= k < i :: preflights[k].Ok?
    {
      assert preflights[i] in preflights;
      if preflights[i].Err? { return false; }
      assert Iterations(preflights[..i + 1])[..i] == Iterations(preflights[..i]);
      total := total + preflights[i].value;
      if total > MAX_REQUEST_ITERATIONS {
        TotalRises(Iterations(preflights), i + 1);
        assert Iterations(preflights)[..i + 1] == Iterations(preflights[..i + 1]);
        return false;
      }
    }
    assert preflights[..|preflights|] == preflights;
    return true;
  }

  lemma {:induction false} TotalRises(iterations: seq<nat>, k: nat)
    requires k <= |iterations|
    ensures Total(iterations[..k]) <= Total(iterations)
    decreases |iterations|
  {
    if k < |iterations| {
      var before := iterations[..|iterations| - 1];
      TotalRises(before, k);
      assert before[..k] == iterations[..k];
    } else {
      assert iterations[..k] == iterations;
    }
  }
}
