/** The affine cipher for keypad codes and the configuration gate in front of its parameters. */
module KeypadCipher {
  import opened Integers
  import opened Euclid

  // ----- the cipher in the firmware's integer widths

  function EncryptKeypadCode(code: u32, multiplier: u32, offset: u32, modulus: u32): u32
    requires modulus != 0
  {
    var product := U32(code * multiplier);
    var sum := U32(product + offset);
    U32(sum % modulus + modulus)
  }

  function DecryptKeypadCode(encryptedCode: u32, inverse: u32, offset: u32, modulus: u32): u32
    requires modulus != 0
  {
    if inverse == 0 then 0
    else
      var shifted := U32(encryptedCode - offset) % modulus;
      var product: u64 := (ProductFits(shifted, inverse); shifted * inverse);
      product % modulus
  }

  lemma ProductFits(x: u32, y: u32)
    ensures 0 <= x * y < TWO_TO_64
  {
    MulOrder(x, y, TWO_TO_32);
    MulOrder(TWO_TO_32, x, TWO_TO_32 - 1);
    MulOrder(x, 0, y);
  }

  // ----- the documented formulas over the integers

  function Encrypt(code: nat, multiplier: nat, offset: nat, modulus: nat): nat
    requires modulus != 0
  {
    (code * multiplier + offset) % modulus + modulus
  }

  function Decrypt(encryptedCode: nat, inverse: nat, offset: nat, modulus: nat): nat
    requires modulus != 0
  {
    ((encryptedCode - offset) % modulus * inverse) % modulus
  }

  /** Undoing the affine map: `y` is congruent to `code * multiplier - shift`. */
  lemma UndoAffine(code: nat, multiplier: nat, inverse: nat, modulus: nat, y: int, shift: int)
    requires IsInverse(inverse, multiplier, modulus)
    requires Congruent(y, code * multiplier - shift, modulus)
    ensures Congruent(y % modulus * inverse, code - shift * inverse, modulus)
  {
    var m := modulus;
    ModOfMod(y, m);
    CongruentMul(y % m, code * multiplier - shift, inverse, m);
    ModOfSmall(1, m);
    CongruentMul(multiplier * inverse, 1, code, m);
    assert multiplier * inverse * code == code * multiplier * inverse;
    CongruentAdd(code * multiplier * inverse, code, -(shift * inverse), m);
    assert (code * multiplier - shift) * inverse == code * multiplier * inverse - shift * inverse;
  }

  /** A multiple of an invertible number vanishes exactly when the factor does. */
  lemma InvertibleFactor(x: int, multiplier: nat, inverse: nat, modulus: nat)
    requires IsInverse(inverse, multiplier, modulus)
    ensures (x * inverse) % modulus == 0 <==> x % modulus == 0
  {
    ModOfSmall(0, modulus);
    if x % modulus == 0 {
      CongruentMul(x, 0, inverse, modulus);
    }
    if (x * inverse) % modulus == 0 {
      CongruentMul(x * inverse, 0, multiplier, modulus);
      ModOfSmall(1, modulus);
      CongruentMul(multiplier * inverse, 1, x, modulus);
      assert x * inverse * multiplier == multiplier * inverse * x;
    }
  }

  /** How many multiples of 2^32 the unsigned 32-bit `code * multiplier + offset` drops. */
  function Carry(code: u32, multiplier: u32, offset: u32): nat {
    NonNegativeProduct(code, multiplier);
    (code * multiplier + offset) / TWO_TO_32
  }

  lemma NonNegativeProduct(x: nat, y: nat)
    ensures x * y >= 0
  {
  }

  /** One when `encryptedCode - offset` borrows, which no offset below the modulus makes it do. */
  function Borrow(encryptedCode: u32, offset: u32): nat {
    if encryptedCode < offset then 1 else 0
  }

  lemma EncryptedSum(code: u32, multiplier: u32, offset: u32)
    ensures U32(U32(code * multiplier) + offset)
         == code * multiplier + offset - Carry(code, multiplier, offset) * TWO_TO_32
  {
    ModOfMod(code * multiplier, TWO_TO_32);
    CongruentAdd(U32(code * multiplier), code * multiplier, offset, TWO_TO_32);
    QuotientAndRemainder(code * multiplier + offset, TWO_TO_32) by { NonNegativeProduct(code, multiplier); }
  }

  lemma DecryptShift(encryptedCode: u32, offset: u32)
    ensures U32(encryptedCode - offset) == encryptedCode - offset + Borrow(encryptedCode, offset) * TWO_TO_32
  {
    DivModUnique(encryptedCode - offset, TWO_TO_32, 0 - Borrow(encryptedCode, offset),
                 encryptedCode - offset + Borrow(encryptedCode, offset) * TWO_TO_32);
  }

  lemma EncryptInRange(code: u32, multiplier: u32, offset: u32, modulus: u32)
    requires 1 < modulus <= TWO_TO_32 / 2
    ensures var sum := U32(U32(code * multiplier) + offset);
      EncryptKeypadCode(code, multiplier, offset, modulus) == sum % modulus + modulus < 2 * modulus
  {
    var sum := U32(U32(code * multiplier) + offset);
    ModOfSmall(sum % modulus + modulus, TWO_TO_32);
  }

  /**
   * The machine round trip, for every code and every parameter set the gate or the defaults can put in
   * force: decryption returns the code modulo the modulus exactly when the net amount lost to the two
   * 32-bit wrap-arounds is itself a multiple of the modulus.
   */
  lemma RoundTripExactly(code: u32, multiplier: u32, offset: u32, modulus: u32, inverse: u32)
    requires 1 < modulus <= TWO_TO_32 / 2
    requires IsInverse(inverse, multiplier, modulus)
    ensures var encrypted := EncryptKeypadCode(code, multiplier, offset, modulus);
      DecryptKeypadCode(encrypted, inverse, offset, modulus) == code % modulus
      <==> ((Carry(code, multiplier, offset) - Borrow(encrypted, offset)) * TWO_TO_32) % modulus == 0
  {
    var m := modulus;
    var encrypted := EncryptKeypadCode(code, multiplier, offset, m);
    var sum := U32(U32(code * multiplier) + offset);
    var lost := (Carry(code, multiplier, offset) - Borrow(encrypted, offset)) * TWO_TO_32;
    EncryptInRange(code, multiplier, offset, m);
    EncryptedSum(code, multiplier, offset);
    DecryptShift(encrypted, offset);
    var y := U32(encrypted - offset);
    assert Congruent(y, code * multiplier - lost, m) by {
      ModShift(sum % m, 1, m);
      ModOfMod(sum, m);
      CongruentAdd(encrypted, sum, y - encrypted, m);
      assert sum + (y - encrypted) == code * multiplier - lost;
    }
    UndoAffine(code, multiplier, inverse, m, y, lost);
    var decrypted := DecryptKeypadCode(encrypted, inverse, offset, m);
    assert decrypted == (code - lost * inverse) % m;
    CancelShift(code, lost * inverse, m);
    InvertibleFactor(lost, multiplier, inverse, m);
  }

  lemma CancelShift(x: int, z: int, m: nat)
    requires m > 0
    ensures Congruent(x - z, x, m) <==> z % m == 0
  {
    ModOfSmall(0, m);
    if Congruent(x - z, x, m) {
      CongruentAdd(x - z, x, z - x, m);
    }
    if z % m == 0 {
      CongruentAdd(z, 0, x - z, m);
    }
  }

  /** The condition a caller can check: no 32-bit wrap, an offset the gate accepted, a code in range. */
  lemma RoundTrip(code: u32, multiplier: u32, offset: u32, modulus: u32, inverse: u32)
    requires 1 < modulus <= TWO_TO_32 / 2 && offset < modulus
    requires IsInverse(inverse, multiplier, modulus)
    requires code * multiplier + offset < TWO_TO_32
    ensures var encrypted := EncryptKeypadCode(code, multiplier, offset, modulus);
      && modulus <= encrypted < 2 * modulus
      && encrypted == Encrypt(code, multiplier, offset, modulus)
      && DecryptKeypadCode(encrypted, inverse, offset, modulus) == code % modulus
      && (DecryptKeypadCode(encrypted, inverse, offset, modulus) == code <==> code < modulus)
  {
    NonNegativeProduct(code, multiplier);
    DivModUnique(code * multiplier + offset, TWO_TO_32, 0, code * multiplier + offset);
    EncryptedSum(code, multiplier, offset);
    EncryptInRange(code, multiplier, offset, modulus);
    RoundTripExactly(code, multiplier, offset, modulus, inverse);
    ModOfSmall(0, modulus);
    if code < modulus {
      ModOfSmall(code, modulus);
    }
  }

  /** A code whose product wraps: all parameters pass the gate, and decryption returns another code. */
  lemma WrappedCodeIsLost(inverse: u32)
    requires InverseOrZero(inverse, 999999, 1000000)
    ensures Coprime(999999, 1000000)
    ensures DecryptKeypadCode(EncryptKeypadCode(999999, 999999, 12345, 1000000), inverse, 12345, 1000000) != 999999
  {
    assert Gcd(999999, 1000000) == 1;
    CoprimeIffGcdIsOne(999999, 1000000);
    RoundTripExactly(999999, 999999, 12345, 1000000, inverse);
    WrapOfTheExample();
  }

  lemma WrapOfTheExample()
    ensures Carry(999999, 999999, 12345) == 232
    ensures EncryptKeypadCode(999999, 999999, 12345, 1000000) >= 1000000
  {
    EncryptInRange(999999, 999999, 12345, 1000000);
  }

  /** Over the integers decryption inverts encryption on codes below the modulus. */
  lemma DecryptEncrypt(code: nat, multiplier: nat, offset: nat, modulus: nat, inverse: nat)
    requires IsInverse(inverse, multiplier, modulus) && code < modulus
    ensures var encrypted := Encrypt(code, multiplier, offset, modulus);
      modulus <= encrypted < 2 * modulus && Decrypt(encrypted, inverse, offset, modulus) == code
  {
    var sum := code * multiplier + offset;
    ModShift(sum % modulus, 1, modulus);
    ModOfMod(sum, modulus);
    CongruentAdd(Encrypt(code, multiplier, offset, modulus), sum, 0 - offset, modulus);
    UndoAffine(code, multiplier, inverse, modulus, Encrypt(code, multiplier, offset, modulus) - offset, 0);
    ModOfSmall(code, modulus);
  }

  /** ... and encryption inverts decryption on `[modulus, 2 * modulus)`, so both are bijections. */
  lemma EncryptDecrypt(encryptedCode: nat, multiplier: nat, offset: nat, modulus: nat, inverse: nat)
    requires IsInverse(inverse, multiplier, modulus) && modulus <= encryptedCode < 2 * modulus
    ensures var code := Decrypt(encryptedCode, inverse, offset, modulus);
      code < modulus && Encrypt(code, multiplier, offset, modulus) == encryptedCode
  {
    var m := modulus;
    var y := encryptedCode - offset;
    var code := Decrypt(encryptedCode, inverse, offset, m);
    ModOfMod(y, m);
    ModOfMod(y % m * inverse, m);
    CongruentMul(code, y % m * inverse, multiplier, m);
    ModOfSmall(1, m);
    CongruentMul(multiplier * inverse, 1, y % m, m);
    assert y % m * inverse * multiplier == multiplier * inverse * (y % m);
    CongruentAdd(code * multiplier, y, offset, m);
    ModShift(encryptedCode - m, 1, m);
    ModOfSmall(encryptedCode - m, m);
  }

  // ----- the stored parameters and their gate

  const MIN_MODULUS: u32 := 100001
  const MAX_MODULUS: u32 := 2147483647

  /** The three stored preferences; 0 stands for "never stored". */
  datatype Parameters = Parameters(modulus: u32, offset: u32, multiplier: u32)

  datatype Request = KpMod(value: u32) | KpOff(value: u32) | KpMult(value: u32)

  predicate Accepts(p: Parameters, r: Request) {
    match r
    case KpMod(v) => p.modulus != v && v > 100000 && v <= MAX_MODULUS
    case KpOff(v) => p.offset != v && v >= 1 && v <= U32(p.modulus - 1)
    case KpMult(v) => p.multiplier != v && v > 1 && v <= U32(p.modulus - 1) && Gcd(v, p.modulus) == 1
  }

  function Handle(p: Parameters, r: Request): Parameters {
    if !Accepts(p, r) then p
    else match r
      case KpMod(v) => p.(modulus := v)
      case KpOff(v) => p.(offset := v)
      case KpMult(v) => p.(multiplier := v)
  }

  function HandleAll(p: Parameters, rs: seq<Request>): Parameters
    decreases |rs|
  {
    if rs == [] then p else HandleAll(Handle(p, rs[0]), rs[1..])
  }

  /** What the lock side uses after `readSettings`: defaults for what was never stored. */
  function InForce(p: Parameters): Parameters {
    Parameters(
      if p.modulus == 0 then 1000000 else p.modulus,
      if p.offset == 0 then 12345 else p.offset,
      if p.multiplier == 0 then 73 else p.multiplier)
  }

  /** What the gate aims at. It is sufficient for decryption; `DecryptsExactly` says what is necessary. */
  ghost predicate Invertible(p: Parameters) {
    && MIN_MODULUS <= p.modulus <= MAX_MODULUS
    && 1 <= p.offset < p.modulus
    && Coprime(p.multiplier, p.modulus)
  }

  class KeypadPreferences {
    var modulus: u32
    var offset: u32
    var multiplier: u32

    function View(): Parameters
      reads this
    {
      Parameters(modulus, offset, multiplier)
    }

    constructor ()
      ensures View() == Parameters(0, 0, 0)
    {
      modulus, offset, multiplier := 0, 0, 0;
    }

    /** The KPMOD, KPOFF and KPMULT branches of `processArgs`. */
    method ProcessArg(r: Request) returns (configChanged: bool)
      modifies this
      ensures configChanged == Accepts(old(View()), r)
      ensures View() == Handle(old(View()), r)
      ensures configChanged <==> match r
        case KpMod(v) => v != old(modulus) && 100001 <= v <= 2147483647
        case KpOff(v) => v != old(offset) && 1 <= v && (old(modulus) == 0 || v < old(modulus))
        case KpMult(v) => old(modulus) != 0 && v != old(multiplier) && 1 < v < old(modulus) && Coprime(v, old(modulus))
      ensures modulus == if configChanged && r.KpMod? then r.value else old(modulus)
      ensures offset == if configChanged && r.KpOff? then r.value else old(offset)
      ensures multiplier == if configChanged && r.KpMult? then r.value else old(multiplier)
    {
      GateMeaning(View(), r.value);
      configChanged := false;
      match r {
        case KpMod(v) =>
          if modulus != v {
            if v > 100000 && v <= MAX_MODULUS {
              modulus := v;
              configChanged := true;
            }
          }
        case KpOff(v) =>
          var currentMod: int := modulus;
          if offset != v {
            if v >= 1 && v <= U32(currentMod - 1) {
              offset := v;
              configChanged := true;
            }
          }
        case KpMult(v) =>
          var currentMod: int := modulus;
          if multiplier != v {
            var gcd, _ := GetGCD(v, currentMod);
            CoprimeIffGcdIsOne(v, currentMod);
            if v > 1 && v <= U32(currentMod - 1) && gcd == 1 {
              multiplier := v;
              configChanged := true;
            }
          }
      }
    }
  }

  /** The lock side: the parameters in force and the inverse computed from them. */
  class CipherSettings {
    var parameters: Parameters
    var inverse: u32

    ghost predicate Valid()
      reads this
    {
      && parameters.modulus != 0
      && InverseOrZero(inverse, parameters.multiplier, parameters.modulus)
    }

    /** The cipher part of `readSettings`. */
    constructor (stored: Parameters)
      ensures Valid() && parameters == InForce(stored)
      ensures parameters.modulus == stored.modulus || (stored.modulus == 0 && parameters.modulus == 1000000)
      ensures parameters.offset == stored.offset || (stored.offset == 0 && parameters.offset == 12345)
      ensures parameters.multiplier == stored.multiplier || (stored.multiplier == 0 && parameters.multiplier == 73)
      ensures parameters.modulus != 0 && parameters.offset != 0 && parameters.multiplier != 0
    {
      var p := InForce(stored);
      var x, _ := ModInverse(p.multiplier, p.modulus);
      parameters, inverse := p, x;
    }

    method Encrypt(code: u32) returns (encrypted: u32)
      requires Valid()
      ensures encrypted == EncryptKeypadCode(code, parameters.multiplier, parameters.offset, parameters.modulus)
    {
      encrypted := EncryptKeypadCode(code, parameters.multiplier, parameters.offset, parameters.modulus);
    }

    /** Decryption; what `Encrypt` produced without a wrap-around comes back reduced. */
    method Decrypt(encryptedCode: u32, ghost code: u32) returns (decrypted: u32)
      requires Valid()
      ensures decrypted == DecryptKeypadCode(encryptedCode, inverse, parameters.offset, parameters.modulus)
      ensures !Coprime(parameters.multiplier, parameters.modulus) ==> decrypted == 0
      ensures Invertible(parameters) && code * parameters.multiplier + parameters.offset < TWO_TO_32
        && encryptedCode == EncryptKeypadCode(code, parameters.multiplier, parameters.offset, parameters.modulus)
        ==> decrypted == code % parameters.modulus
    {
      decrypted := DecryptKeypadCode(encryptedCode, inverse, parameters.offset, parameters.modulus);
      if Invertible(parameters) && code * parameters.multiplier + parameters.offset < TWO_TO_32 {
        RoundTrip(code, parameters.multiplier, parameters.offset, parameters.modulus, inverse);
      }
    }
  }

  /** What an accepted request guarantees, including the wrapped bound of an unset modulus. */
  lemma GateMeaning(p: Parameters, v: u32)
    ensures Accepts(p, KpMod(v)) <==> v != p.modulus && 100001 <= v <= 2147483647
    ensures Accepts(p, KpMult(v)) <==>
      p.modulus != 0 && v != p.multiplier && 1 < v < p.modulus && Coprime(v, p.modulus)
    ensures Accepts(p, KpOff(v)) <==> v != p.offset && 1 <= v && (p.modulus == 0 || v < p.modulus)
  {
    CoprimeIffGcdIsOne(v, p.modulus);
    if p.modulus == 0 {
      DivModUnique(-1, TWO_TO_32, -1, TWO_TO_32 - 1);
    } else {
      ModOfSmall(p.modulus - 1, TWO_TO_32);
    }
  }

  /** Gate soundness: an accepted multiplier gives `modInverse` a non-zero answer, and codes survive. */
  lemma AcceptedMultiplierDecrypts(p: Parameters, v: u32, x: u32, code: u32)
    requires p.modulus == 0 || MIN_MODULUS <= p.modulus <= MAX_MODULUS
    ensures Accepts(p, KpMult(v)) && InverseOrZero(x, v, p.modulus) ==> x != 0
    ensures Accepts(p, KpMult(v)) && InverseOrZero(x, v, p.modulus)
      && p.offset < p.modulus && code * v + p.offset < TWO_TO_32
      ==> DecryptKeypadCode(EncryptKeypadCode(code, v, p.offset, p.modulus), x, p.offset, p.modulus) == code % p.modulus
  {
    GateMeaning(p, v);
    if Accepts(p, KpMult(v)) && InverseOrZero(x, v, p.modulus) {
      if p.offset < p.modulus && code * v + p.offset < TWO_TO_32 {
        RoundTrip(code, v, p.offset, p.modulus, x);
      }
    }
  }

  /** Every request but an effective change of the modulus keeps an invertible configuration invertible. */
  lemma {:induction false} RunKeepsInvertible(p: Parameters, rs: seq<Request>)
    requires Invertible(p)
    requires forall r :: r in rs && r.KpMod? ==> r.value == p.modulus || !(MIN_MODULUS <= r.value <= MAX_MODULUS)
    ensures Invertible(HandleAll(p, rs)) && HandleAll(p, rs).modulus == p.modulus
    decreases |rs|
  {
    if rs == [] {
    } else {
      assert rs[0] in rs;
      GateMeaning(p, rs[0].value);
      RunKeepsInvertible(Handle(p, rs[0]), rs[1..]);
    }
  }

  /** End to end: after such a run and a reload, every code below the modulus that does not wrap survives. */
  lemma ConfiguredRunRoundTrips(p: Parameters, rs: seq<Request>, code: u32, inverse: u32)
    requires Invertible(p)
    requires forall r :: r in rs && r.KpMod? ==> r.value == p.modulus || !(MIN_MODULUS <= r.value <= MAX_MODULUS)
    requires var q := InForce(HandleAll(p, rs));
      && InverseOrZero(inverse, q.multiplier, q.modulus)
      && code < q.modulus && code * q.multiplier + q.offset < TWO_TO_32
    ensures var q := InForce(HandleAll(p, rs));
      && q == HandleAll(p, rs) && q.modulus == p.modulus
      && DecryptKeypadCode(EncryptKeypadCode(code, q.multiplier, q.offset, q.modulus), inverse, q.offset, q.modulus)
         == code
  {
    RunKeepsInvertible(p, rs);
    var q := HandleAll(p, rs);
    ZeroIsNotCoprime(q.modulus);
    RoundTrip(code, q.multiplier, q.offset, q.modulus, inverse);
  }

  // ----- which configurations decrypt

  /** The code comes back from encryption and decryption. */
  predicate Survives(q: Parameters, inverse: u32, code: u32)
    requires q.modulus != 0
  {
    DecryptKeypadCode(EncryptKeypadCode(code, q.multiplier, q.offset, q.modulus), inverse, q.offset, q.modulus) == code
  }

  /** A code the modulus can tell apart, whose product does not wrap. */
  predicate Fits(q: Parameters, code: u32) {
    code < q.modulus && code * q.multiplier + q.offset < TWO_TO_32
  }

  predicate InRange(modulus: u32) {
    MIN_MODULUS <= modulus <= MAX_MODULUS
  }

  lemma MultipleOfModulus(x: int, m: nat)
    requires m > 0
    ensures (-x) % m == 0 <==> x % m == 0
  {
    CancelShift(0, x, m);
    ModOfSmall(0, m);
  }

  lemma NoCarry(q: Parameters, code: u32)
    requires InRange(q.modulus) && Fits(q, code)
    ensures Carry(code, q.multiplier, q.offset) == 0
    ensures EncryptKeypadCode(code, q.multiplier, q.offset, q.modulus)
         == Encrypt(code, q.multiplier, q.offset, q.modulus) < 2 * q.modulus
  {
    NonNegativeProduct(code, q.multiplier);
    DivModUnique(code * q.multiplier + q.offset, TWO_TO_32, 0, code * q.multiplier + q.offset);
    EncryptedSum(code, q.multiplier, q.offset);
    EncryptInRange(code, q.multiplier, q.offset, q.modulus);
  }

  /** Whether one code survives, by what the 32-bit operations drop on its way to the cipher text and back. */
  ghost predicate CodeCondition(q: Parameters, code: u32)
    requires q.modulus != 0
  {
    if Coprime(q.multiplier, q.modulus)
    then code < q.modulus && (Dropped(q, code) * TWO_TO_32) % q.modulus == 0
    else code == 0
  }

  /** The wrap-arounds of encryption, less the one of decryption. */
  function Dropped(q: Parameters, code: u32): int
    requires q.modulus != 0
  {
    Carry(code, q.multiplier, q.offset)
    - Borrow(EncryptKeypadCode(code, q.multiplier, q.offset, q.modulus), q.offset)
  }

  ghost predicate DropsNothing(q: Parameters)
    requires q.modulus != 0
  {
    forall code: u32 :: code < q.modulus ==> Dropped(q, code) == 0
  }

  /** The same for a code that fits: only a cipher text below the offset wraps. */
  predicate CipherTextReaches(q: Parameters, code: u32)
    requires q.modulus != 0
  {
    EncryptKeypadCode(code, q.multiplier, q.offset, q.modulus) >= q.offset || TWO_TO_32 % q.modulus == 0
  }

  /** Whether every code does, by the parameters alone. */
  ghost predicate ConfigurationCondition(q: Parameters)
    requires q.modulus != 0
  {
    Coprime(q.multiplier, q.modulus)
    && (TWO_TO_32 % q.modulus == 0 || (q.offset <= q.modulus && Fits(q, q.modulus - 1)))
  }

  /** Exactly which codes survive, for every configuration the gate or the defaults can put in force. */
  lemma DecryptsExactly(q: Parameters, inverse: u32, code: u32)
    requires InRange(q.modulus)
    ensures InverseOrZero(inverse, q.multiplier, q.modulus) ==> (Survives(q, inverse, code) <==> CodeCondition(q, code))
  {
    if Coprime(q.multiplier, q.modulus) && IsInverse(inverse, q.multiplier, q.modulus) {
      ZeroIsNotCoprime(q.modulus);
      RoundTripExactly(code, q.multiplier, q.offset, q.modulus, inverse);
      if code < q.modulus {
        ModOfSmall(code, q.modulus);
      }
    }
  }

  /**
   * For a code that fits: with a coprime multiplier it survives iff its cipher text does not fall below
   * the offset or the modulus divides 2^32, without one iff it is 0.
   */
  lemma FittingCodeCondition(q: Parameters, code: u32)
    requires InRange(q.modulus) && Fits(q, code)
    ensures CodeCondition(q, code) <==>
      if Coprime(q.multiplier, q.modulus) then CipherTextReaches(q, code) else code == 0
  {
    NoCarry(q, code);
    ModOfSmall(0, q.modulus);
    MultipleOfModulus(TWO_TO_32, q.modulus);
  }

  /**
   * Exactly which configurations decrypt every code, whether or not any of them wraps: the multiplier is
   * coprime to the modulus, and either the modulus divides 2^32 or no product wraps and the offset is at
   * most the modulus. A wrap-around never makes up for another.
   */
  lemma EveryCodeSurvivesExactly(q: Parameters, inverse: u32)
    requires InRange(q.modulus)
    ensures InverseOrZero(inverse, q.multiplier, q.modulus) ==>
      ((forall code: u32 :: code < q.modulus ==> Survives(q, inverse, code)) <==> ConfigurationCondition(q))
  {
    hide Survives, CodeCondition, ConfigurationCondition, InverseOrZero;
    if InverseOrZero(inverse, q.multiplier, q.modulus) {
      forall code: u32
        ensures Survives(q, inverse, code) <==> CodeCondition(q, code)
      {
        DecryptsExactly(q, inverse, code);
      }
      SoundConfiguration(q);
      if forall code: u32 :: code < q.modulus ==> Survives(q, inverse, code) {
        CompleteConfiguration(q, inverse);
      }
    }
  }

  lemma SoundConfiguration(q: Parameters)
    requires InRange(q.modulus)
    ensures ConfigurationCondition(q) ==> forall code: u32 :: code < q.modulus ==> CodeCondition(q, code)
  {
    forall code: u32 | ConfigurationCondition(q) && code < q.modulus
      ensures CodeCondition(q, code)
    {
      ModOfSmall(0, q.modulus);
      if TWO_TO_32 % q.modulus == 0 {
        CongruentMul(TWO_TO_32, 0, Dropped(q, code), q.modulus);
      } else {
        FitsBelow(q, code);
        NoCarry(q, code);
        EncryptInRange(code, q.multiplier, q.offset, q.modulus);
      }
    }
  }

  lemma FitsBelow(q: Parameters, code: u32)
    requires q.modulus != 0 && Fits(q, q.modulus - 1) && code < q.modulus
    ensures Fits(q, code)
  {
    MulOrder(q.multiplier, code, q.modulus - 1);
  }

  lemma CompleteConfiguration(q: Parameters, inverse: u32)
    requires InRange(q.modulus) && InverseOrZero(inverse, q.multiplier, q.modulus)
    requires forall code: u32 :: code < q.modulus ==> CodeCondition(q, code)
    ensures ConfigurationCondition(q)
  {
    assert CodeCondition(q, 1);
    if TWO_TO_32 % q.modulus != 0 {
      hide Dropped, Fits, IsInverse;
      forall code: u32 | code < q.modulus
        ensures Cancels(Dropped(q, code), q.modulus)
      {
        assert CodeCondition(q, code);
      }
      forall code: u32 | code < q.modulus
        ensures Dropped(q, code) == 0
      {
        NothingDropped(q, code);
      }
      OffsetAtMostModulus(q, inverse);
      LastCodeFits(q);
    }
  }

  lemma LastCodeFits(q: Parameters)
    requires InRange(q.modulus) && q.offset <= q.modulus && Dropped(q, q.modulus - 1) == 0
    ensures Fits(q, q.modulus - 1)
  {
    EncryptInRange(q.modulus - 1, q.multiplier, q.offset, q.modulus);
    CarryOfFitting(q, q.modulus - 1);
  }

  lemma CarryOfFitting(q: Parameters, code: u32)
    ensures Carry(code, q.multiplier, q.offset) == 0 <==> code * q.multiplier + q.offset < TWO_TO_32
  {
    NonNegativeProduct(code, q.multiplier);
  }

  /** From one code to the next the carry and the borrow each change by at most one. */
  lemma DroppedStep(q: Parameters, code: u32)
    requires q.modulus != 0 && code + 1 < TWO_TO_32
    ensures Dropped(q, 0) == 0 || Dropped(q, 0) == -1
    ensures -1 <= Dropped(q, code + 1) - Dropped(q, code) <= 2
  {
    hide EncryptKeypadCode;
    var sum := code * q.multiplier + q.offset;
    NonNegativeProduct(code, q.multiplier);
    assert (code + 1) * q.multiplier + q.offset == sum + q.multiplier;
    assert sum / TWO_TO_32 <= (sum + q.multiplier) / TWO_TO_32 <= sum / TWO_TO_32 + 1;
  }

  /** Dropping `d` times 2^32 makes no difference modulo `m`. */
  predicate Cancels(d: int, m: nat)
    requires m > 0
  {
    (d * TWO_TO_32) % m == 0
  }

  /** If all codes survive although the modulus does not divide 2^32, none of them drops anything. */
  lemma {:induction false} NothingDropped(q: Parameters, code: u32)
    requires InRange(q.modulus) && TWO_TO_32 % q.modulus != 0 && code < q.modulus
    requires forall c: u32 :: c < q.modulus ==> Cancels(Dropped(q, c), q.modulus)
    ensures Dropped(q, code) == 0
  {
    hide Dropped, Cancels;
    if code == 0 {
      DroppedStep(q, 0);
    } else {
      NothingDropped(q, code - 1);
      DroppedStep(q, code - 1);
    }
    SmallDropCancels(Dropped(q, code), q.modulus);
  }

  lemma SmallDropCancels(d: int, m: nat)
    requires 0 < m < TWO_TO_32 && TWO_TO_32 % m != 0 && -1 <= d <= 2 && Cancels(d, m)
    ensures d == 0
  {
    MultipleOfModulus(TWO_TO_32, m);
    if d == 2 {
      TwiceTheWord(m);
    }
  }

  function PowerOfTwo(n: nat): nat {
    if n == 0 then 1 else 2 * PowerOfTwo(n - 1)
  }

  lemma {:induction false} OddDivisorOfPower(k: nat, m: nat, n: nat)
    requires k % 2 == 1 && k * m == PowerOfTwo(n)
    ensures k == 1
  {
    if n == 0 {
      MulOrder(k, 1, m) by { MulOrder(k, m, 0); }
    } else {
      HalveOddMultiple(k, m, PowerOfTwo(n - 1));
      OddDivisorOfPower(k, m / 2, n - 1);
    }
  }

  lemma HalveOddMultiple(k: nat, m: nat, p: nat)
    requires k % 2 == 1 && k * m == 2 * p
    ensures k * (m / 2) == p
  {
    SplitFactor(k, m / 2, m % 2);
    assert m == 2 * (m / 2) + m % 2;
    if m % 2 == 1 {
      assert false;
    }
  }

  lemma SplitFactor(k: nat, half: nat, bit: nat)
    requires bit < 2
    ensures k * (2 * half + bit) == 2 * (k * half) + if bit == 1 then k else 0
  {
  }

  /** A modulus below 2^32 that divides 2^33 divides 2^32. */
  lemma TwiceTheWord(m: nat)
    requires 0 < m < TWO_TO_32 && (2 * TWO_TO_32) % m == 0
    ensures TWO_TO_32 % m == 0
  {
    var k := 2 * TWO_TO_32 / m;
    QuotientAndRemainder(2 * TWO_TO_32, m);
    if k % 2 == 1 {
      Power33();
      OddDivisorOfPower(k, m, 33);
    } else {
      MulDistributes(k / 2, k / 2, m);
      DivModUnique(TWO_TO_32, m, k / 2, 0);
    }
  }

  lemma Power33()
    ensures PowerOfTwo(33) == 2 * TWO_TO_32
  {
    assert PowerOfTwo(8) == 256;
    assert PowerOfTwo(16) == 0x1_0000;
    assert PowerOfTwo(24) == 0x100_0000;
  }

  /**
   * An offset above the modulus loses a code: the cipher texts below the offset would have to be those of
   * the codes that wrap, but a wrap-around moves some cipher text from below the offset to the offset.
   */
  lemma OffsetAtMostModulus(q: Parameters, inverse: u32)
    requires InRange(q.modulus) && TWO_TO_32 % q.modulus != 0
    ensures IsInverse(inverse, q.multiplier, q.modulus) && DropsNothing(q) ==> q.offset <= q.modulus
  {
    var m := q.modulus;
    if q.offset > m && IsInverse(inverse, q.multiplier, m) && DropsNothing(q) {
      var d := q.offset - m;
      var e := m - TWO_TO_32 % m;
      assert Dropped(q, 0) == 0;
      EncryptInRange(0, q.multiplier, q.offset, m);
      assert d < m;
      ResidueMoves(q, inverse, 0);
      ModOfSmall(e, m);
      ResidueMoves(q, inverse, d - e);
      ModOfSmall(d, m);
    }
  }

  /** The code whose cipher text is `r` over the integers wraps if `r` is below the offset, and moves. */
  lemma ResidueMoves(q: Parameters, inverse: u32, r: nat)
    requires InRange(q.modulus) && q.modulus + r < q.offset < 2 * q.modulus
    ensures IsInverse(inverse, q.multiplier, q.modulus) && DropsNothing(q) ==>
      q.modulus + (r + q.modulus - TWO_TO_32 % q.modulus) % q.modulus < q.offset
  {
    hide Encrypt, Decrypt, EncryptKeypadCode, IsInverse, Carry, Dropped;
    var m := q.modulus;
    if IsInverse(inverse, q.multiplier, m) && DropsNothing(q) {
      EncryptDecrypt(m + r, q.multiplier, q.offset, m, inverse);
      var code: u32 := Decrypt(m + r, inverse, q.offset, m);
      assert Dropped(q, code) == 0;
      CipherTextMoves(q, code, r);
    }
  }

  lemma CipherTextMoves(q: Parameters, code: u32, r: nat)
    requires InRange(q.modulus) && q.modulus + r < q.offset < 2 * q.modulus
    ensures Encrypt(code, q.multiplier, q.offset, q.modulus) == q.modulus + r && Dropped(q, code) == 0 ==>
      q.modulus + (r + q.modulus - TWO_TO_32 % q.modulus) % q.modulus < q.offset
  {
    hide Carry, EncryptKeypadCode, Fits;
    NonNegativeProduct(code, q.multiplier);
    var sum := code * q.multiplier + q.offset;
    EncryptInRange(code, q.multiplier, q.offset, q.modulus);
    EncryptedSum(code, q.multiplier, q.offset);
    if Encrypt(code, q.multiplier, q.offset, q.modulus) == q.modulus + r && Dropped(q, code) == 0 {
      if Carry(code, q.multiplier, q.offset) == 1 {
        WordResidue(sum, r, q.modulus);
      }
    }
  }

  lemma WordResidue(sum: int, r: nat, m: nat)
    requires m > 0 && r < m && sum % m == r
    ensures (sum - TWO_TO_32) % m == (r + m - TWO_TO_32 % m) % m
  {
    QuotientAndRemainder(TWO_TO_32, m);
    ModOfSmall(r, m);
    CongruentAdd(sum, r, -TWO_TO_32, m);
    var k := TWO_TO_32 / m;
    ModShift(r - TWO_TO_32, k + 1, m);
    assert r - TWO_TO_32 + (k + 1) * m == r + m - TWO_TO_32 % m;
  }

  /** The modulus branch looks at nothing else: what an accepted change leaves, defaults included. */
  lemma ModulusChangeExactly(p: Parameters, v: u32, inverse: u32, code: u32)
    requires Accepts(p, KpMod(v))
    ensures var q := InForce(Handle(p, KpMod(v)));
      && q == InForce(p).(modulus := v)
      && (InverseOrZero(inverse, q.multiplier, v) ==>
            && (Survives(q, inverse, code) <==> CodeCondition(q, code))
            && ((forall c: u32 :: c < v ==> Survives(q, inverse, c)) <==> ConfigurationCondition(q)))
  {
    var q := InForce(Handle(p, KpMod(v)));
    DecryptsExactly(q, inverse, code);
    EveryCodeSurvivesExactly(q, inverse);
  }

  lemma {:induction false} RunKeepsModulusInRange(p: Parameters, rs: seq<Request>)
    requires p.modulus == 0 || InRange(p.modulus)
    ensures var q := HandleAll(p, rs); q.modulus == 0 || InRange(q.modulus)
    decreases |rs|
  {
    if rs == [] {
    } else {
      RunKeepsModulusInRange(Handle(p, rs[0]), rs[1..]);
    }
  }

  /** Every run from the factory state, whatever it stores: which codes survive the next reload. */
  lemma FactoryRunExactly(rs: seq<Request>, inverse: u32, code: u32)
    ensures var q := InForce(HandleAll(Parameters(0, 0, 0), rs));
      && InRange(q.modulus)
      && (InverseOrZero(inverse, q.multiplier, q.modulus) ==>
            && (Survives(q, inverse, code) <==> CodeCondition(q, code))
            && ((forall c: u32 :: c < q.modulus ==> Survives(q, inverse, c)) <==> ConfigurationCondition(q)))
  {
    var q := InForce(HandleAll(Parameters(0, 0, 0), rs));
    RunKeepsModulusInRange(Parameters(0, 0, 0), rs);
    DecryptsExactly(q, inverse, code);
    EveryCodeSurvivesExactly(q, inverse);
  }

  /** With no modulus stored the gate takes an offset above the default modulus, and then no code survives. */
  lemma FactoryOffsetLosesCodes(inverse: u32, code: u32)
    requires InverseOrZero(inverse, 73, 1000000) && code < 1000000
    ensures InForce(HandleAll(Parameters(0, 0, 0), [KpOff(3000000)])) == Parameters(1000000, 3000000, 73)
    ensures !Survives(Parameters(1000000, 3000000, 73), inverse, code)
  {
    var q := Parameters(1000000, 3000000, 73);
    assert [KpOff(3000000)][1..] == [];
    GateMeaning(Parameters(0, 0, 0), 3000000);
    assert Gcd(73, 1000000) == 1;
    CoprimeIffGcdIsOne(73, 1000000);
    DecryptsExactly(q, inverse, code);
    FittingCodeCondition(q, code);
    NoCarry(q, code);
    DivModUnique(TWO_TO_32, 1000000, 4294, 967296);
  }

  const LOSING_RUN := [KpMod(1000000), KpOff(12345), KpMult(73), KpMod(100083)]

  /** A run the gate accepts in full, after which no code can be decrypted any more. */
  lemma ModulusChangeLosesInverse(inverse: u32, encryptedCode: u32)
    ensures HandleAll(Parameters(0, 0, 0), LOSING_RUN) == Parameters(100083, 12345, 73)
    ensures InverseOrZero(inverse, 73, 100083) ==> DecryptKeypadCode(encryptedCode, inverse, 12345, 100083) == 0
  {
    var p0 := Parameters(0, 0, 0);
    var p1 := Parameters(1000000, 0, 0);
    var p2 := Parameters(1000000, 12345, 0);
    var p3 := Parameters(1000000, 12345, 73);
    var p4 := Parameters(100083, 12345, 73);
    var rs := LOSING_RUN;
    assert Gcd(73, 1000000) == 1;
    assert Handle(p0, rs[0]) == p1 && Handle(p1, rs[1]) == p2 && Handle(p2, rs[2]) == p3 && Handle(p3, rs[3]) == p4;
    assert rs[1..][1..] == rs[2..] && rs[2..][1..] == rs[3..] && rs[3..][1..] == [];
    assert HandleAll(p0, rs) == HandleAll(p1, rs[1..]) == HandleAll(p2, rs[2..]) == HandleAll(p3, rs[3..]) == p4;
    assert Gcd(73, 100083) == 73;
    CoprimeIffGcdIsOne(73, 100083);
  }

  /** The defaults in force before anything is stored are invertible and round-trip every code. */
  lemma DefaultsRoundTrip(code: u32, inverse: u32)
    requires InverseOrZero(inverse, 73, 1000000) && code < 1000000
    ensures InForce(Parameters(0, 0, 0)) == Parameters(1000000, 12345, 73)
    ensures Invertible(InForce(Parameters(0, 0, 0)))
    ensures DecryptKeypadCode(EncryptKeypadCode(code, 73, 12345, 1000000), inverse, 12345, 1000000) == code
  {
    assert Gcd(73, 1000000) == 1;
    CoprimeIffGcdIsOne(73, 1000000);
    RoundTrip(code, 73, 12345, 1000000, inverse);
  }
}
