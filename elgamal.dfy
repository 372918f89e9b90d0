/**
  * `src/encrypt/elgamal.py`: ElGamal over the multiplicative group modulo a large number,
  * used as a per-character multiplicative mask, and the byte packets that carry public keys
  * and ciphertexts (a JSON body followed by an 8-byte UTF-16 marker).
  *
  * The random draws (modulus, base, private key, ephemeral key) are parameters; `json` is the
  * `JsonCodec` of module Json.
  */
module Encrypt {
  import opened Wrappers
  import opened Utf8
  import opened Json

  // ---------------------------------------------------------------- integer arithmetic

  /** `b ** e` */
  function Pow(b: int, e: nat): int {
    if e == 0 then 1 else b * Pow(b, e - 1)
  }

  /** `pow(b, e, m)` for a positive modulus: the remainder of `b ** e`, in [0, m). */
  function ModPow(b: int, e: nat, m: int): (r: int)
    requires m > 0
    ensures 0 <= r < m
  {
    Pow(b, e) % m
  }

  /** A positive multiple of a positive number is at least that number. */
  lemma MulAtLeast(m: int, c: int)
    requires m > 0 && c >= 1
    ensures m * c >= m
  {
    assert m * c == m + m * (c - 1);
  }

  /** A remainder is determined by any quotient-remainder decomposition. */
  lemma ModUnique(a: int, m: int, q: int, r: int)
    requires m > 0 && 0 <= r < m && a == m * q + r
    ensures a % m == r && a / m == q
  {
    var q', r' := a / m, a % m;
    var d := q - q';
    assert m * d == r' - r;
    if d >= 1 {
      MulAtLeast(m, d);
    } else if d <= -1 {
      MulAtLeast(m, -d);
    }
  }

  /** Multiples of the modulus do not change a remainder. */
  lemma ModMultiple(z: int, c: int, m: int)
    requires m > 0
    ensures (z + m * c) % m == z % m
  {
    ModUnique(z + m * c, m, z / m + c, z % m);
  }

  /** The remainder of a product depends only on the remainder of its first factor. */
  lemma MulMod(x: int, y: int, m: int)
    requires m > 0
    ensures (x * y) % m == ((x % m) * y) % m
  {
    var q, r := x / m, x % m;
    assert x * y == (x % m) * y + m * (q * y);
    ModMultiple((x % m) * y, q * y, m);
  }

  lemma {:induction false} PowAdd(a: int, i: nat, j: nat)
    ensures Pow(a, i + j) == Pow(a, i) * Pow(a, j)
    decreases i
  {
    if i > 0 {
      PowAdd(a, i - 1, j);
      assert Pow(a, i + j) == a * Pow(a, i - 1 + j);
      assert a * (Pow(a, i - 1) * Pow(a, j)) == (a * Pow(a, i - 1)) * Pow(a, j);
    }
  }

  lemma {:induction false} PowMul(a: int, x: nat, k: nat)
    ensures Pow(Pow(a, x), k) == Pow(a, x * k)
  {
    if k > 0 {
      PowMul(a, x, k - 1);
      assert x * k == x + x * (k - 1);
      PowAdd(a, x, x * (k - 1));
    }
  }

  /** Reducing the base first does not change the remainder of a power. */
  lemma {:induction false} PowModBase(a: int, n: nat, m: int)
    requires m > 0
    ensures Pow(a % m, n) % m == Pow(a, n) % m
  {
    if n > 0 {
      PowModBase(a, n - 1, m);
      var u, v := Pow(a % m, n - 1), Pow(a, n - 1);
      calc {
        Pow(a % m, n) % m;
        ((a % m) * u) % m;
        { MulMod(u, a % m, m); }
        ((u % m) * (a % m)) % m;
        ((v % m) * (a % m)) % m;
        { MulMod(v, a % m, m); }
        (v * (a % m)) % m;
        ((a % m) * v) % m;
        { MulMod(a, v, m); }
        (a * v) % m;
      }
    }
  }

  /**
    * The Diffie-Hellman identity behind ElGamal: raising `g^x mod p` to `k` and `g^k mod p`
    * to `x` give the same shared secret.
    */
  lemma SharedSecretAgrees(g: int, x: nat, k: nat, p: int)
    requires p > 0
    ensures ModPow(ModPow(g, x, p), k, p) == ModPow(ModPow(g, k, p), x, p) == Pow(g, x * k) % p
  {
    PowModBase(Pow(g, x), k, p);
    PowMul(g, x, k);
    PowModBase(Pow(g, k), x, p);
    PowMul(g, k, x);
    assert k * x == x * k;
  }

  // ---------------------------------------------------------------- gcd

  /**
    * `gcd(a, b)` as written: Euclid's algorithm with the arguments put in order first;
    * None where it raises ZeroDivisionError, which happens exactly when either is 0.
    */
  function Gcd(a: nat, b: nat): (r: Option<nat>)
    ensures r.None? <==> a == 0 || b == 0
    ensures r.Some? ==> r.value > 0 && a % r.value == 0 && b % r.value == 0
    decreases b
  {
    if a < b then Gcd(b, a)
    else if b == 0 then None
    else if a % b == 0 then Some(b)
    else
      var g := Gcd(b, a % b);
      DividesDifference(a, b, g.value);
      g
  }

  /** A common divisor of `b` and `a % b` divides `a`, and conversely. */
  lemma DividesDifference(a: nat, b: nat, d: nat)
    requires b > 0 && d > 0
    ensures b % d == 0 ==> (a % d == 0 <==> (a % b) % d == 0)
  {
    if b % d == 0 {
      var q := a / b;
      assert a == (a % b) + b * q;
      var bd := b / d;
      assert b * q == d * (bd * q);
      ModMultiple(a % b, bd * q, d);
    }
  }

  /** The result is the greatest common divisor: every common divisor divides it. */
  lemma {:induction false} GcdGreatest(a: nat, b: nat, d: nat)
    requires a > 0 && b > 0 && d > 0 && a % d == 0 && b % d == 0
    ensures Gcd(a, b).value % d == 0
    decreases b
  {
    if a < b {
      GcdGreatest(b, a, d);
    } else if a % b != 0 {
      DividesDifference(a, b, d);
      GcdGreatest(b, a % b, d);
    }
  }

  /** The order of the arguments does not matter. */
  lemma GcdSymmetric(a: nat, b: nat)
    ensures Gcd(a, b) == Gcd(b, a)
  {
  }

  /**
    * Bezout's identity for the result: `s * a + t * b == gcd(a, b)`, with the
    * coefficients of the extended algorithm.
    */
  lemma {:induction false} GcdBezout(a: nat, b: nat) returns (s: int, t: int)
    requires a > 0 && b > 0
    ensures s * a + t * b == Gcd(a, b).value
    decreases b
  {
    if a < b {
      var s', t' := GcdBezout(b, a);
      s, t := t', s';
    } else if a % b == 0 {
      s, t := 0, 1;
    } else {
      var s', t' := GcdBezout(b, a % b);
      s, t := BezoutStep(a, b, s', t');
    }
  }

  /** One step of the extended algorithm: coefficients for `(b, a % b)` give coefficients for `(a, b)`. */
  lemma BezoutStep(a: int, b: int, s': int, t': int) returns (s: int, t: int)
    requires b > 0
    ensures s * a + t * b == s' * b + t' * (a % b)
  {
    var q := a / b;
    assert a % b == a - b * q;
    assert s' * b + t' * (a - b * q) == t' * a + (s' - t' * q) * b;
    s, t := t', s' - t' * q;
  }

  /** Numbers with Bezout coefficients 1 against `p` multiply into such a number. */
  lemma InvertibleProduct(a: int, b: int, p: int, s1: int, t1: int, s2: int, t2: int) returns (s: int, t: int)
    requires s1 * a + t1 * p == 1 && s2 * b + t2 * p == 1
    ensures s * (a * b) + t * p == 1
  {
    s := s1 * s2;
    t := s1 * a * t2 + t1 * s2 * b + t1 * t2 * p;
    calc {
      1;
      (s1 * a + t1 * p) * (s2 * b + t2 * p);
      s1 * a * (s2 * b) + s1 * a * (t2 * p) + t1 * p * (s2 * b) + t1 * p * (t2 * p);
      s * (a * b) + t * p;
    }
  }

  /** Every power of a number coprime to `p` is coprime to `p`. */
  lemma {:induction false} PowInvertible(g: int, n: nat, p: int, s: int, t: int) returns (s': int, t': int)
    requires s * g + t * p == 1
    ensures s' * Pow(g, n) + t' * p == 1
  {
    if n == 0 {
      s', t' := 1, 0;
    } else {
      var s0, t0 := PowInvertible(g, n - 1, p, s, t);
      s', t' := InvertibleProduct(g, Pow(g, n - 1), p, s, t, s0, t0);
    }
  }

  /** No multiple of a number of at least 2 is 1. */
  lemma ProductNotOne(p: int, c: int)
    requires p >= 2
    ensures p * c != 1
  {
    if c >= 1 {
      MulAtLeast(p, c);
    } else {
      assert p * -c >= 0;
    }
  }

  /** A number coprime to a modulus of at least 2 is not a multiple of it. */
  lemma InvertibleNotMultiple(x: int, p: int, s: int, t: int)
    requires p >= 2 && s * x + t * p == 1
    ensures x % p != 0
  {
    var q, r := x / p, x % p;
    assert s * r + p * (s * q + t) == 1 by {
      assert x == p * q + r;
    }
    ProductNotOne(p, s * q + t);
  }

  // ---------------------------------------------------------------- markers

  /**
    * The UTF-16 code units of `s` (section 2.1 of RFC 2781) as bytes, low byte first: what
    * Python's "UTF-16" codec writes after its byte order mark on a little-endian machine.
    */
  function Utf16(s: string): (r: seq<byte>)
    ensures |r| >= 2 * |s|
    ensures (forall i | 0 <= i < |s| :: s[i] as int < 0x10000) ==> |r| == 2 * |s|
  {
    if s == [] then []
    else
      var rest := Utf16(s[1..]);
      assert forall i | 1 <= i < |s| :: s[1..][i - 1] == s[i];
      CodeUnits(s[0]) + rest
  }

  /**
    * The little-endian code units of one character: one unit below U+10000, otherwise a
    * high and a low surrogate.
    */
  function CodeUnits(c: char): (u: seq<byte>)
    ensures |u| == if c as int < 0x10000 then 2 else 4
    ensures |u| == 2 ==> u[0] as int + 256 * u[1] as int == c as int
  {
    var n := c as int;
    if n < 0x10000 then [n % 256, n / 256]
    else
      var hi, lo := 0xD800 + (n - 0x10000) / 1024, 0xDC00 + (n - 0x10000) % 1024;
      [hi % 256, hi / 256, lo % 256, lo / 256]
  }

  /** A text of the Basic Multilingual Plane is one little-endian code unit per character. */
  lemma {:induction false} Utf16Bmp(s: string)
    requires forall i | 0 <= i < |s| :: s[i] as int < 0x10000
    ensures forall i | 0 <= i < |s| :: Utf16(s)[2 * i] as int + 256 * Utf16(s)[2 * i + 1] as int == s[i] as int
  {
    if s != [] {
      var rest := s[1..];
      assert forall i | 0 <= i < |rest| :: rest[i] == s[i + 1];
      Utf16Bmp(rest);
      var r := Utf16(s);
      assert r == CodeUnits(s[0]) + Utf16(rest);
      forall i | 0 <= i < |s|
        ensures r[2 * i] as int + 256 * r[2 * i + 1] as int == s[i] as int
      {
        if i > 0 {
          assert r[2 * i] == Utf16(rest)[2 * (i - 1)] && r[2 * i + 1] == Utf16(rest)[2 * (i - 1) + 1];
        }
      }
    }
  }

  /** An ASCII character is one code unit: the character's byte, then 0. */
  lemma Utf16Ascii(c: char, rest: string)
    requires c as int < 0x80
    ensures Utf16([c] + rest) == [c as int, 0] + Utf16(rest)
  {
    assert ([c] + rest)[1..] == rest;
  }

  /** The byte order mark U+FEFF, little-endian (section 3.2 of RFC 2781). */
  const Bom: seq<byte> := [0xFF, 0xFE]

  /** `bytes(s, "UTF-16")`: the byte order mark, then the code units. */
  function Utf16WithBom(s: string): seq<byte> {
    Bom + Utf16(s)
  }

  /** `pub_key_bytes`, the marker that ends a public-key packet. */
  const PubKeyMarker: seq<byte> := Utf16WithBom("5eg")

  /** `encrypted_message_bytes`, the marker that ends a ciphertext packet. */
  const EncryptedMarker: seq<byte> := Utf16WithBom("2eg")

  /** Both markers are 8 bytes: the byte order mark and three code units; they differ in the digit. */
  lemma MarkersShape()
    ensures |PubKeyMarker| == 8 && |EncryptedMarker| == 8
    ensures PubKeyMarker[..2] == Bom && EncryptedMarker[..2] == Bom
    ensures PubKeyMarker[2] == '5' as int && EncryptedMarker[2] == '2' as int
    ensures PubKeyMarker != EncryptedMarker
  {
    Utf16Ascii('g', "");
    Utf16Ascii('e', "g");
    Utf16Ascii('5', "eg");
    Utf16Ascii('2', "eg");
  }

  // ---------------------------------------------------------------- packets

  /** A packet: the UTF-8 JSON text of `v` followed by `marker`; None where `json.dumps` raises. */
  function Pack(v: Value, marker: seq<byte>, codec: JsonCodec): (r: Option<seq<byte>>)
    ensures r.Some? ==> |r.value| >= |marker| && r.value[|r.value| - |marker|..] == marker
  {
    match codec.dumps(v)
    case None => None
    case Some(text) => Some(Encode(text) + marker)
  }

  /**
    * `unpack_public_key` and `unpack_encrypted_message`, which are the same code: drop the
    * last 8 bytes whatever they are (all of a shorter packet), decode UTF-8 and parse JSON.
    * None where decoding or parsing raises.
    */
  function Unpack(packet: seq<byte>, codec: JsonCodec): (r: Option<Value>)
  {
    var body := if |packet| >= 8 then packet[..|packet| - 8] else [];
    match Decode(body)
    case None => None
    case Some(text) => codec.loads(text)
  }

  /** Unpacking a packet gives back the packed value, for any 8-byte marker. */
  lemma PackUnpack(v: Value, marker: seq<byte>, codec: JsonCodec)
    requires JsonLaws(codec) && Serializable(v) && |marker| == 8
    ensures Pack(v, marker, codec).Some?
    ensures Unpack(Pack(v, marker, codec).value, codec) == Some(v)
  {
    var text := codec.dumps(v).value;
    var packet := Encode(text) + marker;
    assert packet[..|packet| - 8] == Encode(text);
    DecodeEncode(text);
  }

  /** The marker is never looked at: two packets with the same body unpack alike. */
  lemma UnpackIgnoresMarker(body: seq<byte>, m1: seq<byte>, m2: seq<byte>, codec: JsonCodec)
    requires |m1| == 8 && |m2| == 8
    ensures Unpack(body + m1, codec) == Unpack(body + m2, codec)
  {
    assert (body + m1)[..|body|] == body == (body + m2)[..|body|];
  }

  // ---------------------------------------------------------------- keys

  /** The public key record `{"public_modulo", "public_base", "base_public_key"}`. */
  datatype PublicKey = PublicKey(modulo: int, base: int, basePublicKey: int)

  /** The public key as the dict that is packed and sent. */
  function KeyValue(k: PublicKey): Value {
    VDict(map["public_modulo" := VInt(k.modulo), "public_base" := VInt(k.base), "base_public_key" := VInt(k.basePublicKey)])
  }

  /** Reading a received dict as a public key; None where `encrypt`'s lookups raise. */
  function KeyOf(v: Value): (r: Option<PublicKey>)
    ensures r.Some? ==> v.VDict? && {"public_modulo", "public_base", "base_public_key"} <= v.fields.Keys
  {
    if !v.VDict? then None
    else
      var f := v.fields;
      if "public_modulo" in f && "public_base" in f && "base_public_key" in f &&
         f["public_modulo"].VInt? && f["public_base"].VInt? && f["base_public_key"].VInt?
      then Some(PublicKey(f["public_modulo"].i, f["public_base"].i, f["base_public_key"].i))
      else None
  }

  lemma KeyValueRoundTrip(k: PublicKey)
    ensures Serializable(KeyValue(k)) && KeyOf(KeyValue(k)) == Some(k)
  {
  }

  /**
    * An `ElGamal` instance: the modulus `generate_public_modulo` drew (a probable prime in
    * [10^20, 10^50]), the base `generate_public_base` drew (in [10^20, modulus], coprime to
    * it) and the private key `generate_private_key` drew.
    */
  datatype ElGamal = ElGamal(modulo: int, base: int, privateKey: int)

  /** `pow(10, 20)` and `pow(10, 50)`, the bounds of the modulus draw. */
  const TenTo20: int := 100_000_000_000_000_000_000
  const TenTo50: int := 100_000_000_000_000_000_000_000_000_000_000_000_000_000_000_000_000

  /** What the generators guarantee of their draws. */
  predicate Drawn(e: ElGamal) {
    TenTo20 <= e.modulo <= TenTo50 &&
    TenTo20 <= e.base <= e.modulo && Gcd(e.base, e.modulo) == Some(1) &&
    2 <= e.privateKey <= e.modulo - 1
  }

  /**
    * `generate_base_public_key` and `generate_publlic_key`: the record of modulus, base and
    * `base ** private_key mod modulus`.
    */
  function PublicKeyOf(e: ElGamal): (k: PublicKey)
    requires Drawn(e)
    ensures k.modulo == e.modulo && k.base == e.base
    ensures 0 <= k.basePublicKey < e.modulo && k.basePublicKey == Pow(e.base, e.privateKey) % e.modulo
  {
    PublicKey(e.modulo, e.base, ModPow(e.base, e.privateKey, e.modulo))
  }

  /** `pack_public_key` */
  function PackPublicKey(e: ElGamal, codec: JsonCodec): Option<seq<byte>>
    requires Drawn(e)
  {
    Pack(KeyValue(PublicKeyOf(e)), PubKeyMarker, codec)
  }

  /** A packed public key is unpacked into the same key. */
  lemma PublicKeyRoundTrip(e: ElGamal, codec: JsonCodec)
    requires Drawn(e) && JsonLaws(codec)
    ensures PackPublicKey(e, codec).Some?
    ensures Unpack(PackPublicKey(e, codec).value, codec) == Some(KeyValue(PublicKeyOf(e)))
    ensures KeyOf(Unpack(PackPublicKey(e, codec).value, codec).value) == Some(PublicKeyOf(e))
  {
    MarkersShape();
    KeyValueRoundTrip(PublicKeyOf(e));
    PackUnpack(KeyValue(PublicKeyOf(e)), PubKeyMarker, codec);
  }

  // ---------------------------------------------------------------- ciphertexts

  /** `[cipher_1, cipher_2]` */
  datatype Ciphers = Ciphers(c1: int, c2: seq<int>)

  function IntList(xs: seq<int>): (r: seq<Value>)
    ensures |r| == |xs| && forall i | 0 <= i < |xs| :: r[i] == VInt(xs[i])
  {
    if xs == [] then [] else [VInt(xs[0])] + IntList(xs[1..])
  }

  /** The ciphertext as the list that is packed and sent. */
  function CiphersValue(c: Ciphers): Value {
    VList([VInt(c.c1), VList(IntList(c.c2))])
  }

  /** Reading a received list as a ciphertext; None where `decrypt`'s unpacking or arithmetic raises. */
  function CiphersOf(v: Value): (r: Option<Ciphers>)
    ensures r.Some? ==> v == CiphersValue(r.value)
  {
    if v.VList? && |v.items| == 2 && v.items[0].VInt? && v.items[1].VList? &&
       forall j | 0 <= j < |v.items[1].items| :: v.items[1].items[j].VInt?
    then
      var items := v.items[1].items;
      var c2 := seq(|items|, j requires 0 <= j < |items| => items[j].i);
      assert IntList(c2) == items;
      Some(Ciphers(v.items[0].i, c2))
    else None
  }

  lemma CiphersValueRoundTrip(c: Ciphers)
    ensures Serializable(CiphersValue(c)) && CiphersOf(CiphersValue(c)) == Some(c)
  {
    var items := IntList(c.c2);
    var c2 := seq(|items|, j requires 0 <= j < |items| => items[j].i);
    assert c2 == c.c2;
  }

  /** `pack_encrypted_message` */
  function PackCiphers(c: Ciphers, codec: JsonCodec): Option<seq<byte>> {
    Pack(CiphersValue(c), EncryptedMarker, codec)
  }

  /** A packed ciphertext is unpacked into the same ciphertext. */
  lemma CiphersRoundTrip(c: Ciphers, codec: JsonCodec)
    requires JsonLaws(codec)
    ensures PackCiphers(c, codec).Some?
    ensures Unpack(PackCiphers(c, codec).value, codec) == Some(CiphersValue(c))
    ensures CiphersOf(Unpack(PackCiphers(c, codec).value, codec).value) == Some(c)
  {
    MarkersShape();
    CiphersValueRoundTrip(c);
    PackUnpack(CiphersValue(c), EncryptedMarker, codec);
  }

  // ---------------------------------------------------------------- encryption

  /** Each character's code point times the shared secret: the "reversible map" of `encrypt`. */
  function Masks(message: string, shared: int): (r: seq<int>)
    ensures |r| == |message| && forall i | 0 <= i < |message| :: r[i] == shared * message[i] as int
  {
    if message == [] then [] else [shared * message[0] as int] + Masks(message[1..], shared)
  }

  /**
    * `encrypt(message, public_key)` with `ephemeral` the draw of `random.randint(1, modulo - 1)`:
    * `cipher_1` is `base ** ephemeral mod modulo`, `cipher_2` masks every character with the
    * shared secret `base_public_key ** ephemeral mod modulo`.
    */
  method Encrypt(message: string, pk: PublicKey, ephemeral: int) returns (c: Ciphers)
    requires 1 <= ephemeral <= pk.modulo - 1
    ensures c.c1 == ModPow(pk.base, ephemeral, pk.modulo)
    ensures c.c2 == Masks(message, ModPow(pk.basePublicKey, ephemeral, pk.modulo))
  {
    var shared := ModPow(pk.basePublicKey, ephemeral, pk.modulo);
    var c1 := ModPow(pk.base, ephemeral, pk.modulo);
    var c2: seq<int> := [];
    for i := 0 to |message|
      invariant |c2| == i && forall j | 0 <= j < i :: c2[j] == shared * message[j] as int
    {
      c2 := c2 + [shared * message[i] as int];
    }
    c := Ciphers(c1, c2);
  }

  /** `pack_to_bytes_message`: encrypt, then pack the ciphertext. */
  method PackToBytesMessage(message: string, pk: PublicKey, ephemeral: int, codec: JsonCodec)
    returns (r: Option<seq<byte>>)
    requires 1 <= ephemeral <= pk.modulo - 1
    ensures r == PackCiphers(Ciphers(ModPow(pk.base, ephemeral, pk.modulo),
                                     Masks(message, ModPow(pk.basePublicKey, ephemeral, pk.modulo))), codec)
  {
    var c := Encrypt(message, pk, ephemeral);
    r := PackCiphers(c, codec);
  }

  // ---------------------------------------------------------------- decryption

  /** `int(a / b)`: the quotient truncated toward zero (0 for a zero divisor, where Python raises). */
  function Quot(a: int, b: int): int {
    if b == 0 then 0
    else
      var q := (if a < 0 then -a else a) / (if b < 0 then -b else b);
      if (a < 0) != (b < 0) then -q else q
  }

  /**
    * Is `n` a Unicode scalar value, so that a Dafny `char` can hold it? `chr` accepts
    * every code point below 0x110000; the surrogates 0xD800..0xDFFF are the ones it
    * accepts and this predicate does not.
    */
  predicate IsScalar(n: int) {
    0 <= n < 0xD800 || 0xE000 <= n < 0x11_0000
  }

  /**
    * The loop of `decrypt`: each entry divided by the shared secret, as a character. None
    * where a division by zero or `chr` raises, and also where the quotient is a surrogate,
    * which `chr` would turn into a lone-surrogate string.
    */
  function Unmask(c2: seq<int>, shared: int): (r: Option<string>)
    ensures r.Some? <==> forall i | 0 <= i < |c2| :: shared != 0 && IsScalar(Quot(c2[i], shared))
    ensures r.Some? ==> |r.value| == |c2| && forall i | 0 <= i < |c2| :: r.value[i] as int == Quot(c2[i], shared)
  {
    if c2 == [] then Some([])
    else if shared == 0 || !IsScalar(Quot(c2[0], shared)) then None
    else
      match Unmask(c2[1..], shared)
      case None => None
      case Some(rest) =>
        assert forall i | 1 <= i < |c2| :: c2[1..][i - 1] == c2[i];
        Some([Quot(c2[0], shared) as char] + rest)
  }

  /** Dividing a mask by a positive secret gives the code point back. */
  lemma QuotExact(shared: int, n: nat)
    requires shared > 0
    ensures Quot(shared * n, shared) == n
  {
    ModUnique(shared * n, shared, n, 0);
  }

  /** Unmasking with the secret that masked gives the message back. */
  lemma UnmaskMasks(message: string, shared: int)
    requires shared > 0
    ensures Unmask(Masks(message, shared), shared) == Some(message)
  {
    var c2 := Masks(message, shared);
    forall i | 0 <= i < |c2| ensures Quot(c2[i], shared) == message[i] as int && IsScalar(message[i] as int) {
      QuotExact(shared, message[i] as int);
    }
    assert Unmask(c2, shared).Some?;
    var r := Unmask(c2, shared).value;
    assert |r| == |message|;
    forall i | 0 <= i < |message| ensures r[i] == message[i] {
      assert r[i] as int == message[i] as int;
    }
    assert r == message;
  }

  /** The secret `decrypt` computes from `cipher_1` with the private key. */
  function DecryptSecret(e: ElGamal, c: Ciphers): int
    requires Drawn(e)
  {
    ModPow(c.c1, e.privateKey, e.modulo)
  }

  /** `decrypt`, with the missing `self.power` read as the built-in `pow` (see `DecryptAsWritten`). */
  method Decrypt(e: ElGamal, c: Ciphers) returns (msg: Option<string>)
    requires Drawn(e)
    ensures msg == Unmask(c.c2, DecryptSecret(e, c))
  {
    var shared := ModPow(c.c1, e.privateKey, e.modulo);
    var text: string := "";
    for i := 0 to |c.c2|
      invariant |text| == i
      invariant forall j | 0 <= j < i :: shared != 0 && IsScalar(Quot(c.c2[j], shared)) && text[j] as int == Quot(c.c2[j], shared)
    {
      if shared == 0 || !IsScalar(Quot(c.c2[i], shared)) {
        return None;
      }
      text := text + [Quot(c.c2[i], shared) as char];
    }
    var r := Unmask(c.c2, shared);
    assert r.Some? && r.value == text by {
      assert forall j | 0 <= j < |text| :: r.value[j] == text[j];
    }
    msg := Some(text);
  }

  /**
    * The secret both sides reach, `base ** (private_key * ephemeral) mod modulo`, is not 0:
    * the base is coprime to the modulus, so all its powers are.
    */
  lemma SecretNonZero(e: ElGamal, ephemeral: nat)
    requires Drawn(e)
    ensures Pow(e.base, e.privateKey * ephemeral) % e.modulo != 0
  {
    var p, g, n := e.modulo, e.base, e.privateKey * ephemeral;
    var s, t := GcdBezout(g, p);
    var s', t' := PowInvertible(g, n, p, s, t);
    InvertibleNotMultiple(Pow(g, n), p, s', t');
  }

  /**
    * Decryption undoes encryption under the instance's own public key: both sides reach
    * the same non-zero secret.
    */
  lemma DecryptEncrypt(e: ElGamal, message: string, ephemeral: int)
    requires Drawn(e) && 1 <= ephemeral <= e.modulo - 1
    ensures var pk := PublicKeyOf(e);
      var c := Ciphers(ModPow(pk.base, ephemeral, pk.modulo), Masks(message, ModPow(pk.basePublicKey, ephemeral, pk.modulo)));
      Unmask(c.c2, DecryptSecret(e, c)) == Some(message)
  {
    var pk := PublicKeyOf(e);
    var p, g, x := e.modulo, e.base, e.privateKey;
    SharedSecretAgrees(g, x, ephemeral, p);
    SecretNonZero(e, ephemeral);
    var shared := Pow(g, x * ephemeral) % p;
    UnmaskMasks(message, shared);
    var c := Ciphers(ModPow(g, ephemeral, p), Masks(message, shared));
    assert DecryptSecret(e, c) == shared;
  }

  // ---------------------------------------------------------------- decrypt as written

  /** The attributes an `ElGamal` instance has: its fields and the methods of its class. */
  const ElGamalAttributes: set<string> := {
    "encrypted_message_bytes", "pub_key_bytes", "public_modulo", "public_base", "private_key",
    "base_public_key", "public_key", "generate_public_modulo", "generate_public_base",
    "generate_private_key", "generate_base_public_key", "generate_publlic_key", "encrypt",
    "decrypt", "pack_public_key", "unpack_public_key", "pack_encrypted_message",
    "unpack_encrypted_message", "pack_to_bytes_message", "gcd", "miller_test", "is_prime"
  }

  /**
    * `decrypt` as written: it computes the secret with `self.power`, which the class does
    * not define, so every call raises AttributeError (None).
    */
  function DecryptAsWritten(e: ElGamal, c: Ciphers): Option<string>
    requires Drawn(e)
  {
    if "power" in ElGamalAttributes then Unmask(c.c2, DecryptSecret(e, c)) else None
  }

  /** As written, even a ciphertext made for the instance's own key fails to decrypt. */
  lemma DecryptAsWrittenRaises(e: ElGamal, message: string, ephemeral: int)
    requires Drawn(e) && 1 <= ephemeral <= e.modulo - 1
    ensures var pk := PublicKeyOf(e);
      var c := Ciphers(ModPow(pk.base, ephemeral, pk.modulo), Masks(message, ModPow(pk.basePublicKey, ephemeral, pk.modulo)));
      DecryptAsWritten(e, c) == None && Unmask(c.c2, DecryptSecret(e, c)) == Some(message)
  {
    DecryptEncrypt(e, message, ephemeral);
  }
}
