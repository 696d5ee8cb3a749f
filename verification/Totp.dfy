/** Time-based one-time passwords over the base-32 secrets of enrolment. */
module Totp {
  import opened Basics
  import opened Base32
  import Base32Laws

  type Digest = d: seq<Byte> | |d| == 20 witness seq(20, _ => 0)
  type Hmac = (seq<Byte>, seq<Byte>) -> Option<Digest>

  const KEY_MAX: nat := 64
  const RAW_SECRET: nat := 20
  const PERIOD: nat := 30

  // ---------------------------------------------------------------------- numbers as bytes

  function BigEndian(v: nat, n: nat): (s: seq<Byte>)
    ensures |s| == n
  {
    if n == 0 then [] else BigEndian(v / 256, n - 1) + [v % 256]
  }

  function Pow256(n: nat): nat {
    if n == 0 then 1 else 256 * Pow256(n - 1)
  }

  lemma {:induction false} BigEndianReadsBack(v: nat, n: nat)
    requires v < Pow256(n)
    ensures FromBytes(BigEndian(v, n)) == v
  {
    if n > 0 {
      BigEndianReadsBack(v / 256, n - 1);
      assert BigEndian(v, n)[..n - 1] == BigEndian(v / 256, n - 1);
    }
  }

  /** The eight-byte message, filled from its low end. */
  method Message(step: nat) returns (msg: seq<Byte>)
    requires step < U64
    ensures msg == BigEndian(step, 8) && FromBytes(msg) == step
  {
    var bytes := new Byte[8];
    FillBigEndian(step, bytes);
    assert Pow256(8) == U64;
    BigEndianReadsBack(step, 8);
    msg := bytes[..];
  }

  method FillBigEndian(step: nat, bytes: array<Byte>)
    modifies bytes
    ensures bytes[..] == BigEndian(step, bytes.Length)
  {
    var rest, i := step, bytes.Length;
    while 0 < i
      invariant 0 <= i <= bytes.Length && BigEndian(step, bytes.Length) == BigEndian(rest, i) + bytes[i..]
    {
      i := i - 1;
      assert BigEndian(rest, i + 1) == BigEndian(rest / 256, i) + [rest % 256];
      bytes[i] := rest % 256;
      rest := rest / 256;
    }
    assert bytes[..] == bytes[0..];
  }

  // ------------------------------------------------------------------------- one code

  /** Dynamic truncation, section 5.3 of RFC 4226: the low 31 bits of the four bytes at the offset that
      the last four bits of the digest name. */
  function Truncated(d: Digest): nat {
    var offset := d[19] % 16;
    FromBytes(d[offset..offset + 4]) % 0x8000_0000
  }

  function Code(hmac: Hmac, key: seq<Byte>, step: nat): nat {
    match hmac(key, BigEndian(step, 8))
    case None => 0
    case Some(d) => Truncated(d) % 1000000
  }

  lemma FourBytes(s: seq<Byte>)
    requires |s| == 4
    ensures FromBytes(s) == 0x1000000 * (s[0] as nat) + 0x10000 * (s[1] as nat) + 0x100 * (s[2] as nat) + s[3]
  {
    var three, two, one, none := s[..3], s[..2], s[..1], s[..0];
    assert three[..2] == two && two[..1] == one && one[..0] == none;
    assert FromBytes(one) == s[0];
    assert FromBytes(two) == 256 * FromBytes(one) + s[1];
    assert FromBytes(three) == 256 * FromBytes(two) + s[2];
  }

  lemma TopBitDropped(a: nat, low: nat)
    requires a < 256 && low < 0x1000000
    ensures (0x1000000 * a + low) % 0x8000_0000 == 0x1000000 * (a % 0x80) + low
  {
  }

  method GenerateTotp(hmac: Hmac, key: seq<Byte>, step: nat) returns (code: nat)
    requires step < U64
    ensures code == Code(hmac, key, step) < 1000000
    ensures match hmac(key, BigEndian(step, 8))
            case None => code == 0
            case Some(d) =>
              var offset := d[|d| - 1] as nat % 16;
              code == ((d[offset] as nat % 128) * 16777216 + d[offset + 1] as nat * 65536
                       + d[offset + 2] as nat * 256 + d[offset + 3] as nat) % 1000000
  {
    var msg := Message(step);
    var digest := hmac(key, msg);
    if digest.None? { return 0; }
    var hash := digest.value;
    var offset := hash[19] % 16;
    var a: nat, b: nat, c: nat, e: nat := hash[offset], hash[offset + 1], hash[offset + 2], hash[offset + 3];
    FourBytes(hash[offset..offset + 4]);
    TopBitDropped(a, 0x10000 * b + 0x100 * c + e);
    var binary := (a % 0x80) * 0x1000000 + b * 0x10000 + c * 0x100 + e;
    code := binary % 1000000;
  }

  // --------------------------------------------------------------------- codes as digits

  function Digit(d: nat): char
    requires d < 10
  {
    '0' + d as char
  }

  /** `n` in `k` decimal places. */
  function Digits(n: nat, k: nat): (s: string)
    ensures |s| == k
  {
    if k == 0 then "" else Digits(n / 10, k - 1) + [Digit(n % 10)]
  }

  function Number(s: string): int {
    if s == "" then 0 else 10 * Number(s[..|s| - 1]) + (s[|s| - 1] as int - '0' as int)
  }

  function Pow10(k: nat): nat {
    if k == 0 then 1 else 10 * Pow10(k - 1)
  }

  lemma {:induction false} DigitsReadBack(n: nat, k: nat)
    requires n < Pow10(k)
    ensures Number(Digits(n, k)) == n
  {
    if k > 0 {
      DigitsReadBack(n / 10, k - 1);
      assert Digits(n, k)[..k - 1] == Digits(n / 10, k - 1);
    }
  }

  /** Six places tell all codes apart. */
  lemma SixDigitsAreInjective(m: nat, n: nat)
    requires m < 1000000 && n < 1000000
    ensures Digits(m, 6) == Digits(n, 6) <==> m == n
  {
    assert Pow10(6) == 1000000;
    DigitsReadBack(m, 6);
    DigitsReadBack(n, 6);
  }

  // ----------------------------------------------------------------------- verification

  /** The step `i` away from the current one; unsigned 64-bit, so step 0 is preceded by the last one. */
  function StepAt(now: nat, i: int): (step: nat)
    ensures step < U64
  {
    (now / PERIOD + i) % U64
  }

  /** What the server expects to see `i` steps away from its own. */
  function Expected(hmac: Hmac, key: seq<Byte>, now: nat, i: int): string
  {
    Digits(Code(hmac, key, StepAt(now, i)), 6)
  }

  predicate InWindow(hmac: Hmac, key: seq<Byte>, code: string, now: nat) {
    code == Expected(hmac, key, now, -1) || code == Expected(hmac, key, now, 0) || code == Expected(hmac, key, now, 1)
  }

  predicate Accepts(hmac: Hmac, secret: string, code: string, now: nat) {
    1 <= |Decoded(secret)| <= KEY_MAX && InWindow(hmac, Decoded(secret), code, now)
  }

  method SearchWindow(hmac: Hmac, key: seq<Byte>, code: string, now: nat) returns (ok: bool)
    ensures ok <==> InWindow(hmac, key, code, now)
  {
    for i := -1 to 2
      invariant 0 <= i ==> code != Expected(hmac, key, now, -1)
      invariant 1 <= i ==> code != Expected(hmac, key, now, 0)
      invariant 2 <= i ==> code != Expected(hmac, key, now, 1)
    {
      var expected := GenerateTotp(hmac, key, StepAt(now, i));
      if Digits(expected, 6) == code { return true; }
    }
    ok := false;
  }

  method Verify(hmac: Hmac, secret: Option<string>, code: Option<string>, now: nat) returns (ok: bool)
    requires now < U64
    ensures ok <==> secret.Some? && code.Some? && Accepts(hmac, secret.value, code.value, now)
  {
    if secret.None? || code.None? || |code.value| != 6 { return false; }
    var key := new Byte[KEY_MAX];
    var keyLen := Decode(secret.value, key, KEY_MAX);
    if keyLen == 0 { return false; }
    ok := SearchWindow(hmac, key[..keyLen], code.value, now);
  }

  /** A secret drawn at enrolment, shown as text; too small a buffer is left as the empty string. */
  method GenerateSecret(raw: seq<Byte>, out: array<char>, outLen: nat)
    requires |raw| == RAW_SECRET && outLen <= out.Length
    modifies out
    ensures 32 < outLen ==> out[..32] == Encoded(raw) && out[32] == '\0'
    ensures 0 < outLen <= 32 ==> out[0] == '\0'
    ensures out[outLen..] == old(out[outLen..])
  {
    Base32Laws.EncodedLength(raw);
    var ok := Encode(raw, out, outLen);
    if !ok && 0 < outLen { out[0] := '\0'; }
  }

  /** A device that holds the raw key is accepted when its clock is in the same period as the server's or
      in a neighbouring one. */
  lemma EnrolledDeviceIsAccepted(hmac: Hmac, raw: seq<Byte>, device: nat, now: nat)
    requires 1 <= |raw| <= 64 && device < U64 && now < U64
    requires -1 <= device / 30 - now / 30 <= 1
    ensures Accepts(hmac, Encoded(raw), Digits(Code(hmac, raw, device / 30), 6), now)
  {
    Base32Laws.DecodeUndoesEncode(raw);
    var i := device / PERIOD - now / PERIOD;
    assert StepAt(now, i) == device / PERIOD;
  }

  /** Steps are half a minute long, and the one before step 0 is the last of all. */
  lemma NearbySteps(now: nat)
    requires now < U64
    ensures StepAt(now, -1) == if now < 30 then U64 - 1 else now / 30 - 1
    ensures StepAt(now, 0) == now / 30 && StepAt(now, 1) == now / 30 + 1
  {
  }

  /** A code is accepted exactly when its number is one of the three of the moment. */
  lemma AcceptedNumbers(hmac: Hmac, secret: string, n: nat, now: nat)
    requires n < 1000000
    ensures Accepts(hmac, secret, Digits(n, 6), now) <==>
            1 <= |Decoded(secret)| <= 64 &&
            (|| n == Code(hmac, Decoded(secret), StepAt(now, -1))
             || n == Code(hmac, Decoded(secret), StepAt(now, 0))
             || n == Code(hmac, Decoded(secret), StepAt(now, 1)))
  {
    SixDigitsAreInjective(n, Code(hmac, Decoded(secret), StepAt(now, -1)));
    SixDigitsAreInjective(n, Code(hmac, Decoded(secret), StepAt(now, 0)));
    SixDigitsAreInjective(n, Code(hmac, Decoded(secret), StepAt(now, 1)));
  }
}
