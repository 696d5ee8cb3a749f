/** Base-32 text without padding characters: the two bit-buffer loops against their
    meaning on strings of bits. */
module Base32 {
  import opened Basics
  import opened Bits

  type Byte = b: nat | b < 256

  const ALPHABET: string := "ABCDEFGHIJKLMNOPQRSTUVWXYZ234567"
  const U32: nat := 0x1_0000_0000

  /** The number that the bytes write, the first one counting most. */
  function FromBytes(s: seq<Byte>): nat {
    if s == [] then 0 else 256 * FromBytes(s[..|s| - 1]) + s[|s| - 1]
  }

  /** `x << k` on 32-bit words. */
  function ShiftLeft(x: nat, k: nat): nat {
    (x * Pow2(k)) % U32
  }

  // --------------------------------------------------------------------- meaning

  function BytesToBits(data: seq<Byte>): seq<bool> {
    if data == [] then [] else BytesToBits(data[..|data| - 1]) + BitsOf(data[|data| - 1], 8)
  }

  /** Whole bytes, from the left; what is left over is dropped. */
  function BitsToBytes(b: seq<bool>): seq<Byte> {
    if |b| < 8 then [] else ValBound(b[..8]); assert Pow2(8) == 256; [Val(b[..8])] + BitsToBytes(b[8..])
  }

  /** Groups of five, from the left, the last one filled up with zeros. */
  function BitsToText(b: seq<bool>): string {
    if b == [] then ""
    else if |b| < 5 then [SymbolOf(b + Zeros(5 - |b|))]
    else [SymbolOf(b[..5])] + BitsToText(b[5..])
  }

  function SymbolOf(b: seq<bool>): char
    requires |b| == 5
  {
    ValBound(b);
    Powers();
    ALPHABET[Val(b)]
  }

  /** The value of a symbol; letters in either case. */
  function ValueOf(c: char): (v: int)
    ensures -1 <= v < 32
  {
    if 'A' <= c <= 'Z' then c as int - 'A' as int
    else if 'a' <= c <= 'z' then c as int - 'a' as int
    else if '2' <= c <= '7' then c as int - '2' as int + 26
    else -1
  }

  function SymbolBits(c: char): seq<bool> {
    if ValueOf(c) < 0 then [] else BitsOf(ValueOf(c), 5)
  }

  /** Five bits for every symbol; other characters are skipped. */
  function TextToBits(s: string): seq<bool> {
    if s == "" then [] else TextToBits(s[..|s| - 1]) + SymbolBits(s[|s| - 1])
  }

  function Encoded(data: seq<Byte>): string {
    BitsToText(BytesToBits(data))
  }

  function Decoded(s: string): seq<Byte> {
    BitsToBytes(TextToBits(s))
  }

  // ------------------------------------------------------------ lengths and positions

  lemma {:induction false} BytesToBitsLength(data: seq<Byte>)
    ensures |BytesToBits(data)| == 8 * |data|
  {
    if data != [] { BytesToBitsLength(data[..|data| - 1]); }
  }

  /** The bits of the first `i` bytes, and of byte `i`. */
  lemma {:induction false} BitsOfByte(data: seq<Byte>, i: nat)
    requires i < |data|
    ensures |BytesToBits(data)| == 8 * |data|
    ensures BytesToBits(data)[..8 * i] == BytesToBits(data[..i])
    ensures BytesToBits(data)[8 * i..8 * i + 8] == BitsOf(data[i], 8)
    decreases |data|
  {
    BytesToBitsLength(data);
    var n := |data| - 1;
    var front := data[..n];
    BytesToBitsLength(front);
    if i < n {
      BitsOfByte(front, i);
      assert front[..i] == data[..i];
      assert BytesToBits(data)[..8 * n] == BytesToBits(front);
      assert BytesToBits(data)[..8 * i] == BytesToBits(front)[..8 * i];
      assert BytesToBits(data)[8 * i..8 * i + 8] == BytesToBits(front)[8 * i..8 * i + 8];
    }
  }

  lemma {:induction false} TextLength(b: seq<bool>)
    ensures 5 * |BitsToText(b)| - 5 < |b| <= 5 * |BitsToText(b)|
  {
    if |b| >= 5 { TextLength(b[5..]); }
  }

  lemma Powers()
    ensures Pow2(5) == 32 && Pow2(8) == 256
  {
    assert Pow2(4) == 16 && Pow2(5) == 32 && Pow2(6) == 64 && Pow2(7) == 128;
  }

  /** A slice behind the first `d` bits. */
  lemma SliceBehind(b: seq<bool>, d: nat, from: nat, n: nat)
    requires d + from + n <= |b|
    ensures b[d..][from..from + n] == b[d + from..d + from + n]
  {
  }

  /** Symbol `k` stands for bits `5k` to `5k + 4`. */
  lemma {:induction false} TextAt(b: seq<bool>, k: nat)
    requires 5 * k + 5 <= |b|
    ensures k < |BitsToText(b)| && BitsToText(b)[k] == SymbolOf(b[5 * k..5 * k + 5])
    decreases |b|
  {
    if k > 0 {
      var at := 5 * (k - 1);
      TextAt(b[5..], k - 1);
      SliceBehind(b, 5, at, 5);
      assert 5 + at == 5 * k && BitsToText(b)[k] == BitsToText(b[5..])[k - 1];
    } else {
      assert b[0..5] == b[..5];
    }
  }

  /** Fewer than five bits at the end are filled up with zeros. */
  lemma {:induction false} LastTextAt(b: seq<bool>, k: nat, n: nat)
    requires 0 < n < 5 && |b| == 5 * k + n
    ensures k < |BitsToText(b)| && BitsToText(b)[k] == SymbolOf(b[5 * k..] + Zeros(5 - n))
    decreases |b|
  {
    if k > 0 {
      var rest := b[5..];
      LastTextAt(rest, k - 1, n);
      assert rest[5 * (k - 1)..] == b[5 * k..];
    } else {
      assert b[0..] == b;
    }
  }

  lemma {:induction false} BytesLength(b: seq<bool>)
    ensures 8 * |BitsToBytes(b)| <= |b| < 8 * |BitsToBytes(b)| + 8
  {
    if |b| >= 8 { BytesLength(b[8..]); }
  }

  lemma {:induction false} ByteAt(b: seq<bool>, k: nat)
    requires 8 * k + 8 <= |b|
    ensures k < |BitsToBytes(b)| && BitsToBytes(b)[k] == Val(b[8 * k..8 * k + 8])
    decreases |b|
  {
    if k > 0 {
      var at := 8 * (k - 1);
      ByteAt(b[8..], k - 1);
      SliceBehind(b, 8, at, 8);
      assert 8 + at == 8 * k && BitsToBytes(b)[k] == BitsToBytes(b[8..])[k - 1];
    } else {
      assert b[0..8] == b[..8];
    }
  }

  // ------------------------------------------------------------------------- the loops

  /** The next five bits of the buffer, which holds `b[from..end]`. */
  lemma GroupInBuffer(b: seq<bool>, from: nat, k: nat, end: nat, n: nat)
    requires from <= k && k + n <= end <= |b|
    ensures (Val(b[from..end]) / Pow2(end - k - n)) % Pow2(n) == Val(b[k..k + n])
  {
    assert b[from..end] == b[from..k + n] + b[k + n..end];
    ShiftAndMask(b[from..k + n], b[k + n..end]);
    assert b[from..k + n] == b[from..k] + b[k..k + n];
    ShiftAndMask(b[from..k], b[k..k + n]);
  }

  /** What is left in the buffer once everything before `k` is masked off. */
  lemma RestOfBuffer(b: seq<bool>, from: nat, k: nat, end: nat)
    requires from <= k <= end <= |b|
    ensures Val(b[from..end]) % Pow2(end - k) == Val(b[k..end])
  {
    assert b[from..end] == b[from..k] + b[k..end];
    ShiftAndMask(b[from..k], b[k..end]);
  }

  /** Shifting `n` bits into a buffer of fewer than eight loses none of the 32. */
  lemma ShiftIn(b: seq<bool>, from: nat, end: nat, n: nat, v: nat)
    requires from <= end < from + 8 && end + n <= |b| && n <= 8
    requires v < Pow2(n) && b[end..end + n] == BitsOf(v, n)
    ensures ShiftLeft(Val(b[from..end]), n) + v == Val(b[from..end + n])
  {
    assert b[from..end + n] == b[from..end] + b[end..end + n];
    ValConcat(b[from..end], b[end..end + n]);
    ValBitsOf(v, n);
    ShiftFits(b[from..end], n);
  }

  lemma ShiftFits(b: seq<bool>, n: nat)
    requires |b| < 8 && n <= 8
    ensures ShiftLeft(Val(b), n) == Val(b) * Pow2(n)
  {
    ValBound(b);
    PowersGrow(|b|, 8);
    PowersGrow(n, 8);
    Powers();
    SmallProduct(Val(b), 256, Pow2(n), 256);
    WordKeeps(Val(b) * Pow2(n));
  }

  lemma WordKeeps(x: nat)
    requires x < U32
    ensures x % U32 == x
  {
  }

  lemma {:induction false} PowersGrow(m: nat, n: nat)
    requires m <= n
    ensures Pow2(m) <= Pow2(n)
  {
    if m < n { PowersGrow(m, n - 1); }
  }

  lemma SmallProduct(x: nat, a: nat, y: nat, b: nat)
    requires x <= a && y <= b
    ensures 0 <= x * y <= a * b
  {
  }

  /** The buffer holds the bits from `at`, where the output has got to, up to `end`, where the input has. */
  ghost predicate Holds(b: seq<bool>, at: nat, end: nat, buffer: nat, bits: nat) {
    end <= |b| && end == at + bits && buffer == Val(b[at..end])
  }

  /** The first `pos` symbols are in place, with room behind them for the terminator. */
  ghost predicate Written(b: seq<bool>, out: array<char>, pos: nat, maxLen: nat)
    reads out
  {
    && pos <= |BitsToText(b)| && pos <= out.Length && out[..pos] == BitsToText(b)[..pos]
    && (pos == 0 || pos < maxLen)
  }

  /** Symbol `k`, taken out of a buffer filled at symbol `from`. */
  lemma SymbolInBuffer(b: seq<bool>, from: nat, k: nat, end: nat)
    requires from <= k && 5 * k + 5 <= end <= |b|
    ensures k < |BitsToText(b)|
    ensures var v := (Val(b[5 * from..end]) / Pow2(end - 5 * k - 5)) % 32; BitsToText(b)[k] == ALPHABET[v]
  {
    TextAt(b, k);
    GroupInBuffer(b, 5 * from, 5 * k, end, 5);
    Powers();
  }

  method EmitGroups(ghost b: seq<bool>, ghost end: nat, buffer: nat, bits: nat, out: array<char>, pos: nat, maxLen: nat)
    returns (ok: bool, bits': nat, pos': nat)
    requires Holds(b, 5 * pos, end, buffer, bits) && maxLen <= out.Length && Written(b, out, pos, maxLen)
    modifies out
    ensures out[maxLen..] == old(out[maxLen..])
    ensures pos <= pos' && end == 5 * pos' + bits' && Written(b, out, pos', maxLen)
    ensures ok ==> bits' < 5
    ensures !ok ==> pos' < |BitsToText(b)| && maxLen <= pos' + 1
  {
    bits', pos' := bits, pos;
    while 5 <= bits'
      invariant pos <= pos' && end == 5 * pos' + bits' && Written(b, out, pos', maxLen)
      invariant out[maxLen..] == old(out[maxLen..])
    {
      SymbolInBuffer(b, pos, pos', end);
      if maxLen <= pos' + 1 { return false, bits', pos'; }
      out[pos'] := ALPHABET[(buffer / Pow2(bits' - 5)) % 32];
      bits', pos' := bits' - 5, pos' + 1;
    }
    ok := true;
  }

  /** One round of the outer loop: a byte goes into the buffer, its symbols come out. */
  method EncodeByte(ghost b: seq<bool>, ghost end: nat, byte: Byte,
                    buffer: nat, bits: nat, out: array<char>, pos: nat, maxLen: nat)
    returns (ok: bool, buffer': nat, bits': nat, pos': nat)
    requires bits < 5 && Holds(b, 5 * pos, end, buffer, bits)
    requires end + 8 <= |b| && b[end..end + 8] == BitsOf(byte, 8)
    requires maxLen <= out.Length && Written(b, out, pos, maxLen)
    modifies out
    ensures out[maxLen..] == old(out[maxLen..])
    ensures Written(b, out, pos', maxLen)
    ensures ok ==> bits' < 5 && Holds(b, 5 * pos', end + 8, buffer', bits')
    ensures !ok ==> pos' < |BitsToText(b)| && maxLen <= pos' + 1
  {
    Powers();
    BitsIn(b, 5 * pos, end, buffer, bits, 8, byte);
    buffer' := ShiftLeft(buffer, 8) + byte;
    ok, bits', pos' := EmitGroups(b, end + 8, buffer', bits + 8, out, pos, maxLen);
    MaskedBuffer(b, 5 * pos, 5 * pos', end + 8, buffer', bits + 8, bits');
    buffer' := buffer' % Pow2(bits');
  }

  /** Masking the buffer drops the bits that have gone out. */
  lemma MaskedBuffer(b: seq<bool>, from: nat, k: nat, end: nat, buffer: nat, bits: nat, bits': nat)
    requires Holds(b, from, end, buffer, bits) && from <= k && end == k + bits'
    ensures 0 < Pow2(bits') && Holds(b, k, end, buffer % Pow2(bits'), bits')
  {
    RestOfBuffer(b, from, k, end);
  }

  lemma BitsIn(b: seq<bool>, at: nat, end: nat, buffer: nat, bits: nat, n: nat, v: nat)
    requires bits < 8 && n <= 8 && Holds(b, at, end, buffer, bits)
    requires end + n <= |b| && v < Pow2(n) && b[end..end + n] == BitsOf(v, n)
    ensures Holds(b, at, end + n, ShiftLeft(buffer, n) + v, bits + n)
  {
    ShiftIn(b, at, end, n, v);
  }

  /** The bits left over at the end go out as a symbol of their own. */
  method EmitRest(ghost b: seq<bool>, buffer: nat, bits: nat, out: array<char>, pos: nat, maxLen: nat)
    returns (ok: bool, pos': nat)
    requires bits < 5 && Holds(b, 5 * pos, |b|, buffer, bits) && maxLen <= out.Length && Written(b, out, pos, maxLen)
    modifies out
    ensures out[maxLen..] == old(out[maxLen..])
    ensures ok ==> pos' == |BitsToText(b)| && Written(b, out, pos', maxLen)
    ensures !ok ==> maxLen <= |BitsToText(b)| && 0 < |b|
  {
    TextLength(b);
    ok, pos' := true, pos;
    if 0 < bits {
      LastSymbol(b, pos, bits);
      if maxLen <= pos + 1 { return false, pos; }
      out[pos] := ALPHABET[ShiftLeft(buffer, 5 - bits) % 32];
      pos' := pos + 1;
    }
  }

  /** The outer loop: all bytes go in, all whole symbols come out. */
  method EncodeBytes(data: seq<Byte>, ghost b: seq<bool>, out: array<char>, maxLen: nat)
    returns (ok: bool, buffer: nat, bits: nat, pos: nat)
    requires b == BytesToBits(data) && maxLen <= out.Length
    modifies out
    ensures out[maxLen..] == old(out[maxLen..])
    ensures Written(b, out, pos, maxLen)
    ensures ok ==> bits < 5 && Holds(b, 5 * pos, |b|, buffer, bits)
    ensures !ok ==> pos < |BitsToText(b)| && maxLen <= pos + 1
  {
    BytesToBitsLength(data);
    ok, buffer, bits, pos := true, 0, 0, 0;
    for i := 0 to |data|
      invariant bits < 5 && Holds(b, 5 * pos, 8 * i, buffer, bits) && Written(b, out, pos, maxLen)
      invariant ok && out[maxLen..] == old(out[maxLen..])
    {
      BitsOfByte(data, i);
      ok, buffer, bits, pos := EncodeByte(b, 8 * i, data[i], buffer, bits, out, pos, maxLen);
      if !ok { return; }
    }
  }

  method Encode(data: seq<Byte>, out: array<char>, maxLen: nat) returns (ok: bool)
    requires maxLen <= out.Length
    requires data == [] ==> 0 < out.Length
    modifies out
    ensures ok <==> data == [] || |Encoded(data)| < maxLen
    ensures 0 < maxLen || data != [] ==> out[maxLen..] == old(out[maxLen..])
    ensures ok ==> |Encoded(data)| < out.Length
    ensures ok ==> out[..|Encoded(data)|] == Encoded(data) && out[|Encoded(data)|] == '\0'
  {
    ghost var b := BytesToBits(data);
    BytesToBitsLength(data);
    TextLength(b);
    var buffer, bits, pos;
    ok, buffer, bits, pos := EncodeBytes(data, b, out, maxLen);
    if !ok { return; }
    ok, pos := EmitRest(b, buffer, bits, out, pos, maxLen);
    if !ok { return; }
    out[pos] := '\0';
  }

  lemma LastSymbol(b: seq<bool>, pos: nat, bits: nat)
    requires 0 < bits < 5 && |b| == 5 * pos + bits
    ensures |BitsToText(b)| == pos + 1
    ensures var v := ShiftLeft(Val(b[5 * pos..|b|]), 5 - bits) % 32; BitsToText(b)[pos] == ALPHABET[v]
  {
    TextLength(b);
    LastTextAt(b, pos, bits);
    assert b[5 * pos..|b|] == b[5 * pos..];
    LastGroup(b[5 * pos..], bits);
  }

  lemma LastGroup(b: seq<bool>, n: nat)
    requires 0 < n == |b| < 5
    ensures ShiftLeft(Val(b), 5 - n) % 32 == Val(b + Zeros(5 - n)) < 32
  {
    ValConcat(b, Zeros(5 - n));
    ValZeros(5 - n);
    ValBound(b + Zeros(5 - n));
    Powers();
    ShiftFits(b, 5 - n);
    MaskKeeps(ShiftLeft(Val(b), 5 - n), Val(b + Zeros(5 - n)));
  }

  lemma MaskKeeps(x: nat, v: nat)
    requires x == v < 32
    ensures x % 32 == v
  {
  }

  lemma {:induction false} TextPrefix(s: string, i: nat)
    requires i <= |s|
    ensures TextToBits(s[..i]) <= TextToBits(s)
    decreases |s|
  {
    if i < |s| {
      var front := s[..|s| - 1];
      TextPrefix(front, i);
      assert front[..i] == s[..i];
    } else {
      assert s[..i] == s;
    }
  }

  /** Character `i` adds its five bits, or none. */
  lemma BitsOfSymbol(s: string, b: seq<bool>, i: nat, end: nat)
    requires i < |s| && b == TextToBits(s) && end == |TextToBits(s[..i])|
    ensures ValueOf(s[i]) < 0 ==> TextToBits(s[..i + 1]) == TextToBits(s[..i])
    ensures ValueOf(s[i]) >= 0 ==> |TextToBits(s[..i + 1])| == end + 5 <= |b|
    ensures ValueOf(s[i]) >= 0 ==> b[end..end + 5] == BitsOf(ValueOf(s[i]), 5)
  {
    var next := s[..i + 1];
    assert next[..i] == s[..i] && next[i] == s[i];
    TextPrefix(s, i + 1);
    EndOfPrefix(TextToBits(s[..i]), SymbolBits(s[i]), b);
  }

  lemma EndOfPrefix(front: seq<bool>, more: seq<bool>, b: seq<bool>)
    requires front + more <= b
    ensures |front| + |more| <= |b| && b[|front|..|front| + |more|] == more
  {
    assert b[..|front| + |more|] == front + more;
  }

  ghost predicate Stored(b: seq<bool>, out: array<Byte>, len: nat, maxLen: nat)
    reads out
  {
    len <= maxLen && len <= |BitsToBytes(b)| && len <= out.Length && out[..len] == BitsToBytes(b)[..len]
  }

  /** A byte comes out of the buffer when it holds eight bits. */
  method EmitByte(ghost b: seq<bool>, ghost end: nat, buffer: nat, bits: nat, out: array<Byte>, len: nat, maxLen: nat)
    returns (ok: bool, bits': nat, len': nat)
    requires bits < 16 && Holds(b, 8 * len, end, buffer, bits) && maxLen <= out.Length && Stored(b, out, len, maxLen)
    modifies out
    ensures out[maxLen..] == old(out[maxLen..])
    ensures ok ==> bits' < 8 && len <= len' && end == 8 * len' + bits' && Stored(b, out, len', maxLen)
    ensures !ok ==> maxLen < |BitsToBytes(b)|
  {
    ok, bits', len' := true, bits, len;
    if 8 <= bits {
      ByteInBuffer(b, len, end);
      if maxLen <= len { return false, bits, len; }
      out[len] := (buffer / Pow2(bits - 8)) % 256;
      bits', len' := bits - 8, len + 1;
    }
  }

  /** One symbol goes into the buffer, and a byte may come out. */
  method DecodeSymbol(ghost b: seq<bool>, ghost end: nat, v: nat,
                      buffer: nat, bits: nat, out: array<Byte>, len: nat, maxLen: nat)
    returns (ok: bool, buffer': nat, bits': nat, len': nat)
    requires bits < 8 && Holds(b, 8 * len, end, buffer, bits)
    requires v < 32 && end + 5 <= |b| && b[end..end + 5] == BitsOf(v, 5)
    requires maxLen <= out.Length && Stored(b, out, len, maxLen)
    modifies out
    ensures out[maxLen..] == old(out[maxLen..])
    ensures ok ==> Stored(b, out, len', maxLen) && bits' < 8 && Holds(b, 8 * len', end + 5, buffer', bits')
    ensures !ok ==> maxLen < |BitsToBytes(b)|
  {
    Powers();
    BitsIn(b, 8 * len, end, buffer, bits, 5, v);
    buffer' := ShiftLeft(buffer, 5) + v;
    ok, bits', len' := EmitByte(b, end + 5, buffer', bits + 5, out, len, maxLen);
    if ok {
      MaskedBuffer(b, 8 * len, 8 * len', end + 5, buffer', bits + 5, bits');
      buffer' := buffer' % Pow2(bits');
    }
  }

  lemma ByteInBuffer(b: seq<bool>, k: nat, end: nat)
    requires 8 * k + 8 <= end <= |b|
    ensures k < |BitsToBytes(b)|
    ensures (Val(b[8 * k..end]) / Pow2(end - 8 * k - 8)) % 256 == BitsToBytes(b)[k]
  {
    ByteAt(b, k);
    GroupInBuffer(b, 8 * k, 8 * k, end, 8);
    Powers();
  }

  method Decode(s: string, out: array<Byte>, maxLen: nat) returns (len: nat)
    requires maxLen <= out.Length
    modifies out
    ensures len == if |Decoded(s)| <= maxLen then |Decoded(s)| else 0
    ensures out[maxLen..] == old(out[maxLen..])
    ensures |Decoded(s)| <= maxLen ==> out[..len] == Decoded(s)
  {
    ghost var b := TextToBits(s);
    ghost var end := 0;
    var buffer: nat, bits: nat := 0, 0;
    len := 0;
    for i := 0 to |s|
      invariant end == |TextToBits(s[..i])| && bits < 8 && Holds(b, 8 * len, end, buffer, bits)
      invariant Stored(b, out, len, maxLen) && out[maxLen..] == old(out[maxLen..])
    {
      BitsOfSymbol(s, b, i, end);
      var v := ValueOf(s[i]);
      if v < 0 { continue; }
      var ok;
      ok, buffer, bits, len := DecodeSymbol(b, end, v, buffer, bits, out, len, maxLen);
      if !ok { return 0; }
      end := end + 5;
    }
    assert s[..|s|] == s;
    BytesLength(b);
  }
}
