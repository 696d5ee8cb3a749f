/** What the two directions of the base-32 codec undo of each other. */
module Base32Laws {
  import opened Basics
  import opened Bits
  import opened Base32

  /** The last few bits are the zeros that filled up the last symbol. */
  ghost predicate EndsInZeros(b: seq<bool>, from: nat)
    requires from <= |b|
  {
    forall i :: from <= i < |b| ==> !b[i]
  }

  /** A character of the encoder's alphabet: no lower-case letters. */
  predicate IsSymbol(c: char) {
    'A' <= c <= 'Z' || '2' <= c <= '7'
  }

  predicate AllSymbols(s: string) {
    forall i :: 0 <= i < |s| ==> IsSymbol(s[i])
  }

  /** Text the encoder could have written: its own alphabet only, no last symbol that adds nothing to
      the last byte, and the bits behind the last byte zero. */
  ghost predicate Canonical(s: string) {
    var b := TextToBits(s);
    AllSymbols(s) && |b| % 8 < 5 && EndsInZeros(b, |b| - |b| % 8)
  }

  lemma {:induction false} EncodedLength(data: seq<Byte>)
    ensures |Encoded(data)| == (8 * |data| + 4) / 5
  {
    BytesToBitsLength(data);
    TextLength(BytesToBits(data));
  }

  // ------------------------------------------------------------- bits and symbols

  lemma SymbolHasBits(g: seq<bool>)
    requires |g| == 5
    ensures ValueOf(SymbolOf(g)) == Val(g) && BitsOf(Val(g), 5) == g && IsSymbol(SymbolOf(g))
  {
    BitsOfVal(g);
    ValBound(g);
    assert Pow2(5) == 32;
    ValueOfSymbol(Val(g));
  }

  lemma ValueOfSymbol(v: nat)
    requires v < 32
    ensures IsSymbol(ALPHABET[v]) && ValueOf(ALPHABET[v]) == v
  {
  }

  lemma SymbolOfValue(c: char)
    requires IsSymbol(c)
    ensures 0 <= ValueOf(c) < 32 && ALPHABET[ValueOf(c)] == c
  {
  }

  lemma Regroup(a: seq<bool>, b: seq<bool>, c: seq<bool>)
    ensures (a + b) + c == a + (b + c)
  {
  }

  lemma {:induction false} TextConcat(s: string, t: string)
    ensures TextToBits(s + t) == TextToBits(s) + TextToBits(t)
  {
    if t == "" {
      assert s + t == s;
    } else {
      var front, c := t[..|t| - 1], t[|t| - 1];
      TextConcat(s, front);
      assert (s + t)[..|s + t| - 1] == s + front && (s + t)[|s + t| - 1] == c;
      Regroup(TextToBits(s), TextToBits(front), SymbolBits(c));
    }
  }

  lemma OneSymbol(c: char)
    requires ValueOf(c) >= 0
    ensures TextToBits([c]) == BitsOf(ValueOf(c), 5)
  {
    assert [c][..0] == "";
  }

  /** How many zeros fill up the last symbol of `n` bits. */
  function Fill(n: nat): (z: nat)
    ensures z < 5
  {
    if n == 0 then 0 else if n < 5 then 5 - n else Fill(n - 5)
  }

  /** Reading the symbols of `b` gives `b` back, and the zeros of its last symbol. */
  lemma {:induction false} ReadBack(b: seq<bool>)
    ensures TextToBits(BitsToText(b)) == b + Zeros(Fill(|b|))
  {
    if b == [] {
    } else if |b| < 5 {
      var g := b + Zeros(5 - |b|);
      SymbolHasBits(g);
      OneSymbol(SymbolOf(g));
    } else {
      ReadBack(b[5..]);
      ReadFront(b[..5], BitsToText(b[5..]));
      Regroup(b[..5], b[5..], Zeros(Fill(|b|)));
      assert b == b[..5] + b[5..];
    }
  }

  lemma ReadFront(g: seq<bool>, t: string)
    requires |g| == 5
    ensures TextToBits([SymbolOf(g)] + t) == g + TextToBits(t)
  {
    SymbolHasBits(g);
    OneSymbol(SymbolOf(g));
    TextConcat([SymbolOf(g)], t);
  }

  lemma {:induction false} OnlySymbols(b: seq<bool>)
    ensures AllSymbols(BitsToText(b))
  {
    if 0 < |b| < 5 {
      SymbolHasBits(b + Zeros(5 - |b|));
    } else if b != [] {
      SymbolHasBits(b[..5]);
      OnlySymbols(b[5..]);
    }
  }

  lemma ByteBack(data: seq<Byte>, b: seq<bool>, k: nat)
    requires k < |data| && BytesToBits(data) <= b
    ensures k < |BitsToBytes(b)| && BitsToBytes(b)[k] == data[k]
  {
    var own := BytesToBits(data);
    BitsOfByte(data, k);
    ByteAt(b, k);
    assert b[..|own|] == own;
    assert b[8 * k..8 * k + 8] == own[8 * k..8 * k + 8];
    assert Pow2(8) == 256;
    ValBitsOf(data[k], 8);
  }

  lemma BytesBack(data: seq<Byte>, extra: seq<bool>)
    requires |extra| < 8
    ensures BitsToBytes(BytesToBits(data) + extra) == data
  {
    var b := BytesToBits(data) + extra;
    BytesToBitsLength(data);
    BytesLength(b);
    forall k | 0 <= k < |data| ensures k < |BitsToBytes(b)| && BitsToBytes(b)[k] == data[k] {
      ByteBack(data, b, k);
    }
  }

  /** Decoding undoes encoding, for every string of bytes. */
  lemma DecodeUndoesEncode(data: seq<Byte>)
    ensures Decoded(Encoded(data)) == data
  {
    var b := BytesToBits(data);
    ReadBack(b);
    BytesBack(data, Zeros(Fill(|b|)));
  }

  // ------------------------------------------------------------- the text as a number

  /** A letter counts from 0, a digit from 26 on. */
  function SymbolValue(c: char): int {
    if 'A' <= c <= 'Z' then c as int - 'A' as int else c as int - '2' as int + 26
  }

  /** The number that the symbols write in base 32. */
  function FromSymbols(s: string): int {
    if s == "" then 0 else 32 * FromSymbols(s[..|s| - 1]) + SymbolValue(s[|s| - 1])
  }

  lemma BitsBehind(b: seq<bool>, v: nat, n: nat, p: nat)
    requires v < p == Pow2(n)
    ensures Val(b + BitsOf(v, n)) == Val(b) * p + v
  {
    ValConcat(b, BitsOf(v, n));
    ValBitsOf(v, n);
  }

  lemma ByteBehind(b: seq<bool>, v: nat)
    requires v < 256
    ensures Val(b + BitsOf(v, 8)) == 256 * Val(b) + v
  {
    Powers();
    BitsBehind(b, v, 8, 256);
  }

  lemma SymbolBehind(b: seq<bool>, c: char)
    requires IsSymbol(c)
    ensures Val(b + SymbolBits(c)) == 32 * Val(b) + SymbolValue(c)
  {
    Powers();
    BitsBehind(b, ValueOf(c), 5, 32);
  }

  lemma FilledUp(b: seq<bool>, n: nat)
    ensures Val(b + Zeros(n)) == Val(b) * Pow2(n)
  {
    ValConcat(b, Zeros(n));
    ValZeros(n);
  }

  lemma {:induction false} BitsAreBytes(data: seq<Byte>)
    ensures Val(BytesToBits(data)) == FromBytes(data)
  {
    if data != [] {
      var front, v := data[..|data| - 1], data[|data| - 1];
      BitsAreBytes(front);
      ByteBehind(BytesToBits(front), v);
    }
  }

  lemma {:induction false} BitsAreSymbols(s: string)
    requires AllSymbols(s)
    ensures Val(TextToBits(s)) == FromSymbols(s)
  {
    if s != "" {
      var front, c := s[..|s| - 1], s[|s| - 1];
      BitsAreSymbols(front);
      SymbolBehind(TextToBits(front), c);
    }
  }

  /** The text of some bits, as a number. */
  lemma TextIsNumber(b: seq<bool>)
    ensures AllSymbols(BitsToText(b)) && 5 * |BitsToText(b)| == |b| + Fill(|b|)
    ensures FromSymbols(BitsToText(b)) == Val(b) * Pow2(Fill(|b|))
  {
    OnlySymbols(b);
    ReadBack(b);
    SpellBack(BitsToText(b));
    BitsAreSymbols(BitsToText(b));
    FilledUp(b, Fill(|b|));
  }

  /** Encoding changes the base: as a number in base 32, the text is the bytes as a number in base 256, moved up by
      the bits that fill the last symbol. */
  lemma EncodingChangesBase(data: seq<Byte>)
    ensures AllSymbols(Encoded(data)) && 8 * |data| <= 5 * |Encoded(data)| < 8 * |data| + 5
    ensures FromSymbols(Encoded(data)) == FromBytes(data) * Pow2(5 * |Encoded(data)| - 8 * |data|)
  {
    BytesToBitsLength(data);
    TextIsNumber(BytesToBits(data));
    BitsAreBytes(data);
  }

  // ------------------------------------------------------------ what a reader may be given

  /** The letters and the digits 2 to 7, letters as capitals; nothing else. */
  function Normal(s: string): (r: string)
    ensures AllSymbols(r)
  {
    if s == "" then ""
    else
      var front, c := Normal(s[..|s| - 1]), s[|s| - 1];
      if 'a' <= c <= 'z' then front + [c - 'a' + 'A'] else if IsSymbol(c) then front + [c] else front
  }

  lemma SameBits(s: string, c: char, d: char)
    requires ValueOf(c) == ValueOf(d)
    ensures TextToBits(s + [c]) == TextToBits(s) + SymbolBits(d)
  {
    assert (s + [c])[..|s|] == s;
  }

  /** Decoding ignores the case of letters and skips everything that is no symbol. */
  lemma {:induction false} DecodeReadsSymbols(s: string)
    ensures TextToBits(Normal(s)) == TextToBits(s) && Decoded(Normal(s)) == Decoded(s)
  {
    if s != "" {
      var front, c := s[..|s| - 1], s[|s| - 1];
      DecodeReadsSymbols(front);
      if 'a' <= c <= 'z' {
        SameBits(Normal(front), c - 'a' + 'A', c);
      } else if IsSymbol(c) {
        SameBits(Normal(front), c, c);
      }
    }
  }

  // ---------------------------------------------------------------- the other way round

  lemma {:induction false} BytesConcat(x: seq<Byte>, y: seq<Byte>)
    ensures BytesToBits(x + y) == BytesToBits(x) + BytesToBits(y)
  {
    if y == [] {
      assert x + y == x;
    } else {
      var front, v := y[..|y| - 1], y[|y| - 1];
      BytesConcat(x, front);
      assert (x + y)[..|x + y| - 1] == x + front && (x + y)[|x + y| - 1] == v;
      Regroup(BytesToBits(x), BytesToBits(front), BitsOf(v, 8));
    }
  }

  lemma OneByte(v: Byte)
    ensures BytesToBits([v]) == BitsOf(v, 8)
  {
    var none: seq<Byte> := [v][..0];
    assert none == [];
  }

  /** Whole bytes taken out of `b` spell out `b` again, up to what is left over. */
  lemma {:induction false} BitsBack(b: seq<bool>)
    ensures BytesToBits(BitsToBytes(b)) <= b && |b| < |BytesToBits(BitsToBytes(b))| + 8
  {
    if |b| >= 8 {
      var v, rest := BitsToBytes(b)[0], BitsToBytes(b[8..]);
      BitsBack(b[8..]);
      BitsOfVal(b[..8]);
      OneByte(v);
      BytesConcat([v], rest);
      assert b == b[..8] + b[8..];
    }
  }

  /** Five bits at a time, text follows its bits. */
  lemma {:induction false} GroupsConcat(x: seq<bool>, g: seq<bool>, k: nat)
    requires |x| == 5 * k && |g| == 5
    ensures BitsToText(x + g) == BitsToText(x) + [SymbolOf(g)]
  {
    if k == 0 {
      assert x + g == g && g[..5] == g && g[5..] == [];
    } else {
      GroupsConcat(x[5..], g, k - 1);
      assert (x + g)[..5] == x[..5] && (x + g)[5..] == x[5..] + g;
    }
  }

  lemma SymbolIsItsBits(c: char)
    requires IsSymbol(c)
    ensures |SymbolBits(c)| == 5 && SymbolOf(SymbolBits(c)) == c
  {
    SymbolOfValue(c);
    assert Pow2(5) == 32;
    ValBitsOf(ValueOf(c), 5);
  }

  lemma {:induction false} SpellBack(s: string)
    requires AllSymbols(s)
    ensures |TextToBits(s)| == 5 * |s| && BitsToText(TextToBits(s)) == s
  {
    if s != "" {
      var front, c := s[..|s| - 1], s[|s| - 1];
      SpellBack(front);
      SymbolIsItsBits(c);
      assert s == front + [c];
      GroupsConcat(TextToBits(front), SymbolBits(c), |front|);
    }
  }

  lemma {:induction false} FillIs(n: nat, f: nat, k: nat)
    requires n + f == 5 * k && f < 5
    ensures f == Fill(n)
  {
    if n >= 5 { FillIs(n - 5, f, k - 1); }
  }

  lemma {:induction false} DropZeros(x: seq<bool>)
    ensures BitsToText(x + Zeros(Fill(|x|))) == BitsToText(x)
  {
    var zeros := Zeros(Fill(|x|));
    if |x| >= 5 {
      DropZeros(x[5..]);
      assert (x + zeros)[..5] == x[..5] && (x + zeros)[5..] == x[5..] + zeros;
    } else if x != [] {
      var g := x + zeros;
      assert g[..5] == g && g[5..] == [];
    } else {
      assert x + zeros == x;
    }
  }

  /** Encoding undoes decoding on the encoder's own texts, and on no others. */
  lemma EncodeUndoesDecode(s: string)
    ensures Encoded(Decoded(s)) == s <==> Canonical(s)
  {
    if Encoded(Decoded(s)) == s { WrittenIsCanonical(s); }
    if Canonical(s) { CanonicalComesBack(s); }
  }

  lemma WrittenIsCanonical(s: string)
    requires Encoded(Decoded(s)) == s
    ensures Canonical(s)
  {
    var x := BytesToBits(Decoded(s));
    OnlySymbols(x);
    ReadBack(x);
    BytesToBitsLength(Decoded(s));
    Leftover(|TextToBits(s)|, |Decoded(s)|, Fill(|x|));
  }

  lemma CanonicalComesBack(s: string)
    requires Canonical(s)
    ensures Encoded(Decoded(s)) == s
  {
    var b := TextToBits(s);
    var x := BytesToBits(Decoded(s));
    SpellBack(s);
    BitsBack(b);
    BytesToBitsLength(Decoded(s));
    var f := |b| - |x|;
    Leftover(|b|, |Decoded(s)|, f);
    FillIs(|x|, f, |s|);
    assert b == x + Zeros(f);
    DropZeros(x);
  }

  lemma Leftover(n: nat, m: nat, f: nat)
    requires n == 8 * m + f && f < 8
    ensures n % 8 == f
  {
  }
}
