/** Black_Hole_53: a byte layer around the compressor. The compressed bytes
    are spelled out as a `'08b'` bit string, read back in groups of 8, and
    XOR-ed with decimal digits of pi; decoding XORs with the same digits
    again. The module also carries the 5-bit symbol table with its inverse
    and the bit reversal of bits 1..6 of a byte. */
module BlackHole53 {
  import opened Basics
  import Positional
  import Compression

  // ---------------------------------------------------------------------
  // The symbol table

  /** `symbol_map`: the space and 30 punctuation characters, each with a 5-bit code. */
  const SYMBOL_MAP: map<char, nat> := map[
    ' ' := 1, '.' := 2, ',' := 3, '?' := 4, '!' := 5, '-' := 6, '\'' := 7, '"' := 8,
    ':' := 9, ';' := 10, '(' := 11, ')' := 12, '[' := 13, ']' := 14, '{' := 15, '}' := 16,
    '/' := 17, '\\' := 18, '@' := 19, '#' := 20, '$' := 21, '%' := 22, '^' := 23, '&' := 24,
    '*' := 25, '+' := 26, '=' := 27, '<' := 28, '>' := 29, '|' := 30, '~' := 31]

  /** The characters of the table in code order: the character with code `k` is at index `k - 1`. */
  const SYMBOLS: seq<char> := [
    ' ', '.', ',', '?', '!', '-', '\'', '"', ':', ';', '(', ')', '[', ']', '{', '}',
    '/', '\\', '@', '#', '$', '%', '^', '&', '*', '+', '=', '<', '>', '|', '~']

  /** The table lists exactly the characters of `SYMBOLS`, giving the one at index `i` the code `i + 1`. */
  lemma SymbolMapIndexed()
    ensures |SYMBOLS| == 31
    ensures forall i :: 0 <= i < 31 ==> SYMBOLS[i] in SYMBOL_MAP && SYMBOL_MAP[SYMBOLS[i]] == i + 1
    ensures forall k :: k in SYMBOL_MAP ==> k in SYMBOLS
  {
    CodesBelow4();
    CodesBelow10();
    CodesBelow20();
    CodesBelow31();
  }

  // The table is checked one range of indexes at a time. Each entry is a
  // lookup of a character in the 31-entry map, and one proof over all 31
  // indexes is too large for the solver; each range stays small.

  lemma CodesBelow4()
    ensures forall i :: 0 <= i < 4 ==> SYMBOLS[i] in SYMBOL_MAP && SYMBOL_MAP[SYMBOLS[i]] == i + 1
  {
  }

  lemma CodesBelow10()
    ensures forall i :: 4 <= i < 10 ==> SYMBOLS[i] in SYMBOL_MAP && SYMBOL_MAP[SYMBOLS[i]] == i + 1
  {
  }

  lemma CodesBelow20()
    ensures forall i :: 10 <= i < 20 ==> SYMBOLS[i] in SYMBOL_MAP && SYMBOL_MAP[SYMBOLS[i]] == i + 1
  {
  }

  lemma CodesBelow31()
    ensures forall i :: 20 <= i < 31 ==> SYMBOLS[i] in SYMBOL_MAP && SYMBOL_MAP[SYMBOLS[i]] == i + 1
  {
  }

  /** Every code is a distinct non-zero 5-bit value. */
  lemma SymbolCodes()
    ensures forall k :: k in SYMBOL_MAP ==> 1 <= SYMBOL_MAP[k] <= 31
    ensures forall k, k' :: k in SYMBOL_MAP && k' in SYMBOL_MAP && SYMBOL_MAP[k] == SYMBOL_MAP[k'] ==> k == k'
  {
    SymbolMapIndexed();
    forall k, k' | k in SYMBOL_MAP && k' in SYMBOL_MAP && SYMBOL_MAP[k] == SYMBOL_MAP[k']
      ensures k == k'
    {
      var i :| 0 <= i < 31 && SYMBOLS[i] == k;
      var j :| 0 <= j < 31 && SYMBOLS[j] == k';
    }
  }

  /** `reverse_symbol_map = {v: k for k, v in symbol_map.items()}` */
  function ReverseSymbolMap(): (r: map<nat, char>)
    ensures forall k :: k in SYMBOL_MAP ==> SYMBOL_MAP[k] in r && r[SYMBOL_MAP[k]] == k
    ensures forall v :: v in r ==> r[v] in SYMBOL_MAP && SYMBOL_MAP[r[v]] == v
  {
    SymbolCodes();
    map k | k in SYMBOL_MAP :: SYMBOL_MAP[k] := k
  }

  /** The reverse table has exactly the 31 codes 1..31 as keys. */
  lemma ReverseSymbolMapKeys()
    ensures forall v: nat :: v in ReverseSymbolMap() <==> 1 <= v <= 31
  {
    SymbolMapIndexed();
    SymbolCodes();
    forall v: nat | 1 <= v <= 31
      ensures v in ReverseSymbolMap()
    {
      assert SYMBOL_MAP[SYMBOLS[v - 1]] == v;
    }
  }

  // ---------------------------------------------------------------------
  // Bits of a byte

  /** The digits of `format(b, '08b')`, most significant bit first. */
  function Bits(b: byte): (r: seq<nat>)
    ensures |r| == 8 && Positional.DigitsIn(r, 2)
  {
    Positional.ToDigits(b, 2, 8)
  }

  /** Bits read back give the byte, and eight bits give a byte whose bits they are. */
  lemma BitsRoundTrip(b: byte)
    ensures Positional.FromDigits(Bits(b), 2) == b
  {
    assert Positional.Pow(2, 8) == 256;
    Positional.FromToDigits(b, 2, 8);
  }

  lemma BitsOf(s: seq<nat>)
    requires |s| == 8 && Positional.DigitsIn(s, 2)
    ensures Positional.FromDigits(s, 2) < 256
    ensures Bits(Positional.FromDigits(s, 2)) == s
  {
    assert Positional.Pow(2, 8) == 256;
    Positional.FromDigitsBound(s, 2);
    Positional.ToFromDigits(s, 2);
  }

  /** A byte is determined by its bits. */
  lemma BitsInjective(a: byte, b: byte)
    requires Bits(a) == Bits(b)
    ensures a == b
  {
    BitsRoundTrip(a);
    BitsRoundTrip(b);
  }

  /** The high four bits are `b // 16`. */
  lemma HighNibble(b: byte)
    ensures b / 16 == Positional.FromDigits(Bits(b)[..4], 2)
  {
    var s := Bits(b);
    assert s == s[..4] + s[4..];
    Positional.FromDigitsAppend(s[..4], s[4..], 2);
    assert Positional.Pow(2, 4) == 16;
    Positional.FromDigitsBound(s[4..], 2);
    BitsRoundTrip(b);
    Positional.DivModUnique(b, 16, Positional.FromDigits(s[..4], 2), Positional.FromDigits(s[4..], 2));
  }

  /** Only zero digits have the value zero. */
  lemma {:induction false} ZeroDigits(s: seq<nat>)
    requires Positional.FromDigits(s, 2) == 0
    ensures forall i :: 0 <= i < |s| ==> s[i] == 0
  {
    if |s| > 0 {
      ZeroDigits(s[..|s| - 1]);
      assert forall i :: 0 <= i < |s| - 1 ==> s[i] == s[..|s| - 1][i];
    }
  }

  // ---------------------------------------------------------------------
  // reverse_bits

  /** `reverse_bits`: `(byte & 0b01111110) >> 1` picks bits 1..6, whose
      six-digit binary spelling is reversed and shifted back into place;
      `byte & ~mask` keeps bits 0 and 7. */
  function ReverseBits(b: byte): (r: byte)
    ensures r % 2 == b % 2 && r / 128 == b / 128
  {
    var relevant := (b / 2) % 64;
    var reversed := Positional.FromDigits(Reverse(Positional.ToDigits(relevant, 2, 6)), 2);
    ReversedBitsFit(relevant);
    Assemble(b % 2, reversed, b / 128);
    b % 2 + b / 128 * 128 + reversed * 2
  }

  /** Bit 0, six middle bits and bit 7 put together make a byte they can be read back from. */
  lemma Assemble(lo: nat, mid: nat, hi: nat)
    requires lo < 2 && mid < 64 && hi < 2
    ensures lo + hi * 128 + mid * 2 < 256
    ensures (lo + hi * 128 + mid * 2) % 2 == lo && (lo + hi * 128 + mid * 2) / 128 == hi
  {
    Positional.DivModUnique(lo + hi * 128 + mid * 2, 2, hi * 64 + mid, lo);
    Positional.DivModUnique(lo + hi * 128 + mid * 2, 128, hi, mid * 2 + lo);
  }

  lemma ReversedBitsFit(v: nat)
    ensures Positional.FromDigits(Reverse(Positional.ToDigits(v, 2, 6)), 2) < 64
  {
    assert Positional.Pow(2, 6) == 64;
    Positional.FromDigitsBound(Reverse(Positional.ToDigits(v, 2, 6)), 2);
  }

  /** In `format(b, '08b')` order, the result keeps the first and last bit
      (bits 7 and 0) and has the six bits between them in reverse order. */
  lemma ReverseBitsSpec(b: byte)
    ensures Bits(ReverseBits(b)) == [Bits(b)[0]] + Reverse(Bits(b)[1..7]) + [Bits(b)[7]]
  {
    var s := Bits(b);
    var t := [s[0]] + Reverse(s[1..7]) + [s[7]];
    ReverseBitsValue(b);
    assert Positional.DigitsIn(t, 2) by {
      assert forall i :: 0 <= i < |t| ==> t[i] == s[0] || t[i] == s[7] || t[i] in s[1..7];
    }
    BitsOf(t);
  }

  /** The value of the reversed spelling is the result of `reverse_bits`. */
  lemma ReverseBitsValue(b: byte)
    ensures ReverseBits(b) == Positional.FromDigits([Bits(b)[0]] + Reverse(Bits(b)[1..7]) + [Bits(b)[7]], 2)
  {
    var s := Bits(b);
    var mid := s[1..7];
    ByteParts(b);
    // the six relevant bits are spelled `mid`
    Positional.ToFromDigits(mid, 2);
    assert Positional.ToDigits((b / 2) % 64, 2, 6) == mid;
    SplitValue(s[0], Reverse(mid), s[7]);
  }

  /** Bit 0, bits 1..6 and bit 7 of a byte, read off its `'08b'` digits. */
  lemma ByteParts(b: byte)
    ensures b % 2 == Bits(b)[7]
    ensures (b / 2) % 64 == Positional.FromDigits(Bits(b)[1..7], 2)
    ensures b / 128 == Bits(b)[0]
  {
    var s := Bits(b);
    var hi, mid, lo := s[0], s[1..7], s[7];
    var fm := Positional.FromDigits(mid, 2);
    assert s == [hi] + mid + [lo];
    SplitValue(hi, mid, lo);
    BitsRoundTrip(b);
    assert Positional.Pow(2, 6) == 64;
    Positional.FromDigitsBound(mid, 2);
    Positional.DivModUnique(b, 2, hi * 64 + fm, lo);
    Positional.DivModUnique(b / 2, 64, hi, fm);
    Positional.DivModUnique(b, 128, hi, fm * 2 + lo);
  }

  /** The value of `[hi] + mid + [lo]` for six middle digits. */
  lemma SplitValue(hi: nat, mid: seq<nat>, lo: nat)
    requires |mid| == 6
    ensures Positional.FromDigits([hi] + mid + [lo], 2) == hi * 128 + Positional.FromDigits(mid, 2) * 2 + lo
  {
    var s := [hi] + mid + [lo];
    assert s[..|s| - 1] == [hi] + mid;
    Positional.FromDigitsAppend([hi], mid, 2);
    assert Positional.Pow(2, 6) == 64;
    assert Positional.FromDigits([hi], 2) == hi by {
      assert [hi][..0] == [];
    }
  }

  /** `reverse_bits` undoes itself. */
  lemma ReverseBitsInvolution(b: byte)
    ensures ReverseBits(ReverseBits(b)) == b
  {
    var s := Bits(b);
    ReverseBitsSpec(b);
    ReverseBitsSpec(ReverseBits(b));
    var t := Bits(ReverseBits(b));
    assert t[1..7] == Reverse(s[1..7]);
    ReverseReverse(s[1..7]);
    assert s == [s[0]] + s[1..7] + [s[7]];
    BitsInjective(ReverseBits(ReverseBits(b)), b);
  }

  /** `reverse_bits_in_data`: `reverse_bits` applied to every byte. */
  function ReverseBitsInData(data: seq<byte>): (r: seq<byte>)
    ensures |r| == |data|
    ensures forall i :: 0 <= i < |data| ==> Bits(r[i]) == [Bits(data[i])[0]] + Reverse(Bits(data[i])[1..7]) + [Bits(data[i])[7]]
  {
    var r := seq(|data|, i requires 0 <= i < |data| => ReverseBits(data[i]));
    assert forall i :: 0 <= i < |data| ==> r[i] == ReverseBits(data[i]);
    forall i | 0 <= i < |data|
      ensures Bits(r[i]) == [Bits(data[i])[0]] + Reverse(Bits(data[i])[1..7]) + [Bits(data[i])[7]]
    {
      ReverseBitsSpec(data[i]);
    }
    r
  }

  lemma ReverseBitsInDataInvolution(data: seq<byte>)
    ensures ReverseBitsInData(ReverseBitsInData(data)) == data
  {
    var once := ReverseBitsInData(data);
    var twice := ReverseBitsInData(once);
    forall i | 0 <= i < |data|
      ensures twice[i] == data[i]
    {
      ReverseBitsInvolution(data[i]);
    }
  }

  // ---------------------------------------------------------------------
  // XOR with digits of pi

  /** `a ^ b` on bytes: bit `i` of the result is set exactly when bits `i` of `a` and `b` differ. */
  function Xor(a: byte, b: byte): (r: byte)
    ensures forall i :: 0 <= i < 8 ==> (Bits(r)[i] == 1 <==> Bits(a)[i] != Bits(b)[i])
  {
    var s := seq(8, i requires 0 <= i < 8 => if Bits(a)[i] == Bits(b)[i] then 0 else 1);
    BitsOf(s);
    Positional.FromDigits(s, 2)
  }

  /** XOR-ing twice with the same value gives back the byte. */
  lemma XorTwice(a: byte, b: byte)
    ensures Xor(Xor(a, b), b) == a
  {
    var x := Xor(Xor(a, b), b);
    forall i | 0 <= i < 8
      ensures Bits(x)[i] == Bits(a)[i]
    {
    }
    BitsInjective(x, a);
  }

  /** XOR with a value below 16 leaves the high four bits alone. */
  lemma XorKeepsHighBits(a: byte, d: byte)
    requires d < 16
    ensures Xor(a, d) / 16 == a / 16
  {
    HighNibble(d);
    ZeroDigits(Bits(d)[..4]);
    HighNibble(a);
    HighNibble(Xor(a, d));
    var x := Xor(a, d);
    assert Bits(x)[..4] == Bits(a)[..4] by {
      forall i | 0 <= i < 4
        ensures Bits(x)[i] == Bits(a)[i]
      {
        assert Bits(d)[..4][i] == 0;
      }
    }
  }

  /** `encode_with_pi`: byte `i` is XOR-ed with digit `i`; `zip` stops at the shorter input. */
  function EncodeWithPi(data: seq<byte>, digits: seq<digit>): (r: seq<byte>)
    ensures |r| == Min(|data|, |digits|)
    ensures forall i :: 0 <= i < |r| ==> r[i] == Xor(data[i], digits[i])
  {
    seq(Min(|data|, |digits|), i requires 0 <= i < Min(|data|, |digits|) => Xor(data[i], digits[i]))
  }

  /** Digits never reach bit 4, so encoding changes only the low four bits of each byte. */
  lemma EncodeKeepsHighBits(data: seq<byte>, digits: seq<digit>)
    ensures forall i :: 0 <= i < |EncodeWithPi(data, digits)| ==> EncodeWithPi(data, digits)[i] / 16 == data[i] / 16
  {
    forall i | 0 <= i < |EncodeWithPi(data, digits)|
      ensures EncodeWithPi(data, digits)[i] / 16 == data[i] / 16
    {
      XorKeepsHighBits(data[i], digits[i]);
    }
  }

  /** Encoding twice with at least as many digits as bytes gives back the data. */
  lemma EncodeTwice(data: seq<byte>, digits: seq<digit>)
    requires |digits| >= |data|
    ensures EncodeWithPi(EncodeWithPi(data, digits), digits) == data
  {
    var twice := EncodeWithPi(EncodeWithPi(data, digits), digits);
    forall i | 0 <= i < |data|
      ensures twice[i] == data[i]
    {
      XorTwice(data[i], digits[i]);
    }
  }

  /** `generate_pi_digits(n)`: `None` (ValueError) for `n < 1`, otherwise the
      digits `source(n)` gives. */
  function PiDigits(source: nat -> seq<digit>, n: nat): (r: Option<seq<digit>>)
    ensures r.None? <==> n < 1
  {
    if n < 1 then None else Some(source(n))
  }

  /** A digit source that gives at least `n` digits when asked for `n`. */
  ghost predicate LongEnough(source: nat -> seq<digit>)
  {
    forall n: nat :: n >= 1 ==> |source(n)| >= n
  }

  // ---------------------------------------------------------------------
  // Bit strings

  /** `format(b, '08b')` */
  function BinaryString(b: byte): (r: string)
    ensures |r| == 8 && IsBinary(r)
  {
    seq(8, i requires 0 <= i < 8 => if Bits(b)[i] == 1 then '1' else '0')
  }

  /** Every character is `'0'` or `'1'`. */
  ghost predicate IsBinary(s: string)
  {
    forall i :: 0 <= i < |s| ==> s[i] == '0' || s[i] == '1'
  }

  /** The digit values of a string of `'0'`/`'1'` characters. */
  function DigitValues(s: string): (r: seq<nat>)
    ensures |r| == |s| && Positional.DigitsIn(r, 2)
  {
    seq(|s|, i requires 0 <= i < |s| => if s[i] == '1' then 1 else 0)
  }

  /** `''.join(format(byte, '08b') for byte in data)` */
  function BytesToBinary(data: seq<byte>): (r: string)
    ensures |r| == 8 * |data| && IsBinary(r)
  {
    if |data| == 0 then [] else BinaryString(data[0]) + BytesToBinary(data[1..])
  }

  /** `int(chunk, 2)` on a chunk of eight `'0'`/`'1'` characters, `None` on any other character. */
  function ParseByte(chunk: string): (r: Option<byte>)
    requires |chunk| == 8
    ensures r.None? <==> !IsBinary(chunk)
    ensures r.Some? ==> Bits(r.value) == DigitValues(chunk)
  {
    if exists i :: 0 <= i < 8 && chunk[i] != '0' && chunk[i] != '1' then None
    else
      BitsOf(DigitValues(chunk));
      Some(Positional.FromDigits(DigitValues(chunk), 2))
  }

  /** `binary_to_base256`: `ValueError` unless the length is a multiple of 8;
      otherwise value `k` is the chunk of characters `8k .. 8k + 7`, read most
      significant bit first. */
  function BinaryToBase256(s: string): (r: Option<seq<byte>>)
    ensures r.None? <==> |s| % 8 != 0 || !IsBinary(s)
    ensures r.Some? ==> |r.value| == |s| / 8
    ensures r.Some? ==> forall k :: 0 <= k < |r.value| ==> Bits(r.value[k]) == DigitValues(s[8 * k..8 * k + 8])
  {
    if |s| % 8 != 0 then None else ParseChunks(s)
  }

  function ParseChunks(s: string): (r: Option<seq<byte>>)
    requires |s| % 8 == 0
    ensures r.None? <==> !IsBinary(s)
    ensures r.Some? ==> |r.value| == |s| / 8
    ensures r.Some? ==> forall k :: 0 <= k < |r.value| ==> Bits(r.value[k]) == DigitValues(s[8 * k..8 * k + 8])
    decreases |s|
  {
    if |s| == 0 then Some([])
    else
      var rest := ParseChunks(s[8..]);
      BinarySplit(s);
      match ParseByte(s[..8])
      case None => None
      case Some(v) =>
        if rest.None? then None
        else
          ChunkAt(s, v, rest.value);
          Some([v] + rest.value)
  }

  /** A string is binary iff its first eight characters and the rest are. */
  lemma BinarySplit(s: string)
    requires |s| >= 8
    ensures IsBinary(s) <==> IsBinary(s[..8]) && IsBinary(s[8..])
  {
    if IsBinary(s[..8]) && IsBinary(s[8..]) {
      forall i | 0 <= i < |s|
        ensures s[i] == '0' || s[i] == '1'
      {
        if i < 8 {
          assert s[i] == s[..8][i];
        } else {
          assert s[i] == s[8..][i - 8];
        }
      }
    }
  }

  lemma ChunkAt(s: string, v: byte, rest: seq<byte>)
    requires |s| >= 8 && |rest| == (|s| - 8) / 8
    requires Bits(v) == DigitValues(s[..8])
    requires forall k :: 0 <= k < |rest| ==> Bits(rest[k]) == DigitValues(s[8..][8 * k..8 * k + 8])
    ensures forall k :: 0 <= k < |rest| + 1 ==> Bits(([v] + rest)[k]) == DigitValues(s[8 * k..8 * k + 8])
  {
    forall k | 0 <= k < |rest| + 1
      ensures Bits(([v] + rest)[k]) == DigitValues(s[8 * k..8 * k + 8])
    {
      if k == 0 {
        assert s[..8] == s[0..8];
      } else {
        assert s[8..][8 * (k - 1)..8 * (k - 1) + 8] == s[8 * k..8 * k + 8];
      }
    }
  }

  /** Spelling bytes out in bits and reading the bits back gives the same bytes. */
  lemma BinaryRoundTrip(data: seq<byte>)
    ensures BinaryToBase256(BytesToBinary(data)) == Some(data)
  {
    var s := BytesToBinary(data);
    Positional.DivModUnique(|s|, 8, |data|, 0);
    var r := BinaryToBase256(s);
    assert |r.value| == |data|;
    forall k | 0 <= k < |data|
      ensures r.value[k] == data[k]
    {
      ChunkValue(data, k, r.value[k]);
    }
    assert r.value == data;
  }

  /** A byte whose bits are those of chunk `k` of the spelled-out bytes is byte `k`. */
  lemma ChunkValue(data: seq<byte>, k: nat, v: byte)
    requires k < |data|
    requires Bits(v) == DigitValues(BytesToBinary(data)[8 * k..8 * k + 8])
    ensures v == data[k]
  {
    BinaryChunk(data, k);
    SpellingDigits(data[k]);
    BitsInjective(v, data[k]);
  }

  /** The characters of `format(b, '08b')` stand for the bits of `b`. */
  lemma SpellingDigits(b: byte)
    ensures DigitValues(BinaryString(b)) == Bits(b)
  {
    var d := DigitValues(BinaryString(b));
    forall i | 0 <= i < 8
      ensures d[i] == Bits(b)[i]
    {
      assert Bits(b)[i] < 2;
    }
  }

  /** Chunk `k` of the spelled-out bytes is the spelling of byte `k`. */
  lemma {:induction false} BinaryChunk(data: seq<byte>, k: nat)
    requires k < |data|
    ensures BytesToBinary(data)[8 * k..8 * k + 8] == BinaryString(data[k])
  {
    if k > 0 {
      BinaryChunk(data[1..], k - 1);
      assert BytesToBinary(data)[8..] == BytesToBinary(data[1..]);
    }
  }

  // ---------------------------------------------------------------------
  // The two directions

  /** `compress_with_zlib_and_encode` on the file contents: compress, spell
      out in bits, read back as bytes, XOR with as many digits of pi. `None`
      where the source reports an error: the digit generator refuses an
      empty input. */
  function CompressAndEncode(c: Compression.Compressor, source: nat -> seq<digit>, data: seq<byte>)
    : (r: Option<seq<byte>>)
    ensures r.None? <==> |c.compress(data)| == 0
  {
    var compressed := c.compress(data);
    BinaryRoundTrip(compressed);
    var values := BinaryToBase256(BytesToBinary(compressed)).value;
    match PiDigits(source, |values|)
    case None => None
    case Some(digits) => Some(EncodeWithPi(values, digits))
  }

  /** `decode_with_zlib_and_pi` on the file contents: XOR with as many digits
      of pi, spell out in bits, read back, decompress. `None` where the
      source reports an error: an empty input, or data the decompressor
      rejects. */
  function DecodeAndDecompress(c: Compression.Compressor, source: nat -> seq<digit>, encoded: seq<byte>)
    : (r: Option<seq<byte>>)
    ensures |encoded| == 0 ==> r.None?
  {
    match PiDigits(source, |encoded|)
    case None => None
    case Some(digits) =>
      var decoded := EncodeWithPi(encoded, digits);
      BinaryRoundTrip(decoded);
      var values := BinaryToBase256(BytesToBinary(decoded)).value;
      c.decompress(values)
  }

  /** With a lossless compressor and a digit source that gives enough
      digits, decoding an encoded file gives back the original contents. */
  lemma RoundTrip(c: Compression.Compressor, source: nat -> seq<digit>, data: seq<byte>)
    requires Compression.Lossless(c) && LongEnough(source)
    requires |c.compress(data)| > 0
    ensures CompressAndEncode(c, source, data).Some?
    ensures DecodeAndDecompress(c, source, CompressAndEncode(c, source, data).value) == Some(data)
  {
    var compressed := c.compress(data);
    BinaryRoundTrip(compressed);
    var digits := source(|compressed|);
    var encoded := EncodeWithPi(compressed, digits);
    assert CompressAndEncode(c, source, data) == Some(encoded);
    assert |encoded| == |compressed|;
    EncodeTwice(compressed, digits);
    BinaryRoundTrip(EncodeWithPi(encoded, digits));
  }
}
