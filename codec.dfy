/** The byte <-> big-integer codec: `load_text_to_gmp` reads a text file as
    one big-endian base-256 number, skipping line-end bytes, and
    `save_gmp_to_text` writes a number back out as its base-256 digits.
    File contents are byte sequences; GMP integers are `nat`. */
module Codec {
  import opened Arith

  /** An unsigned char. */
  type Byte = b: int | 0 <= b < 256

  const NUL: Byte := 0
  const LF: Byte := 10
  const CR: Byte := 13

  predicate IsLineEnd(b: Byte) {
    b == LF || b == CR
  }

  // ---------------------------------------------------------------------
  // Specification functions

  /** Big-endian base-256 value of a byte sequence. */
  function Value(s: seq<Byte>): (x: nat)
    ensures x < Pow256(|s|)
  {
    if |s| == 0 then 0
    else
      var hi := Value(s[..|s| - 1]);
      MulMonotone(hi + 1, Pow256(|s| - 1), 256);
      hi * 256 + s[|s| - 1]
  }

  /** The bytes of `s` in order, with every LF and CR removed. */
  function StripLineEnds(s: seq<Byte>): (t: seq<Byte>)
    ensures |t| <= |s|
    ensures forall i :: 0 <= i < |t| ==> !IsLineEnd(t[i]) && t[i] in s
  {
    if |s| == 0 then []
    else
      var t := StripLineEnds(s[..|s| - 1]);
      if IsLineEnd(s[|s| - 1]) then t else t + [s[|s| - 1]]
  }

  /** The accumulator of `load_text_to_gmp` after reading `s`: each byte that
      is not a line end shifts the value left by 8 bits and is added. */
  function Encode(s: seq<Byte>): (e: nat)
    ensures e < Pow256(|s|)
  {
    if |s| == 0 then 0
    else
      var acc := Encode(s[..|s| - 1]);
      var b := s[|s| - 1];
      MulMonotone(acc + 1, Pow256(|s| - 1), 256);
      if IsLineEnd(b) then acc else acc * 256 + b
  }

  /** `mpz_sizeinbase(x, 2)`: the number of binary digits of x; 1 for 0. */
  function BitLength(x: nat): (k: nat)
    ensures 1 <= k && x < Pow2(k)
    ensures 0 < x ==> Pow2(k - 1) <= x
  {
    if x < 2 then 1 else 1 + BitLength(x / 2)
  }

  /** The buffer size of `save_gmp_to_text`: bit length rounded up to bytes.
      At least one byte, and enough bytes to hold x. */
  function ByteCount(x: nat): (c: nat)
    ensures 1 <= c && x < Pow256(c)
  {
    var c := (BitLength(x) + 7) / 8;
    Pow2Monotone(BitLength(x), 8 * c);
    Pow2OfBytes(c);
    c
  }

  /** The k lowest base-256 digits of x, most significant first. */
  function ToBytes(x: nat, k: nat): (s: seq<Byte>)
    ensures |s| == k
  {
    if k == 0 then [] else ToBytes(x / 256, k - 1) + [x % 256]
  }

  /** The buffer `save_gmp_to_text` fills for x (without its terminator). */
  function Decode(x: nat): (d: seq<Byte>)
    ensures |d| == ByteCount(x) && Value(d) == x
  {
    ValueOfToBytes(x, ByteCount(x));
    ToBytes(x, ByteCount(x))
  }

  /** What `fputs` writes of a buffer: everything before the first NUL. */
  function TakeUntilNul(s: seq<Byte>): (t: seq<Byte>)
    ensures |t| <= |s| && t == s[..|t|]
    ensures NUL !in t
    ensures |t| < |s| ==> s[|t|] == NUL
  {
    if |s| == 0 || s[0] == NUL then [] else [s[0]] + TakeUntilNul(s[1..])
  }

  // ---------------------------------------------------------------------
  // The two loops

  /** The conversion loop of `load_text_to_gmp` over the whole file. */
  method LoadTextToGmp(text: seq<Byte>) returns (result: nat)
    requires NUL !in text
    ensures result == Encode(text)
    ensures result == Value(StripLineEnds(text))
  {
    result := 0;
    for i := 0 to |text|
      invariant result == Encode(text[..i])
    {
      assert text[..i + 1][..i] == text[..i];
      if text[i] == LF || text[i] == CR {
        continue;
      }
      result := result * 256 + text[i];
    }
    assert text[..|text|] == text;
    EncodeIsValueOfStripped(text);
  }

  /** `save_gmp_to_text`: size the buffer from the bit length, put the NUL
      terminator after it, fill it from the last cell down with `temp % 256`
      while dividing `temp` by 256, and write it with `fputs`. Returns the
      filled buffer and the bytes written. */
  method SaveGmpToText(x: nat) returns (buffer: seq<Byte>, written: seq<Byte>)
    ensures buffer == Decode(x) && Value(buffer) == x
    ensures |buffer| == ByteCount(x) && (0 < x ==> buffer[0] != NUL)
    ensures written == TakeUntilNul(buffer)
  {
    var totalBits := BitLength(x);
    var totalBytes := (totalBits + 7) / 8;
    var output := new Byte[totalBytes + 1];
    output[totalBytes] := NUL;
    assert totalBytes == ByteCount(x);
    FillBytes(x, output, totalBytes);
    buffer := output[..totalBytes];
    assert output[..] == buffer + [NUL];
    written := TakeUntilNul(output[..]);
    TakeUntilNulStops(buffer);
    if 0 < x {
      DecodeLeadingByte(x);
    }
  }

  /** The fill loop of `save_gmp_to_text`: from the last cell down to the
      first, store `temp % 256` and divide `temp` by 256. The cell after the
      n bytes keeps its NUL. */
  method FillBytes(x: nat, output: array<Byte>, n: nat)
    requires n < output.Length && x < Pow256(n)
    modifies output
    ensures output[..n] == ToBytes(x, n)
    ensures output[n..] == old(output[n..])
  {
    var temp: nat := x;
    var i: int := n - 1;
    while i >= 0
      invariant -1 <= i < n
      invariant output[n..] == old(output[n..])
      invariant temp < Pow256(i + 1)
      invariant ToBytes(temp, i + 1) + output[i + 1..n] == ToBytes(x, n)
    {
      DivBelowPow256(temp, i);
      assert ToBytes(temp, i + 1) == ToBytes(temp / 256, i) + [temp % 256];
      output[i] := temp % 256;
      temp := temp / 256;
      i := i - 1;
    }
    assert output[0..n] == output[..n];
  }

  // ---------------------------------------------------------------------
  // Encoding

  /** The fold is the base-256 value of the text with its line ends removed. */
  lemma {:induction false} EncodeIsValueOfStripped(s: seq<Byte>)
    ensures Encode(s) == Value(StripLineEnds(s))
  {
    if |s| > 0 {
      var s' := s[..|s| - 1];
      EncodeIsValueOfStripped(s');
      var t := StripLineEnds(s');
      if !IsLineEnd(s[|s| - 1]) {
        assert (t + [s[|s| - 1]])[..|t|] == t;
      }
    }
  }

  /** Text without line ends is left alone by the filter. */
  lemma {:induction false} StripLineEndsKeeps(s: seq<Byte>)
    requires forall i :: 0 <= i < |s| ==> !IsLineEnd(s[i])
    ensures StripLineEnds(s) == s
  {
    if |s| > 0 {
      StripLineEndsKeeps(s[..|s| - 1]);
      assert s[..|s| - 1] + [s[|s| - 1]] == s;
    }
  }

  /** The empty file gives 0. */
  lemma EncodeEmpty()
    ensures Encode([]) == 0
  {
  }

  /** "ABC" is 0x414243. */
  lemma EncodeABC()
    ensures Encode([65, 66, 67]) == 0x414243 == 4276803
  {
    assert [65, 66, 67][..2] == [65, 66];
    assert [65, 66][..1] == [65];
    assert [65][..0] == [];
  }

  /** "A\nB" and "AB" both give 0x4142: the line feed is skipped. */
  lemma EncodeSkipsLineFeed()
    ensures Encode([65, 10, 66]) == Encode([65, 66]) == 0x4142
  {
    assert [65, 10, 66][..2] == [65, 10];
    assert [65, 10][..1] == [65];
    assert [65, 66][..1] == [65];
    assert [65][..0] == [];
  }

  // ---------------------------------------------------------------------
  // Decoding

  /** Peeling the most significant byte. */
  lemma {:induction false} ValueLeading(s: seq<Byte>)
    requires 0 < |s|
    ensures Value(s) == s[0] * Pow256(|s| - 1) + Value(s[1..])
  {
    var n := |s|;
    if n > 1 {
      var s' := s[..n - 1];
      var tail := s[1..];
      ValueLeading(s');
      var a, p, v := s[0], Pow256(n - 2), Value(s'[1..]);
      assert Value(tail) == v * 256 + s[n - 1] by {
        assert tail[..n - 2] == s'[1..];
      }
      assert Value(s) == (a * p + v) * 256 + s[n - 1] by {
        assert s[..n - 1] == s';
      }
      ShiftDigit(a, p, v);
    }
  }

  /** Shifting `a * p + v` one byte left. */
  lemma ShiftDigit(a: nat, p: nat, v: nat)
    ensures (a * p + v) * 256 == a * (256 * p) + v * 256
  {
  }

  /** A leading nonzero byte makes the value at least 256^(|s|-1). */
  lemma LeadingByteBound(s: seq<Byte>)
    requires 0 < |s| && s[0] != NUL
    ensures Pow256(|s| - 1) <= Value(s)
  {
    ValueLeading(s);
    MulMonotone(1, s[0], Pow256(|s| - 1));
  }

  /** The k low digits of x spell x back when x fits in k bytes. */
  lemma {:induction false} ValueOfToBytes(x: nat, k: nat)
    requires x < Pow256(k)
    ensures Value(ToBytes(x, k)) == x
  {
    if k > 0 {
      DivBelowPow256(x, k - 1);
      ValueOfToBytes(x / 256, k - 1);
      var s := ToBytes(x, k);
      assert s[..k - 1] == ToBytes(x / 256, k - 1);
    }
  }

  /** Digits are determined by the value: ToBytes inverts Value. */
  lemma {:induction false} ToBytesOfValue(s: seq<Byte>)
    ensures ToBytes(Value(s), |s|) == s
  {
    var n := |s|;
    if n > 0 {
      var s' := s[..n - 1];
      ToBytesOfValue(s');
      DivModUnique(Value(s), 256, Value(s'), s[n - 1]);
      assert s' + [s[n - 1]] == s;
    }
  }

  /** For x > 0, one byte fewer than ByteCount(x) would not hold x. */
  lemma ByteCountMinimal(x: nat)
    ensures 0 < x ==> Pow256(ByteCount(x) - 1) <= x
  {
    var k, b := BitLength(x), ByteCount(x);
    if 0 < x {
      Pow2Monotone(8 * (b - 1), k - 1);
      Pow2OfBytes(b - 1);
    }
  }

  /** A value that needs exactly k bytes has byte count k. */
  lemma ByteCountExact(x: nat, k: nat)
    requires 1 <= k && Pow256(k - 1) <= x < Pow256(k)
    ensures ByteCount(x) == k
  {
    ByteCountMinimal(x);
    var b := ByteCount(x);
    if b < k {
      Pow256Monotone(b, k - 1);
    } else if k < b {
      Pow256Monotone(k, b - 1);
    }
  }

  /** The first byte of the buffer is nonzero for a positive value. */
  lemma DecodeLeadingByte(x: nat)
    requires 0 < x
    ensures Decode(x)[0] != NUL
  {
    var s := Decode(x);
    ByteCountMinimal(x);
    if s[0] == NUL {
      ValueLeading(s);
    }
  }

  /** 0 fills a single 0x00 byte, and `fputs` writes nothing of it. */
  lemma DecodeZero()
    ensures Decode(0) == [NUL] && TakeUntilNul(Decode(0)) == []
  {
    assert ToBytes(0, 1) == ToBytes(0, 0) + [0];
  }

  /** The terminator after the buffer does not change what `fputs` writes. */
  lemma {:induction false} TakeUntilNulStops(s: seq<Byte>)
    ensures TakeUntilNul(s + [NUL]) == TakeUntilNul(s)
  {
    if |s| > 0 && s[0] != NUL {
      TakeUntilNulStops(s[1..]);
      assert (s + [NUL])[1..] == s[1..] + [NUL];
    }
  }

  /** Text free of NUL is written out in full. */
  lemma TakeUntilNulKeeps(s: seq<Byte>)
    requires NUL !in s
    ensures TakeUntilNul(s) == s
  {
  }

  // ---------------------------------------------------------------------
  // Round trip

  /** Text with no NUL, LF or CR survives load then save; the empty text
      comes back empty through the single 0x00 byte of `DecodeZero`. */
  lemma RoundTrip(text: seq<Byte>)
    requires NUL !in text
    requires forall i :: 0 <= i < |text| ==> !IsLineEnd(text[i])
    ensures TakeUntilNul(Decode(Encode(text))) == text
  {
    if |text| == 0 {
      DecodeZero();
    } else {
      EncodeIsValueOfStripped(text);
      StripLineEndsKeeps(text);
      var x := Value(text);
      LeadingByteBound(text);
      ByteCountExact(x, |text|);
      ToBytesOfValue(text);
      TakeUntilNulKeeps(text);
    }
  }
}
