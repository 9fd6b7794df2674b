/** The ROM's hex encoding read by src/main.cpp: `hexLookup` and
    `decodeHex`. The line is taken as its bytes (a `std::string` holds
    `char`s that `hexLookup` reads as `unsigned char`). Reading the line,
    the alarm and `main` itself are not part of this model. */
module HexInput {
  import opened Types

  /** The ASCII codes of the digits. */
  const DIGIT_ZERO: Byte := 0x30
  const LOWER_A: Byte := 0x61
  const UPPER_A: Byte := 0x41

  /** The lower-case hex digit for `n`. */
  function LowerHex(n: Nibble): Byte
  {
    if n < 10 then DIGIT_ZERO + n else LOWER_A + (n - 10)
  }

  /** The upper-case hex digit for `n`. */
  function UpperHex(n: Nibble): Byte
  {
    if n < 10 then DIGIT_ZERO + n else UPPER_A + (n - 10)
  }

  /** `hexLookup`: the 256-entry table holds the digit values of '0'..'9',
      'A'..'F' and 'a'..'f' and -1 elsewhere; -1 throws. The result is the
      value of a digit in either case, and only a digit is accepted. */
  function HexLookup(c: Byte): (r: Result<Nibble>)
    ensures r.Ok? ==> c == LowerHex(r.value) || c == UpperHex(r.value)
    ensures r.Err? ==> r.fault == InvalidHexDigit
    ensures r.Err? ==> forall n: Nibble :: c != LowerHex(n) && c != UpperHex(n)
  {
    if 0x30 <= c <= 0x39 then Ok(c - 0x30)
    else if 0x41 <= c <= 0x46 then Ok(c - 0x41 + 10)
    else if 0x61 <= c <= 0x66 then Ok(c - 0x61 + 10)
    else Err(InvalidHexDigit)
  }

  /** Both spellings of a digit look up to its value. */
  lemma HexLookupInverts(n: Nibble)
    ensures HexLookup(LowerHex(n)) == Ok(n)
    ensures HexLookup(UpperHex(n)) == Ok(n)
  {
  }

  /** The byte `hi << 4 | lo` that two digits stand for; `lo < 16`, so the
      `|` is an addition. */
  function Pair(hi: Nibble, lo: Nibble): (b: Byte)
    ensures b / 16 == hi && b % 16 == lo
  {
    hi * 16 + lo
  }

  /** The digit at `k` is not a hex digit. */
  predicate BadDigit(s: seq<Byte>, k: int)
    requires 0 <= k < |s|
  {
    HexLookup(s[k]).Err?
  }

  /** The loop of `decodeHex` over an even number of characters: two digits
      per byte, in order; it throws at the first character that is not a
      hex digit. */
  function DecodePairs(s: seq<Byte>): (r: Result<seq<Byte>>)
    requires |s| % 2 == 0
    ensures r.Err? ==> r.fault == InvalidHexDigit
    ensures r.Ok? ==> |r.value| == |s| / 2
    decreases |s|
  {
    if |s| == 0 then Ok([])
    else
      match (HexLookup(s[0]), HexLookup(s[1]))
      case (Err(f), _) => Err(f)
      case (_, Err(f)) => Err(f)
      case (Ok(hi), Ok(lo)) => Prepend([Pair(hi, lo)], DecodePairs(s[2..]))
  }

  /** Decoding fails exactly when some character is not a hex digit. */
  lemma {:induction false} DecodePairsFails(s: seq<Byte>)
    requires |s| % 2 == 0
    ensures DecodePairs(s).Err? <==> exists k :: 0 <= k < |s| && BadDigit(s, k)
    decreases |s|
  {
    if |s| > 0 {
      if BadDigit(s, 0) || BadDigit(s, 1) {
        assert DecodePairs(s).Err?;
      } else {
        DecodePairsFails(s[2..]);
        assert forall k :: 2 <= k < |s| ==> (BadDigit(s, k) <==> BadDigit(s[2..], k - 2));
        assert DecodePairs(s).Err? <==> DecodePairs(s[2..]).Err?;
        if DecodePairs(s[2..]).Err? {
          var k :| 0 <= k < |s[2..]| && BadDigit(s[2..], k);
          assert BadDigit(s, k + 2);
        }
      }
    }
  }

  /** Byte `i` of a successful decoding is the one spelled by characters
      `2i` and `2i + 1`, high digit first. */
  lemma {:induction false} DecodePairsBytes(s: seq<Byte>, i: nat)
    requires |s| % 2 == 0 && DecodePairs(s).Ok? && i < |s| / 2
    ensures HexLookup(s[2 * i]).Ok? && HexLookup(s[2 * i + 1]).Ok?
    ensures DecodePairs(s).value[i] == Pair(HexLookup(s[2 * i]).value, HexLookup(s[2 * i + 1]).value)
    decreases |s|
  {
    DecodePairsUnfolds(s);
    if i > 0 {
      DecodePairsBytes(s[2..], i - 1);
      assert s[2..][2 * (i - 1)] == s[2 * i] && s[2..][2 * (i - 1) + 1] == s[2 * i + 1];
    }
  }

  /** A decoding that succeeds is the byte of the first two digits followed
      by the decoding of the rest. */
  lemma DecodePairsUnfolds(s: seq<Byte>)
    requires |s| % 2 == 0 && |s| > 0 && DecodePairs(s).Ok?
    ensures HexLookup(s[0]).Ok? && HexLookup(s[1]).Ok? && DecodePairs(s[2..]).Ok?
    ensures DecodePairs(s).value
      == [Pair(HexLookup(s[0]).value, HexLookup(s[1]).value)] + DecodePairs(s[2..]).value
  {
  }

  /** `decodeHex`: an odd length throws before any digit is read. */
  function Decode(s: seq<Byte>): (r: Result<seq<Byte>>)
    ensures |s| % 2 == 1 ==> r == Err(OddHexLength)
    ensures |s| % 2 == 0 ==> r == DecodePairs(s)
  {
    if |s| % 2 == 1 then Err(OddHexLength) else DecodePairs(s)
  }

  /** Bytes spelled as two lower-case hex digits each, high digit first. */
  function EncodeHex(bytes: seq<Byte>): (s: seq<Byte>)
    ensures |s| == 2 * |bytes|
  {
    if |bytes| == 0 then []
    else [LowerHex(bytes[0] / 16), LowerHex(bytes[0] % 16)] + EncodeHex(bytes[1..])
  }

  /** Decoding undoes encoding, for every byte string. */
  lemma {:induction false} DecodeEncode(bytes: seq<Byte>)
    ensures Decode(EncodeHex(bytes)) == Ok(bytes)
  {
    if |bytes| > 0 {
      DecodeEncode(bytes[1..]);
      var s := EncodeHex(bytes);
      HexLookupInverts(bytes[0] / 16);
      HexLookupInverts(bytes[0] % 16);
      assert s[2..] == EncodeHex(bytes[1..]);
      assert bytes == [Pair(bytes[0] / 16, bytes[0] % 16)] + bytes[1..];
    }
  }

  /** A digit that is not upper case is the lower-case spelling of its
      value. */
  lemma LowerSpelling(c: Byte)
    requires HexLookup(c).Ok? && !(UPPER_A <= c <= UPPER_A + 5)
    ensures LowerHex(HexLookup(c).value) == c
  {
  }

  /** Encoding undoes a successful decoding of input without upper-case
      digits; upper-case digits decode to the same bytes as lower-case. */
  lemma {:induction false} EncodeDecode(s: seq<Byte>)
    requires Decode(s).Ok?
    requires forall k :: 0 <= k < |s| ==> !(UPPER_A <= s[k] <= UPPER_A + 5)
    ensures EncodeHex(Decode(s).value) == s
  {
    if |s| > 0 {
      DecodePairsUnfolds(s);
      var bytes := Decode(s).value;
      var rest := s[2..];
      assert forall k :: 0 <= k < |rest| ==> rest[k] == s[k + 2];
      EncodeDecode(rest);
      LowerSpelling(s[0]);
      LowerSpelling(s[1]);
      assert bytes[1..] == Decode(rest).value;
      assert EncodeHex(bytes) == [s[0], s[1]] + rest;
      assert [s[0], s[1]] + rest == s;
    }
  }

  /** `decodeHex`, proved to do what `Decode` says: the iterator takes two
      characters per turn and `push_back`s their byte. */
  method DecodeHex(hex: seq<Byte>) returns (r: Result<seq<Byte>>)
    ensures r == Decode(hex)
  {
    if |hex| % 2 == 1 {
      return Err(OddHexLength);
    }
    var output: seq<Byte> := [];
    var it := 0;
    assert hex[it..] == hex;
    assert Prepend([], DecodePairs(hex)) == DecodePairs(hex) by {
      if DecodePairs(hex).Ok? {
        assert [] + DecodePairs(hex).value == DecodePairs(hex).value;
      }
    }
    while it < |hex|
      invariant 0 <= it <= |hex| && it % 2 == 0
      invariant DecodePairs(hex) == Prepend(output, DecodePairs(hex[it..]))
      decreases |hex| - it
    {
      assert hex[it..][2..] == hex[it + 2..];
      var hi := HexLookup(hex[it]);
      if hi.Err? {
        return Err(hi.fault);
      }
      var lo := HexLookup(hex[it + 1]);
      if lo.Err? {
        return Err(lo.fault);
      }
      var b := Pair(hi.value, lo.value);
      PrependStep(output, b, DecodePairs(hex[it + 2..]));
      output := output + [b];
      it := it + 2;
    }
    assert hex[it..] == [];
    assert output + [] == output;
    return Ok(output);
  }

  lemma PrependStep(out: seq<Byte>, b: Byte, r: Result<seq<Byte>>)
    ensures Prepend(out, Prepend([b], r)) == Prepend(out + [b], r)
  {
    if r.Ok? {
      assert out + ([b] + r.value) == (out + [b]) + r.value;
    }
  }

  /** `out` followed by a decoding outcome. */
  function Prepend(out: seq<Byte>, r: Result<seq<Byte>>): (p: Result<seq<Byte>>)
    ensures p.Ok? <==> r.Ok?
    ensures p.Ok? ==> p.value == out + r.value
  {
    match r
    case Err(f) => Err(f)
    case Ok(rest) => Ok(out + rest)
  }
}
