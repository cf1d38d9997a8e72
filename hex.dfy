/**
 * Lower-case base16 (section 8 of RFC 4648) as the `hex` crate provides it: `encode` writes
 * lower-case digits, `decode_to_slice` checks the length, then decodes digit pairs left to
 * right accepting either case. Also the lexicographic byte order that `#[derive(Ord)]` gives
 * fixed-size byte arrays.
 */
module Hex {
  import opened Results
  import opened Text

  const LowerDigits: string := "0123456789abcdef"

  predicate IsHexChar(c: char) {
    ('0' <= c <= '9') || ('a' <= c <= 'f') || ('A' <= c <= 'F')
  }

  predicate AllHex(s: string) {
    forall i :: 0 <= i < |s| ==> IsHexChar(s[i])
  }

  /** The value of one hex digit; the digit it encodes back to is its lower-case form. */
  function HexVal(c: char): (v: nat)
    requires IsHexChar(c)
    ensures v < 16
    ensures LowerDigits[v] == LowerChar(c)
  {
    if '0' <= c <= '9' then c as int - '0' as int
    else if 'a' <= c <= 'f' then c as int - 'a' as int + 10
    else c as int - 'A' as int + 10
  }

  lemma DigitValue(v: nat)
    requires v < 16
    ensures IsHexChar(LowerDigits[v]) && HexVal(LowerDigits[v]) == v
  {
  }

  /** `hex::encode`: two lower-case digits per byte, high nibble first. */
  function Encode(bs: seq<byte>): (s: string)
    ensures |s| == 2 * |bs|
  {
    if bs == [] then [] else [LowerDigits[bs[0] / 16], LowerDigits[bs[0] % 16]] + Encode(bs[1..])
  }

  datatype HexError = OddLength | InvalidStringLength | InvalidHexCharacter(c: char, index: nat)

  /** `hex::decode_to_slice(s, out)` with `out` of length `n`, returning what lands in `out`. */
  function Decode(s: string, n: nat): (r: Result<seq<byte>, HexError>)
    ensures r.Ok? ==> |s| == 2 * n && |r.value| == n
  {
    if |s| % 2 != 0 then Err(OddLength)
    else if |s| / 2 != n then Err(InvalidStringLength)
    else DecodePairs(s, 0)
  }

  /**
   * The pair loop of `decode_to_slice`, from digit index `offset` on. `Decode` has checked the
   * length, so a lone last digit never reaches it.
   */
  function DecodePairs(s: string, offset: nat): (r: Result<seq<byte>, HexError>)
    ensures r.Ok? ==> 2 * |r.value| == |s|
  {
    if s == [] then Ok([])
    else if |s| == 1 then Err(OddLength)
    else if !IsHexChar(s[0]) then Err(InvalidHexCharacter(s[0], offset))
    else if !IsHexChar(s[1]) then Err(InvalidHexCharacter(s[1], offset + 1))
    else match DecodePairs(s[2..], offset + 2)
      case Err(e) => Err(e)
      case Ok(rest) => Ok([HexVal(s[0]) * 16 + HexVal(s[1])] + rest)
  }

  /** Decoding succeeds exactly on `2 * n` hex digits. */
  lemma {:induction false} DecodeSucceeds(s: string, n: nat)
    ensures Decode(s, n).Ok? <==> |s| == 2 * n && AllHex(s)
  {
    if |s| % 2 == 0 {
      PairsSucceed(s, 0);
    }
  }

  lemma {:induction false} PairsSucceed(s: string, offset: nat)
    requires |s| % 2 == 0
    ensures DecodePairs(s, offset).Ok? <==> AllHex(s)
    decreases |s|
  {
    if s != [] {
      PairsSucceed(s[2..], offset + 2);
      if AllHex(s[2..]) && IsHexChar(s[0]) && IsHexChar(s[1]) {
        forall i | 0 <= i < |s| ensures IsHexChar(s[i]) {
          if i >= 2 { assert s[i] == s[2..][i - 2]; }
        }
      }
      if AllHex(s) {
        assert forall i :: 0 <= i < |s[2..]| ==> s[2..][i] == s[i + 2];
      }
    }
  }

  /** Decoding what `Encode` wrote gives the bytes back. */
  lemma {:induction false} DecodeEncode(bs: seq<byte>)
    ensures Decode(Encode(bs), |bs|) == Ok(bs)
  {
    PairsEncode(bs, 0);
  }

  lemma {:induction false} PairsEncode(bs: seq<byte>, offset: nat)
    ensures DecodePairs(Encode(bs), offset) == Ok(bs)
    decreases |bs|
  {
    if bs != [] {
      PairsEncode(bs[1..], offset + 2);
      PairsCons(bs, offset);
    }
  }

  /** Decoding the encoding of the first byte, given that the rest decodes back. */
  lemma PairsCons(bs: seq<byte>, offset: nat)
    requires bs != [] && DecodePairs(Encode(bs[1..]), offset + 2) == Ok(bs[1..])
    ensures DecodePairs(Encode(bs), offset) == Ok(bs)
  {
    var b, rest, s := bs[0], bs[1..], Encode(bs);
    EncodeHead(bs);
    PairsStep(s, offset, b, rest);
    assert [b] + rest == bs;
  }

  lemma EncodeHead(bs: seq<byte>)
    requires bs != []
    ensures Encode(bs)[0] == LowerDigits[bs[0] / 16] && Encode(bs)[1] == LowerDigits[bs[0] % 16]
    ensures Encode(bs)[2..] == Encode(bs[1..])
  {
  }

  /** Decoding the two digits of `b`, then the rest. */
  lemma PairsStep(s: string, offset: nat, b: byte, v: seq<byte>)
    requires |s| >= 2 && s[0] == LowerDigits[b / 16] && s[1] == LowerDigits[b % 16]
    requires DecodePairs(s[2..], offset + 2) == Ok(v)
    ensures DecodePairs(s, offset) == Ok([b] + v)
  {
    HeadPair(b);
    assert IsHexChar(s[0]) && IsHexChar(s[1]);
    assert HexVal(s[0]) * 16 + HexVal(s[1]) == b;
  }

  /** The two digits `Encode` writes for one byte decode back to it. */
  lemma HeadPair(b: byte)
    ensures IsHexChar(LowerDigits[b / 16]) && IsHexChar(LowerDigits[b % 16])
    ensures HexVal(LowerDigits[b / 16]) * 16 + HexVal(LowerDigits[b % 16]) == b
  {
    DigitValue(b / 16);
    DigitValue(b % 16);
    NibblesJoin(b);
  }

  /** Encoding what `Decode` produced gives the input, lower-cased. */
  lemma {:induction false} EncodeDecode(s: string, n: nat)
    requires Decode(s, n).Ok?
    ensures Encode(Decode(s, n).value) == Lower(s)
  {
    PairsLower(s, 0);
  }

  lemma {:induction false} PairsLower(s: string, offset: nat)
    requires DecodePairs(s, offset).Ok?
    ensures Encode(DecodePairs(s, offset).value) == Lower(s)
    decreases |s|
  {
    if s != [] {
      var v0, v1 := HexVal(s[0]), HexVal(s[1]);
      NibblesSplit(v0, v1);
      var b: byte := v0 * 16 + v1;
      var rest := DecodePairs(s[2..], offset + 2).value;
      PairsLower(s[2..], offset + 2);
      var bs := DecodePairs(s, offset).value;
      assert bs == [b] + rest;
      assert bs[1..] == rest;
      calc {
        Encode(bs);
        [LowerDigits[b / 16], LowerDigits[b % 16]] + Encode(rest);
        [LowerChar(s[0]), LowerChar(s[1])] + Lower(s[2..]);
        { assert Lower(s) == [LowerChar(s[0]), LowerChar(s[1])] + Lower(s[2..]); }
        Lower(s);
      }
    }
  }

  lemma NibblesJoin(b: byte)
    ensures (b / 16) * 16 + b % 16 == b
  {
  }

  lemma NibblesSplit(hi: nat, lo: nat)
    requires hi < 16 && lo < 16
    ensures (hi * 16 + lo) / 16 == hi && (hi * 16 + lo) % 16 == lo
  {
  }

  lemma {:induction false} EncodeAppend(a: seq<byte>, b: seq<byte>)
    ensures Encode(a + b) == Encode(a) + Encode(b)
  {
    if a != [] {
      assert (a + b)[1..] == a[1..] + b;
      EncodeAppend(a[1..], b);
    } else {
      assert a + b == b;
    }
  }

  /** Digit `2i` of the encoding is byte `i`'s high nibble, digit `2i + 1` its low nibble. */
  lemma {:induction false} EncodeAt(bs: seq<byte>, i: nat)
    requires i < |bs|
    ensures Encode(bs)[2 * i] == LowerDigits[bs[i] / 16]
    ensures Encode(bs)[2 * i + 1] == LowerDigits[bs[i] % 16]
  {
    if i > 0 {
      EncodeAt(bs[1..], i - 1);
    }
  }

  /** The encoding consists of hex digits and is already lower-case. */
  lemma EncodeIsLowerHex(bs: seq<byte>)
    ensures AllHex(Encode(bs)) && Lower(Encode(bs)) == Encode(bs)
  {
    DecodeEncode(bs);
    DecodeSucceeds(Encode(bs), |bs|);
    EncodeDecode(Encode(bs), |bs|);
  }

  /** `Encode` is injective. */
  lemma EncodeInjective(a: seq<byte>, b: seq<byte>)
    requires Encode(a) == Encode(b)
    ensures a == b
  {
    DecodeEncode(a);
    DecodeEncode(b);
  }

  // ---------------------------------------------------------------------------------------
  // Lexicographic order of equal-length byte strings (`Ord` derived on `[u8; N]`).

  predicate LexLe(a: seq<byte>, b: seq<byte>)
    requires |a| == |b|
  {
    a == [] || a[0] < b[0] || (a[0] == b[0] && LexLe(a[1..], b[1..]))
  }

  /** `LexLe` is a total order. */
  lemma {:induction false} LexLeTotalOrder(a: seq<byte>, b: seq<byte>, c: seq<byte>)
    requires |a| == |b| == |c|
    ensures LexLe(a, a)
    ensures LexLe(a, b) || LexLe(b, a)
    ensures LexLe(a, b) && LexLe(b, a) ==> a == b
    ensures LexLe(a, b) && LexLe(b, c) ==> LexLe(a, c)
  {
    if a != [] {
      LexLeTotalOrder(a[1..], b[1..], c[1..]);
      if LexLe(a, b) && LexLe(b, a) {
        assert a == [a[0]] + a[1..] && b == [b[0]] + b[1..];
      }
    }
  }

  /** `[u8; 32]` and `[u8; 16]`. */
  type Bytes32 = s: seq<byte> | |s| == 32 witness Fill(0, 32)
  type Bytes16 = s: seq<byte> | |s| == 16 witness Fill(0, 16)

  /** `p` padded to 32 bytes with copies of `v`: a bound of the range of keys starting with `p`. */
  function Pad(p: seq<byte>, v: byte): Bytes32
    requires |p| <= 32
  {
    p + Fill(v, 32 - |p|)
  }

  /** Setting the last byte of `p` in its padding to `a` pads `p` with `a` in its place. */
  lemma PadLast(p: seq<byte>, a: byte, v: byte)
    requires 0 < |p| <= 32
    ensures Pad(p, v)[|p| - 1 := a] == Pad(p[..|p| - 1] + [a], v)
  {
    var q := p[..|p| - 1];
    PadAfter(q, a, v);
    assert p == q + [p[|p| - 1]];
    PadAfter(q, p[|p| - 1], v);
  }

  /** 32 bytes that start with `p` and hold `v` after it are `p` padded with `v`. */
  lemma PadShape(t: seq<byte>, p: seq<byte>, v: byte)
    requires |t| == 32 && |p| <= 32
    requires forall j :: 0 <= j < |p| ==> t[j] == p[j]
    requires forall j :: |p| <= j < 32 ==> t[j] == v
    ensures t == Pad(p, v)
  {
    FillAt(v, 32 - |p|);
  }

  lemma {:induction false} FillAt(v: byte, m: nat)
    ensures forall i :: 0 <= i < m ==> Fill(v, m)[i] == v
  {
    if m > 0 {
      FillAt(v, m - 1);
      assert forall i :: 1 <= i < m ==> Fill(v, m)[i] == Fill(v, m - 1)[i - 1];
    }
  }

  /** Padding after one more byte `a` leaves `31 - |q|` copies of `v`. */
  lemma PadAfter(q: seq<byte>, a: byte, v: byte)
    requires |q| < 32
    ensures Pad(q + [a], v) == q + [a] + Fill(v, 31 - |q|)
  {
    var m := 32 - |q + [a]|;
    assert m == 31 - |q|;
  }

  /** A non-empty byte string is its front followed by its last byte. */
  lemma SplitLast(p: seq<byte>)
    requires p != []
    ensures p == p[..|p| - 1] + [p[|p| - 1]]
  {
  }

  /** `p ‖ 00…` lies below `p ‖ ff…`. */
  lemma PrefixOrdered(p: seq<byte>)
    requires |p| <= 32
    ensures LexLe(Pad(p, 0), Pad(p, 255))
  {
    PrefixBand(p, Pad(p, 0));
    assert Pad(p, 0)[..|p|] == p;
  }

  /** The bottom of a nibble band lies below its top. */
  lemma PadOrdered(q: seq<byte>, a: byte, b: byte)
    requires |q| < 32 && a <= b
    ensures LexLe(Pad(q + [a], 0), Pad(q + [b], 255))
  {
    PadAfter(q, a, 0);
    PadAfter(q, b, 255);
    BandOrdered(q, a, b, 31 - |q|);
  }

  /** `m` copies of the byte `v`. */
  function Fill(v: byte, m: nat): (r: seq<byte>)
    ensures |r| == m
  {
    if m == 0 then [] else [v] + Fill(v, m - 1)
  }

  lemma {:induction false} FillBounds(m: nat, k: seq<byte>)
    requires |k| == m
    ensures LexLe(Fill(0, m), k) && LexLe(k, Fill(255, m))
  {
    if m > 0 {
      assert Fill(0, m)[1..] == Fill(0, m - 1);
      assert Fill(255, m)[1..] == Fill(255, m - 1);
      FillBounds(m - 1, k[1..]);
    }
  }

  /**
   * The keys between `p ‖ a ‖ 00…` and `p ‖ b ‖ ff…` are exactly those that start with `p`
   * and whose next byte lies in `[a, b]`.
   */
  lemma {:induction false} BandRange(p: seq<byte>, a: byte, b: byte, m: nat, k: seq<byte>)
    requires |k| == |p| + 1 + m
    ensures LexLe(p + [a] + Fill(0, m), k) && LexLe(k, p + [b] + Fill(255, m))
        <==> k[..|p|] == p && a <= k[|p|] <= b
  {
    var lo, hi := p + [a] + Fill(0, m), p + [b] + Fill(255, m);
    if p == [] {
      assert lo == [a] + Fill(0, m) && hi == [b] + Fill(255, m);
      assert lo[1..] == Fill(0, m) && hi[1..] == Fill(255, m);
      FillBounds(m, k[1..]);
    } else {
      assert lo[1..] == p[1..] + [a] + Fill(0, m);
      assert hi[1..] == p[1..] + [b] + Fill(255, m);
      BandRange(p[1..], a, b, m, k[1..]);
      assert k[1..][..|p| - 1] == k[1..|p|];
      assert k[..|p|] == [k[0]] + k[1..|p|];
      assert p == [p[0]] + p[1..];
    }
  }

  /** The bottom of a band lies below its top. */
  lemma BandOrdered(p: seq<byte>, a: byte, b: byte, m: nat)
    requires a <= b
    ensures LexLe(p + [a] + Fill(0, m), p + [b] + Fill(255, m))
  {
    var lo := p + [a] + Fill(0, m);
    BandRange(p, a, b, m, lo);
    assert lo[..|p|] == p && lo[|p|] == a;
  }

  /** The first `2n` digits of an encoding encode the first `n` bytes. */
  lemma EncodePrefix(k: seq<byte>, n: nat)
    requires n <= |k|
    ensures Encode(k)[..2 * n] == Encode(k[..n])
  {
    var a, b := k[..n], k[n..];
    assert k == a + b;
    EncodeAppend(a, b);
    assert (Encode(a) + Encode(b))[..2 * n] == Encode(a);
  }

  /** A byte prefix is matched exactly when its encoding prefixes the key's encoding. */
  lemma BytePrefixDigits(k: seq<byte>, p: seq<byte>)
    requires |p| <= |k|
    ensures k[..|p|] == p <==> Encode(k)[..2 * |p|] == Encode(p)
  {
    EncodePrefix(k, |p|);
    if Encode(k[..|p|]) == Encode(p) {
      EncodeInjective(k[..|p|], p);
    }
  }

  /** The keys between `p ‖ 00…` and `p ‖ ff…` (same length) are exactly those starting with `p`. */
  lemma {:induction false} PrefixBand(p: seq<byte>, k: seq<byte>)
    requires |p| <= |k|
    ensures LexLe(p + Fill(0, |k| - |p|), k) && LexLe(k, p + Fill(255, |k| - |p|)) <==> k[..|p|] == p
  {
    var m := |k| - |p|;
    var lo, hi := p + Fill(0, m), p + Fill(255, m);
    if p == [] {
      assert lo == Fill(0, m) && hi == Fill(255, m);
      FillBounds(m, k);
    } else {
      assert lo[1..] == p[1..] + Fill(0, m);
      assert hi[1..] == p[1..] + Fill(255, m);
      PrefixBand(p[1..], k[1..]);
      assert k[1..][..|p| - 1] == k[1..|p|];
      assert k[..|p|] == [k[0]] + k[1..|p|];
      assert p == [p[0]] + p[1..];
    }
  }

  /**
   * The digits of `q` and one more digit `d` start an encoding exactly when the bytes start with
   * `q` and the next byte's high nibble is `d`.
   */
  lemma NibblePrefix(k: seq<byte>, q: seq<byte>, d: nat)
    requires |q| < |k| && d < 16
    ensures Encode(k)[..2 * |q| + 1] == Encode(q) + [LowerDigits[d]] <==> k[..|q|] == q && k[|q|] / 16 == d
  {
    var n := |q|;
    var e := Encode(k);
    assert e[..2 * n + 1] == e[..2 * n] + [e[2 * n]];
    SnocEqual(e[..2 * n], e[2 * n], Encode(q), LowerDigits[d]);
    EncodePrefix(k, n);
    BytePrefixDigits(k, q);
    EncodeAt(k, n);
    var v := k[n];
    assert e[2 * n] == LowerDigits[v / 16];
    if LowerDigits[v / 16] == LowerDigits[d] {
      DigitsDistinct(v / 16, d);
    }
  }

  lemma SnocEqual(a: string, x: char, b: string, y: char)
    requires |a| == |b|
    ensures a + [x] == b + [y] <==> a == b && x == y
  {
    if a + [x] == b + [y] {
      assert a == (a + [x])[..|a|] && b == (b + [y])[..|b|];
      assert x == (a + [x])[|a|] && y == (b + [y])[|b|];
    }
  }

  /** Different digit values have different digits. */
  lemma DigitsDistinct(u: nat, v: nat)
    requires u < 16 && v < 16 && LowerDigits[u] == LowerDigits[v]
    ensures u == v
  {
    DigitValue(u);
    DigitValue(v);
  }
}
