/** Geohash text: five bits of a cell to a character of the base-32 alphabet. */
module Geohash {
  import opened Wrappers
  import opened Text
  import opened GeohashCells

  const BASE32 := "0123456789bcdefghjkmnpqrstuvwxyz"

  // ----- Characters and bits -----

  /** The value of bit `i` of a character, most significant first: `1 << (4 - i)`. */
  function BitWeight(i: nat): nat
    requires i < 5
  {
    [16, 8, 4, 2, 1][i]
  }

  /** The bits collected so far, as the character value built up by the encoder. */
  function Value(bits: seq<bool>): (v: nat)
    requires |bits| <= 5
    ensures v <= 32 - [32, 16, 8, 4, 2, 1][|bits|]
  {
    if bits == [] then 0
    else var n := |bits| - 1; Value(bits[..n]) + (if bits[n] then BitWeight(n) else 0)
  }

  predicate BitOf(v: nat, i: nat)
    requires i < 5
  {
    v / BitWeight(i) % 2 == 1
  }

  function Five(v: nat): (bits: seq<bool>)
    ensures |bits| == 5
  {
    [BitOf(v, 0), BitOf(v, 1), BitOf(v, 2), BitOf(v, 3), BitOf(v, 4)]
  }

  lemma ValueStep(b: seq<bool>, n: nat)
    requires n < |b| <= 5
    ensures Value(b[..n + 1]) == Value(b[..n]) + (if b[n] then BitWeight(n) else 0)
  {
    assert b[..n + 1][..n] == b[..n];
  }

  lemma ValueSum(b: seq<bool>)
    requires |b| == 5
    ensures Value(b) == (if b[0] then 16 else 0) + (if b[1] then 8 else 0) + (if b[2] then 4 else 0)
                      + (if b[3] then 2 else 0) + (if b[4] then 1 else 0)
  {
    hide Value;
    ValueStep(b, 0);
    ValueStep(b, 1);
    ValueStep(b, 2);
    ValueStep(b, 3);
    ValueStep(b, 4);
    assert b[..5] == b && b[..0] == [];
    NoValue();
  }

  lemma NoValue()
    ensures Value([]) == 0
  {
  }

  lemma FiveValue(v: nat)
    requires v < 32
    ensures Value(Five(v)) == v
  {
    hide Value;
    ValueSum(Five(v));
  }

  lemma ValueFive(b: seq<bool>)
    requires |b| == 5
    ensures Five(Value(b)) == b
  {
    hide Value;
    ValueSum(b);
    var v := Value(b);
    assert v / 16 == if b[0] then 1 else 0;
    assert v / 8 == 2 * (v / 16) + if b[1] then 1 else 0;
    assert v / 4 == 2 * (v / 8) + if b[2] then 1 else 0;
    assert v / 2 == 2 * (v / 4) + if b[3] then 1 else 0;
  }

  lemma {:induction false} AlphabetAscends(i: nat, j: nat)
    requires i < j < 32
    ensures BASE32[i] < BASE32[j]
    decreases j
  {
    if i < j - 1 {
      AlphabetAscends(i, j - 1);
    }
    assert BASE32[j - 1] < BASE32[j];
  }

  function Letter(v: nat): char
    requires v < 32
  {
    BASE32[v]
  }

  predicate IsLetter(c: char) {
    c in BASE32
  }

  /** `strings.IndexRune(base32, c)`. */
  function LetterValue(c: char): (v: nat)
    requires IsLetter(c)
    ensures v < 32 && Letter(v) == c
  {
    Index(BASE32, c)
  }

  lemma ValueOfLetter(v: nat)
    requires v < 32
    ensures IsLetter(Letter(v)) && LetterValue(Letter(v)) == v
  {
    forall i, j | 0 <= i < j < 32
      ensures BASE32[i] < BASE32[j]
    {
      AlphabetAscends(i, j);
    }
  }

  // ----- Text and bits -----

  predicate Letters(s: string) {
    forall i :: 0 <= i < |s| ==> IsLetter(s[i])
  }

  /** The text of the first `n` groups of five bits. */
  function HashText(bits: seq<bool>, n: nat): (s: string)
    requires 5 * n <= |bits|
    ensures |s| == n
  {
    if n == 0 then "" else HashText(bits, n - 1) + [Letter(Value(bits[5 * (n - 1)..5 * n]))]
  }

  /** The bits of the first `n` characters. */
  function TextBits(s: string, n: nat): (bits: seq<bool>)
    requires n <= |s| && Letters(s)
    ensures |bits| == 5 * n
  {
    if n == 0 then [] else TextBits(s, n - 1) + Five(LetterValue(s[n - 1]))
  }

  lemma {:induction false} HashTextLocal(a: seq<bool>, b: seq<bool>, n: nat)
    requires 5 * n <= |a| && a <= b
    ensures HashText(a, n) == HashText(b, n)
  {
    if n > 0 {
      HashTextLocal(a, b, n - 1);
      assert a[5 * (n - 1)..5 * n] == b[5 * (n - 1)..5 * n];
    }
  }

  lemma {:induction false} TextBitsLocal(s: string, t: string, n: nat)
    requires n <= |s| && s <= t && Letters(t) && Letters(s)
    ensures TextBits(s, n) == TextBits(t, n)
  {
    hide IsLetter, LetterValue, Five;
    if n > 0 {
      TextBitsLocal(s, t, n - 1);
    }
  }

  lemma {:induction false} TextBitsPrefix(s: string, m: nat, n: nat)
    requires m <= n <= |s| && Letters(s)
    ensures TextBits(s, m) == TextBits(s, n)[..5 * m]
  {
    hide IsLetter, LetterValue, Five;
    if m < n {
      TextBitsPrefix(s, m, n - 1);
      assert TextBits(s, n)[..5 * (n - 1)] == TextBits(s, n - 1);
    }
  }

  /** Reading the text of a cell gives its bits back. */
  lemma {:induction false} HashTextBits(bits: seq<bool>, n: nat)
    requires 5 * n <= |bits|
    ensures Letters(HashText(bits, n)) && TextBits(HashText(bits, n), n) == bits[..5 * n]
  {
    hide Letter, IsLetter, LetterValue, Value, Five;
    if n > 0 {
      var s, group := HashText(bits, n - 1), bits[5 * (n - 1)..5 * n];
      HashTextBits(bits, n - 1);
      ValueOfLetter(Value(group));
      ValueFive(group);
      TextBitsLocal(s, HashText(bits, n), n - 1);
      assert bits[..5 * n] == bits[..5 * (n - 1)] + group;
    }
  }

  /** Writing the bits of a text gives the text back. */
  lemma {:induction false} TextBitsText(s: string, n: nat)
    requires n <= |s| && Letters(s)
    ensures HashText(TextBits(s, n), n) == s[..n]
  {
    hide Letter, IsLetter, LetterValue, Value, Five;
    if n > 0 {
      var v, bits := LetterValue(s[n - 1]), TextBits(s, n - 1);
      TextBitsText(s, n - 1);
      FiveValue(v);
      HashTextLocal(bits, TextBits(s, n), n - 1);
      FiveLength(v);
      assert TextBits(s, n)[5 * (n - 1)..5 * n] == Five(v);
      assert s[..n] == s[..n - 1] + [s[n - 1]];
    }
  }

  lemma FiveLength(v: nat)
    ensures |Five(v)| == 5
  {
  }

  lemma PrefixOfText(s: string, t: string)
    requires Letters(s) && Letters(t)
    ensures s <= t <==> TextBits(s, |s|) <= TextBits(t, |t|)
  {
    hide TextBits, HashText, IsLetter;
    if s <= t {
      TextBitsPrefix(t, |s|, |t|);
      TextBitsLocal(s, t, |s|);
    }
    if TextBits(s, |s|) <= TextBits(t, |t|) {
      TextBitsPrefix(t, |s|, |t|);
      assert TextBits(t, |s|) == TextBits(s, |s|);
      TextBitsText(s, |s|);
      TextBitsText(t, |s|);
      assert s[..|s|] == s;
    }
  }

  // ----- The operations -----

  function ClampPrecision(precision: int): nat {
    if precision < 1 then 1 else if precision > 12 then 12 else precision
  }

  function Encode(c: Coord, precision: nat): (s: string)
    ensures |s| == precision
  {
    HashText(EncodeBits(c, 5 * precision), precision)
  }

  lemma EncodeNext(c: Coord, k: nat)
    ensures var bits := EncodeBits(c, k);
            BoxOf(EncodeBits(c, k + 1)) == Narrow(BoxOf(bits), IsLon(k), BitAt(BoxOf(bits), IsLon(k), c))
  {
    var bits := EncodeBits(c, k);
    BoxOfNext(bits, BitAt(BoxOf(bits), IsLon(k), c));
  }

  /** The value of the bits collected for character `m` after `k` bits in all. */
  function GroupValue(c: Coord, m: nat, k: nat): (v: nat)
    requires 5 * m <= k <= 5 * m + 5
    ensures v < 32
  {
    Value(EncodeBits(c, k)[5 * m..])
  }

  lemma GroupNext(c: Coord, m: nat, k: nat)
    requires 5 * m <= k < 5 * m + 5
    ensures GroupValue(c, m, k + 1)
         == GroupValue(c, m, k) + (if BitAt(BoxOf(EncodeBits(c, k)), IsLon(k), c) then BitWeight(k - 5 * m) else 0)
  {
    hide BoxOf, BitAt, BitWeight;
    var group := EncodeBits(c, k + 1)[5 * m..];
    assert group[..k - 5 * m] == EncodeBits(c, k)[5 * m..];
  }

  lemma NewGroup(c: Coord, m: nat)
    ensures GroupValue(c, m, 5 * m) == 0
  {
  }

  lemma EncodeGrows(c: Coord, m: nat)
    ensures Encode(c, m + 1) == Encode(c, m) + [Letter(GroupValue(c, m, 5 * m + 5))]
  {
    hide EncodeBits, Value, Letter;
    var bits := EncodeBits(c, 5 * m + 5);
    LowerPrecisionIsPrefix(c, 5 * m, 5 * m + 5);
    HashTextLocal(EncodeBits(c, 5 * m), bits, m);
    assert bits[5 * m..5 * m + 5] == bits[5 * m..];
  }

  /** One bisection: keep the half that holds the point. */
  method Halve(c: Coord, lon: Interval, lat: Interval, isLon: bool)
    returns (lon': Interval, lat': Interval, above: bool)
    ensures above == BitAt(Box(lon, lat), isLon, c)
    ensures Box(lon', lat') == Narrow(Box(lon, lat), isLon, above)
  {
    lon', lat' := lon, lat;
    if isLon {
      var mid := (lon.lo + lon.hi) / 2.0;
      above := c.lon >= mid;
      lon' := if above then Interval(mid, lon.hi) else Interval(lon.lo, mid);
    } else {
      var mid := (lat.lo + lat.hi) / 2.0;
      above := c.lat >= mid;
      lat' := if above then Interval(mid, lat.hi) else Interval(lat.lo, mid);
    }
  }

  lemma EncodeStart(c: Coord)
    ensures Encode(c, 0) == "" && BoxOf(EncodeBits(c, 0)) == WORLD && GroupValue(c, 0, 0) == 0 && IsLon(0)
  {
    NewGroup(c, 0);
  }

  lemma Alternate(k: nat)
    ensures IsLon(k + 1) <==> !IsLon(k)
  {
  }

  /** The encoder loop writes the text of the cell found by bisection. */
  method GeohashOf(c: Coord, precision: int) returns (hash: string)
    ensures hash == Encode(c, ClampPrecision(precision))
    ensures |hash| == if precision < 1 then 1 else if precision > 12 then 12 else precision
  {
    hide BoxOf, EncodeBits, GroupValue, Encode, Letter, BitWeight, IsLon, Narrow, BitAt;
    var length := ClampPrecision(precision);
    var lat, lon := Interval(-90.0, 90.0), Interval(-180.0, 180.0);
    hash := "";
    var bit, ch, isLon := 0, 0, true;
    ghost var m, k := 0, 0;
    EncodeStart(c);
    while |hash| < length
      invariant m == |hash| <= length && 0 <= bit < 5 && k == 5 * m + bit
      invariant m == length ==> bit == 0
      invariant hash == Encode(c, m)
      invariant Box(lon, lat) == BoxOf(EncodeBits(c, k))
      invariant ch == GroupValue(c, m, k)
      invariant isLon == IsLon(k)
      decreases length - m, 5 - bit
    {
      EncodeNext(c, k);
      GroupNext(c, m, k);
      Alternate(k);
      var above;
      lon, lat, above := Halve(c, lon, lat, isLon);
      ch := ch + if above then BitWeight(bit) else 0;
      isLon := !isLon;
      bit, k := bit + 1, k + 1;
      if bit == 5 {
        EncodeGrows(c, m);
        hash := hash + [Letter(ch)];
        m := m + 1;
        NewGroup(c, m);
        bit, ch := 0, 0;
      }
    }
  }

  lemma NextLetter(s: string, c: char)
    requires Letters(s) && IsLetter(c)
    ensures Letters(s + [c])
    ensures TextBits(s + [c], |s| + 1) == TextBits(s, |s|) + Five(LetterValue(c))
  {
    hide IsLetter, LetterValue, Five;
    TextBitsLocal(s, s + [c], |s|);
  }

  lemma NextBit(bits: seq<bool>, v: nat, j: nat)
    requires j < 5
    ensures bits + Five(v)[..j + 1] == (bits + Five(v)[..j]) + [BitOf(v, j)]
  {
    var five := Five(v);
    assert five[j] == BitOf(v, j);
    hide Five, BitOf;
    assert five[..j + 1] == five[..j] + [five[j]];
  }

  lemma AllBits(bits: seq<bool>, v: nat)
    ensures bits + Five(v)[..0] == bits && bits + Five(v)[..5] == bits + Five(v)
  {
    hide BitOf;
  }

  /** The inner loop over the five bits of a character, most significant first. */
  method NarrowByLetter(box: Box, startLon: bool, ghost bits: seq<bool>, v: nat) returns (r: Box, isLon: bool)
    requires box == BoxOf(bits) && startLon == IsLon(|bits|)
    ensures r == BoxOf(bits + Five(v)) && isLon == IsLon(|bits| + 5)
  {
    hide BoxOf, IsLon, BitOf, Five;
    r, isLon := box, startLon;
    AllBits(bits, v);
    for j := 0 to 5
      invariant r == BoxOf(bits + Five(v)[..j]) && isLon == IsLon(|bits| + j)
    {
      var bit := BitOf(v, j);
      NextBit(bits, v, j);
      BoxOfNext(bits + Five(v)[..j], bit);
      Alternate(|bits| + j);
      r := Narrow(r, isLon, bit);
      isLon := !isLon;
    }
  }

  const EITHER_CASE := "0123456789bcdefghjkmnpqrstuvwxyzBCDEFGHJKMNPQRSTUVWXYZ"

  lemma LetterInEitherCase(c: char)
    ensures IsLetter(LowerChar(c)) <==> c in EITHER_CASE
  {
    LetterRanges(LowerChar(c));
    EitherCaseRanges(c);
    hide IsLetter;
  }

  lemma EitherCaseRanges(c: char)
    ensures c in EITHER_CASE <==>
              || '0' <= c <= '9'
              || ('b' <= c <= 'z' && c !in {'i', 'l', 'o'})
              || ('B' <= c <= 'Z' && c !in {'I', 'L', 'O'})
  {
    var capitals := "BCDEFGHJKMNPQRSTUVWXYZ";
    assert c in capitals <==> 'B' <= c <= 'Z' && c !in {'I', 'L', 'O'};
    LetterRanges(c);
    BothCases();
  }

  lemma BothCases()
    ensures EITHER_CASE == BASE32 + "BCDEFGHJKMNPQRSTUVWXYZ"
  {
  }

  /** The digits, and the letters without a, i, l and o. */
  lemma LetterRanges(c: char)
    ensures IsLetter(c) <==> '0' <= c <= '9' || ('b' <= c <= 'z' && c !in {'i', 'l', 'o'})
  {
  }

  /** The texts that are accepted. */
  lemma LettersInEitherCase(hash: string)
    ensures Letters(Lower(hash)) <==> forall i :: 0 <= i < |hash| ==> hash[i] in EITHER_CASE
  {
    hide IsLetter, LowerChar;
    forall i | 0 <= i < |hash|
      ensures IsLetter(Lower(hash)[i]) <==> hash[i] in EITHER_CASE
    {
      LetterInEitherCase(hash[i]);
    }
  }

  /** The decoder loop narrows the world to the cell of the text. */
  method GeohashBounds(hash: string) returns (r: Result<Box>)
    ensures r.Ok? <==> Letters(Lower(hash))
    ensures r.Ok? <==> forall i :: 0 <= i < |hash| ==> hash[i] in EITHER_CASE
    ensures r.Ok? ==> r.value == BoxOf(TextBits(Lower(hash), |hash|))
  {
    LettersInEitherCase(hash);
    hide BoxOf, IsLetter, LetterValue, Five, TextBits, Lower;
    var text := Lower(hash);
    var box, isLon := WORLD, true;
    NoLetters(text);
    for i := 0 to |text|
      invariant Letters(text[..i]) && box == BoxOf(TextBits(text[..i], i)) && isLon == IsLon(5 * i)
    {
      if !IsLetter(text[i]) {
        return Err("invalid geohash");
      }
      assert text[..i + 1] == text[..i] + [text[i]];
      NextLetter(text[..i], text[i]);
      box, isLon := NarrowByLetter(box, isLon, TextBits(text[..i], i), LetterValue(text[i]));
    }
    assert text[..|text|] == text;
    return Ok(box);
  }

  lemma NoLetters(text: string)
    ensures Letters(text[..0]) && BoxOf(TextBits(text[..0], 0)) == WORLD
  {
  }

  // ----- What the operations promise -----

  /** Every point of the world lies in the bounds of its own geohash. */
  lemma PointIsInItsBounds(c: Coord, precision: nat)
    requires WORLD.Contains(c)
    ensures Letters(Encode(c, precision))
    ensures BoxOf(TextBits(Encode(c, precision), precision)).Contains(c)
  {
    hide BoxOf, TextBits, HashText;
    var bits := EncodeBits(c, 5 * precision);
    HashTextBits(bits, precision);
    assert bits[..5 * precision] == bits;
    CellHoldsPoint(c, 5 * precision);
  }

  /** What the encoder writes is lower-case text, and the decoder accepts it as it is. */
  lemma EncodedIsLower(c: Coord, n: nat)
    ensures Letters(Encode(c, n)) && Lower(Encode(c, n)) == Encode(c, n)
  {
    hide IsLetter, LowerChar, HashText;
    var h := Encode(c, n);
    HashTextBits(EncodeBits(c, 5 * n), n);
    forall i | 0 <= i < |h|
      ensures Lower(h)[i] == h[i]
    {
      LettersAreLower(h[i]);
    }
  }

  lemma LettersAreLower(c: char)
    requires IsLetter(c)
    ensures LowerChar(c) == c
  {
    LetterRanges(c);
  }

  /** Decoding what was encoded succeeds, and the box holds every in-range point. */
  lemma DecodingHoldsPoint(c: Coord, precision: int)
    ensures var h := Encode(c, ClampPrecision(precision));
            && (forall i :: 0 <= i < |h| ==> h[i] in EITHER_CASE) && Letters(Lower(h))
            && (WORLD.Contains(c) ==> BoxOf(TextBits(Lower(h), |h|)).Contains(c))
  {
    hide BoxOf, TextBits, Encode, Lower, IsLetter;
    var n := ClampPrecision(precision);
    EncodedIsLower(c, n);
    LettersInEitherCase(Encode(c, n));
    if WORLD.Contains(c) {
      PointIsInItsBounds(c, n);
    }
  }

  /** Capital letters mean the same as small ones. */
  lemma CaseDoesNotMatter(hash: string, other: string)
    requires |hash| == |other|
    requires forall i :: 0 <= i < |hash| ==>
               other[i] == hash[i] || ('a' <= hash[i] <= 'z' && other[i] == hash[i] - 'a' + 'A')
    ensures Lower(other) == Lower(hash)
  {
    forall i | 0 <= i < |hash|
      ensures LowerChar(other[i]) == LowerChar(hash[i])
    {
    }
  }

  // ----- An anchor -----

  lemma LetterNarrows(bits: seq<bool>, v: nat)
    ensures var k, box := |bits|, BoxOf(bits);
            BoxOf(bits + Five(v)) ==
              Narrow(Narrow(Narrow(Narrow(Narrow(box, IsLon(k), BitOf(v, 0)), IsLon(k + 1), BitOf(v, 1)),
                                   IsLon(k + 2), BitOf(v, 2)), IsLon(k + 3), BitOf(v, 3)), IsLon(k + 4), BitOf(v, 4))
  {
    hide Narrow, BitOf, BoxOf, IsLon;
    AllBits(bits, v);
    NextBit(bits, v, 0);
    NextBit(bits, v, 1);
    NextBit(bits, v, 2);
    NextBit(bits, v, 3);
    NextBit(bits, v, 4);
    BoxOfNext(bits + Five(v)[..0], BitOf(v, 0));
    BoxOfNext(bits + Five(v)[..1], BitOf(v, 1));
    BoxOfNext(bits + Five(v)[..2], BitOf(v, 2));
    BoxOfNext(bits + Five(v)[..3], BitOf(v, 3));
    BoxOfNext(bits + Five(v)[..4], BitOf(v, 4));
  }

  lemma NextCell(s: string, v: nat)
    requires Letters(s) && v < 32
    ensures Letters(s + [Letter(v)])
    ensures BoxOf(TextBits(s + [Letter(v)], |s| + 1)) == BoxOf(TextBits(s, |s|) + Five(v))
  {
    hide BoxOf, Five, Letter, LetterValue, TextBits, IsLetter;
    ValueOfLetter(v);
    NextLetter(s, Letter(v));
  }

  lemma KnownCellE()
    ensures Letters("e") && BoxOf(TextBits("e", 1)) == Box(Interval(-45.0, 0.0), Interval(0.0, 45.0))
  {
    hide BoxOf, TextBits, Letters;
    NoLetters("");
    assert ""[..0] == "";
    NextCell("", 13);
    LetterNarrows(TextBits("", 0), 13);
    assert "" + [Letter(13)] == "e";
  }

  lemma KnownCellEz()
    ensures Letters("ez") && BoxOf(TextBits("ez", 2)) == Box(Interval(-11.25, 0.0), Interval(39.375, 45.0))
  {
    hide BoxOf, TextBits, Letters;
    KnownCellE();
    NextCell("e", 31);
    LetterNarrows(TextBits("e", 1), 31);
    assert "e" + [Letter(31)] == "ez";
  }

  lemma KnownCellEzs()
    ensures Letters("ezs") && BoxOf(TextBits("ezs", 3)) == Box(Interval(-5.625, -4.21875), Interval(42.1875, 43.59375))
  {
    hide BoxOf, TextBits, Letters;
    KnownCellEz();
    NextCell("ez", 24);
    LetterNarrows(TextBits("ez", 2), 24);
    assert "ez" + [Letter(24)] == "ezs";
  }

  lemma KnownCellEzs4()
    ensures Letters("ezs4")
    ensures BoxOf(TextBits("ezs4", 4)) == Box(Interval(-5.625, -5.2734375), Interval(42.5390625, 42.71484375))
  {
    hide BoxOf, TextBits, Letters;
    KnownCellEzs();
    NextCell("ezs", 4);
    LetterNarrows(TextBits("ezs", 3), 4);
    assert "ezs" + [Letter(4)] == "ezs4";
  }

  /** The bounds of "ezs42": longitude first, and the letters stand for 13, 31, 24, 4 and 2. */
  lemma KnownCell()
    ensures Letters("ezs42")
    ensures BoxOf(TextBits("ezs42", 5)) == Box(Interval(-5.625, -5.5810546875), Interval(42.5830078125, 42.626953125))
  {
    hide BoxOf, TextBits, Letters;
    KnownCellEzs4();
    NextCell("ezs4", 2);
    LetterNarrows(TextBits("ezs4", 4), 2);
    assert "ezs4" + [Letter(2)] == "ezs42";
  }

  /** Encoding the centre of a valid hash at its own length gives the hash back. */
  lemma CenterEncodesToItsHash(hash: string)
    requires Letters(hash)
    ensures Encode(BoxOf(TextBits(hash, |hash|)).Center(), |hash|) == hash
  {
    hide BoxOf, TextBits, HashText, EncodeBits, IsLetter;
    var bits := TextBits(hash, |hash|);
    CenterIsInside(bits);
    InsideEncodes(bits, BoxOf(bits).Center());
    TextBitsText(hash, |hash|);
    assert hash[..|hash|] == hash;
  }

  /** Decodes to the centre of the cell, which encodes to the lower-case hash again. */
  method GeohashDecode(hash: string) returns (r: Result<Coord>)
    ensures r.Ok? <==> Letters(Lower(hash))
    ensures r.Ok? ==> Encode(r.value, |hash|) == Lower(hash)
    ensures r.Ok? ==> var box := BoxOf(TextBits(Lower(hash), |hash|));
                      r.value == Coord((box.lat.lo + box.lat.hi) / 2.0, (box.lon.lo + box.lon.hi) / 2.0)
  {
    hide BoxOf, TextBits, Encode, Lower, Letters;
    var bounds := GeohashBounds(hash);
    if bounds.Err? {
      return Err(bounds.error);
    }
    CenterEncodesToItsHash(Lower(hash));
    return Ok(bounds.value.Center());
  }

  /** A lower precision gives a prefix of a higher one. */
  lemma LowerPrecisionPrefix(c: Coord, m: nat, n: nat)
    requires m <= n
    ensures Encode(c, m) <= Encode(c, n)
  {
    hide EncodeBits, BoxOf;
    var a, b := EncodeBits(c, 5 * m), EncodeBits(c, 5 * n);
    LowerPrecisionIsPrefix(c, 5 * m, 5 * n);
    HashTextLocal(a, b, m);
    HashTextPrefix(b, m, n);
  }

  lemma {:induction false} HashTextPrefix(bits: seq<bool>, m: nat, n: nat)
    requires m <= n && 5 * n <= |bits|
    ensures HashText(bits, m) <= HashText(bits, n)
  {
    hide Value, Letter;
    if m < n {
      HashTextPrefix(bits, m, n - 1);
    }
  }

  /** `GeohashContains`: the parent text is a prefix of the child text, in lower case. */
  predicate GeohashContains(parent: string, child: string) {
    Lower(parent) <= Lower(child)
  }

  /** For valid hashes in either case, the text test decides containment of the cells. */
  lemma ContainsIsCellContainment(parent: string, child: string)
    requires Letters(Lower(parent)) && Letters(Lower(child))
    ensures GeohashContains(parent, child)
       <==> BoxOf(TextBits(Lower(parent), |parent|)).Covers(BoxOf(TextBits(Lower(child), |child|)))
  {
    hide BoxOf, TextBits, IsLetter;
    PrefixOfText(Lower(parent), Lower(child));
    ContainmentIsPrefix(TextBits(Lower(parent), |parent|), TextBits(Lower(child), |child|));
  }

  /** The text of neighbour `k`. */
  function NeighborText(hash: string, k: nat): string
    requires Letters(hash) && k < 8
  {
    HashText(Neighbor(TextBits(hash, |hash|), k), |hash|)
  }

  /** What slot `k` holds: the neighbour's text, cut off after twelve letters; for the empty hash, whose cell is
      the whole world, the one-letter cell nearest to a point off the map. */
  predicate InSlot(hash: string, k: nat, text: string)
    requires Letters(hash) && k < 8
  {
    if hash == "" then text == Encode(Target(WORLD, OFFSETS[k]), 1)
    else if |hash| <= 12 then text == NeighborText(hash, k)
    else |text| == 12 && text <= NeighborText(hash, k)
  }

  lemma EncodedIsInSlot(hash: string, k: nat)
    requires Letters(hash) && k < 8
    ensures InSlot(hash, k, Encode(Target(BoxOf(TextBits(hash, |hash|)), OFFSETS[k]), ClampPrecision(|hash|)))
  {
    hide EncodeBits, HashText, Letters, Target;
    var c := Target(BoxOf(TextBits(hash, |hash|)), OFFSETS[k]);
    if hash == "" {
      NoLetters(hash);
      assert hash[..0] == hash;
    } else {
      assert NeighborText(hash, k) == Encode(c, |hash|);
      if |hash| > 12 {
        LowerPrecisionPrefix(c, 12, |hash|);
      }
    }
  }

  /** The text of a cell of the same length that shares an edge or corner with the cell of `hash`. */
  predicate Adjoins(g: string, hash: string)
    requires Letters(hash)
  {
    && Letters(g) && |g| == |hash| && g != hash
    && Touch(BoxOf(TextBits(g, |g|)), BoxOf(TextBits(hash, |hash|)))
  }

  /** The answers are different, and they are exactly the adjoining cells. */
  ghost predicate AnswersRight(hash: string, answers: seq<string>)
    requires Letters(hash)
  {
    && (forall j, k :: 0 <= j < k < |answers| ==> answers[j] != answers[k])
    && forall g :: g in answers <==> Adjoins(g, hash)
  }

  /** Fills the eight slots in the order N, NE, E, SE, S, SW, W, NW. The answers are right if and only if the hash
      has at most twelve letters and its cell does not touch the edge of the world. */
  method GeohashNeighbors(hash: string) returns (r: Result<seq<string>>)
    ensures r.Ok? <==> Letters(Lower(hash))
    ensures r.Ok? ==> |r.value| == 8 && forall k :: 0 <= k < 8 ==> InSlot(Lower(hash), k, r.value[k])
    ensures r.Ok? ==> (AnswersRight(Lower(hash), r.value)
                       <==> |hash| <= 12 && !TouchesEdge(BoxOf(TextBits(Lower(hash), |hash|))))
  {
    hide BoxOf, TextBits, EncodeBits, HashText, Lower, Letters, InSlot, AnswersRight, TouchesEdge;
    var bounds := GeohashBounds(hash);
    if bounds.Err? {
      return Err(bounds.error);
    }
    var neighbors: seq<string> := [];
    for i := 0 to 8
      invariant |neighbors| == i
      invariant forall k :: 0 <= k < i ==> InSlot(Lower(hash), k, neighbors[k])
    {
      EncodedIsInSlot(Lower(hash), i);
      var n := GeohashOf(Target(bounds.value, OFFSETS[i]), |hash|);
      neighbors := neighbors + [n];
    }
    AnswersRightExactlyInside(Lower(hash), neighbors);
    return Ok(neighbors);
  }

  lemma SameCellSameText(g: string, bits: seq<bool>)
    requires Letters(g) && |bits| == 5 * |g|
    ensures g == HashText(bits, |g|) <==> TextBits(g, |g|) == bits
  {
    hide TextBits, HashText, IsLetter;
    HashTextBits(bits, |g|);
    TextBitsText(g, |g|);
    assert g[..|g|] == g && bits[..5 * |g|] == bits;
  }

  lemma InnerAnswer(hash: string, g: string)
    requires Letters(hash) && NeighborsRight(TextBits(hash, |hash|))
    ensures (exists k :: 0 <= k < 8 && g == NeighborText(hash, k)) <==> Adjoins(g, hash)
  {
    hide TextBits, HashText, IsLetter, Neighbor, BoxOf, Touch;
    var bits := TextBits(hash, |hash|);
    forall k | 0 <= k < 8
      ensures Letters(NeighborText(hash, k))
    {
      HashTextBits(Neighbor(bits, k), |hash|);
    }
    if Letters(g) && |g| == |hash| {
      var other := TextBits(g, |g|);
      forall k | 0 <= k < 8
        ensures g == NeighborText(hash, k) <==> other == Neighbor(bits, k)
      {
        SameCellSameText(g, Neighbor(bits, k));
      }
      assert (exists k :: 0 <= k < 8 && g == NeighborText(hash, k)) <==> IsNeighbor(bits, other);
      TextBitsText(g, |g|);
      TextBitsText(hash, |hash|);
      assert g[..|g|] == g && hash[..|hash|] == hash;
    }
  }

  /** For a valid hash, the eight answers are exactly its eight distinct neighbours if and only if it is not too
      long for the encoder and its cell does not touch the edge of the world. */
  lemma AnswersRightExactlyInside(hash: string, answers: seq<string>)
    requires Letters(hash) && |answers| == 8 && forall k :: 0 <= k < 8 ==> InSlot(hash, k, answers[k])
    ensures AnswersRight(hash, answers) <==> |hash| <= 12 && !TouchesEdge(BoxOf(TextBits(hash, |hash|)))
  {
    hide TextBits, HashText, IsLetter, BoxOf, TouchesEdge, Encode, AnswersRight;
    assert InSlot(hash, 0, answers[0]);
    if hash == "" || |hash| > 12 {
      OtherLength(hash, answers);
      if hash == "" {
        NoLetters(hash);
        WholeWorld(hash);
      }
    } else if TouchesEdge(BoxOf(TextBits(hash, |hash|))) {
      OwnNeighbor(hash, answers);
    } else {
      InnerAnswers(hash, answers);
    }
  }

  lemma OtherLength(hash: string, answers: seq<string>)
    requires Letters(hash) && answers != [] && |answers[0]| != |hash|
    ensures !AnswersRight(hash, answers)
  {
    hide Letters, Touch, BoxOf, TextBits;
    assert answers[0] in answers && !Adjoins(answers[0], hash);
  }

  lemma WholeWorld(hash: string)
    requires hash == ""
    ensures Letters(hash) && TouchesEdge(BoxOf(TextBits(hash, |hash|)))
  {
  }

  lemma OwnNeighbor(hash: string, answers: seq<string>)
    requires Letters(hash) && TouchesEdge(BoxOf(TextBits(hash, |hash|)))
    requires |answers| == 8 && forall k :: 0 <= k < 8 ==> answers[k] == NeighborText(hash, k)
    ensures !AnswersRight(hash, answers)
  {
    hide TextBits, HashText, IsLetter, Neighbor, BoxOf, Touch, TouchesEdge;
    var bits := TextBits(hash, |hash|);
    EdgeIsRim(bits);
    RimCellIsItsOwnNeighbor(bits);
    var k :| 0 <= k < 8 && bits == Neighbor(bits, k);
    SameCellSameText(hash, bits);
    assert answers[k] == hash;
    assert hash in answers && !Adjoins(hash, hash);
  }

  lemma InnerAnswers(hash: string, answers: seq<string>)
    requires Letters(hash) && !TouchesEdge(BoxOf(TextBits(hash, |hash|)))
    requires |answers| == 8 && forall k :: 0 <= k < 8 ==> answers[k] == NeighborText(hash, k)
    ensures AnswersRight(hash, answers)
  {
    hide TextBits, HashText, Letters, BoxOf, TouchesEdge, NeighborsRight, NeighborText, Adjoins;
    NeighborsRightExactlyInside(TextBits(hash, |hash|));
    forall g
      ensures g in answers <==> Adjoins(g, hash)
    {
      InnerAnswer(hash, g);
      assert g in answers <==> exists k :: 0 <= k < 8 && g == NeighborText(hash, k);
    }
    forall j, k | 0 <= j < k < 8
      ensures answers[j] != answers[k]
    {
      DifferentAnswers(hash, j, k);
    }
  }

  lemma DifferentAnswers(hash: string, j: nat, k: nat)
    requires Letters(hash) && j < k < 8 && NeighborsRight(TextBits(hash, |hash|))
    ensures NeighborText(hash, j) != NeighborText(hash, k)
  {
    hide TextBits, HashText, IsLetter, Neighbor, BoxOf, Touch, IsNeighbor;
    var bits := TextBits(hash, |hash|);
    var a, b := Neighbor(bits, j), Neighbor(bits, k);
    HashTextBits(a, |hash|);
    HashTextBits(b, |hash|);
    assert a[..5 * |hash|] == a && b[..5 * |hash|] == b;
  }
}
