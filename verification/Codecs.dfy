/** The hexadecimal and base64 codecs of src/utils.c, which may work within one buffer. */
module Codecs {
  import opened Common

  type Buffer = seq<bv8>

  // Hexadecimal

  predicate IsDigit(c: bv8) {
    48 <= c <= 57
  }

  predicate IsHexDigit(c: bv8) {
    IsDigit(c) || 65 <= c <= 70 || 97 <= c <= 102
  }

  function ToUpper(c: bv8): bv8 {
    if 97 <= c <= 122 then c - 32 else c
  }

  function CharHexToBin(c: bv8): bv8 {
    if IsDigit(c) then c - 48 else ToUpper(c) - 65 + 10
  }

  function HexDigit(v: bv8): bv8 {
    if v < 10 then 48 + v else 65 + (v - 10)
  }

  function HighDigit(x: bv8): bv8 {
    HexDigit(x >> 4)
  }

  function LowDigit(x: bv8): bv8 {
    HexDigit(x & 15)
  }

  /** The byte written by two digits. */
  function Pair(hi: bv8, lo: bv8): bv8 {
    CharHexToBin(hi) * 16 + CharHexToBin(lo)
  }

  /** The two digits of a byte, and back. */
  lemma HexByte(x: bv8)
    ensures IsHexDigit(HighDigit(x)) && IsHexDigit(LowDigit(x)) && Pair(HighDigit(x), LowDigit(x)) == x
  {
  }

  /** The characters 0123456789ABCDEF. */
  const UPPER: Buffer := [48, 49, 50, 51, 52, 53, 54, 55, 56, 57, 65, 66, 67, 68, 69, 70]

  /** The characters 0123456789abcdef. */
  const LOWER: Buffer := [48, 49, 50, 51, 52, 53, 54, 55, 56, 57, 97, 98, 99, 100, 101, 102]

  /** The sixteen digits and what they stand for; encoding uses capital letters. */
  lemma DigitsAre(i: nat)
    requires i < 16
    ensures CharHexToBin(UPPER[i]) == i as bv8 && CharHexToBin(LOWER[i]) == i as bv8 && HexDigit(i as bv8) == UPPER[i]
    ensures IsHexDigit(UPPER[i]) && IsHexDigit(LOWER[i])
  {
    assert i == 0 || i == 1 || i == 2 || i == 3 || i == 4 || i == 5 || i == 6 || i == 7
           || i == 8 || i == 9 || i == 10 || i == 11 || i == 12 || i == 13 || i == 14 || i == 15;
  }

  /** The first digit of a pair counts sixteen. */
  lemma PairIs(i: nat, j: nat)
    requires i < 16 && j < 16
    ensures Pair(UPPER[i], UPPER[j]) == (i as bv8) * 16 + j as bv8
  {
    hide CharHexToBin;
    DigitsAre(i);
    DigitsAre(j);
  }

  /** Nothing else is a digit. */
  lemma OnlyDigits(c: bv8)
    ensures IsHexDigit(c) <==> c in UPPER || c in LOWER
  {
  }

  /** The same letter, small or capital, or the same other character. */
  predicate SameLetter(c: bv8, d: bv8) {
    c == d || (65 <= c <= 90 && d == c + 32) || (65 <= d <= 90 && c == d + 32)
  }

  lemma LetterCase(c: bv8, d: bv8)
    requires SameLetter(c, d)
    ensures IsHexDigit(c) == IsHexDigit(d) && (IsHexDigit(c) ==> CharHexToBin(c) == CharHexToBin(d))
  {
  }

  /** Decoding does not depend on the case of letters. */
  lemma {:induction false} HexCase(s: Buffer, t: Buffer, length: nat)
    requires |s| == |t| && forall i | 0 <= i < |s| :: SameLetter(s[i], t[i])
    ensures UnHex(s, length) == UnHex(t, length)
    decreases length
  {
    hide SameLetter, IsHexDigit, CharHexToBin;
    if length > 0 && |s| >= 2 {
      LetterCase(s[0], t[0]);
      LetterCase(s[1], t[1]);
      HexCase(s[2..], t[2..], length - 1);
    }
  }

  lemma NulIsNoDigit(c: bv8)
    ensures IsHexDigit(c) ==> c != 0
  {
  }

  ghost function Hex(b: Buffer): Buffer {
    if b == [] then [] else [HighDigit(b[0]), LowDigit(b[0])] + Hex(b[1..])
  }

  /** The bytes written by pairs of hexadecimal digits, up to the first other character. */
  ghost function UnHex(s: Buffer, length: nat): Buffer {
    if length == 0 || |s| < 2 || !IsHexDigit(s[0]) || !IsHexDigit(s[1]) then []
    else [Pair(s[0], s[1])] + UnHex(s[2..], length - 1)
  }

  /** Decoding undoes encoding, whatever follows. */
  lemma {:induction false} HexRoundTrip(b: Buffer, rest: Buffer, length: nat)
    requires length == |b| || (length > |b| && (|rest| < 2 || !IsHexDigit(rest[0]) || !IsHexDigit(rest[1])))
    ensures UnHex(Hex(b) + rest, length) == b
  {
    hide HighDigit, LowDigit, Pair, IsHexDigit;
    if b != [] {
      HexByte(b[0]);
      HexRoundTrip(b[1..], rest, length - 1);
      assert (Hex(b) + rest)[2..] == Hex(b[1..]) + rest;
    } else {
      assert Hex(b) + rest == rest;
    }
  }

  lemma {:induction false} HexLength(b: Buffer)
    ensures |Hex(b)| == 2 * |b|
  {
    if b != [] {
      HexLength(b[1..]);
    }
  }

  /** A string that ends before the buffer does, or is not read that far. */
  predicate Terminated(s: Buffer, length: nat) {
    length <= |s| || 0 in s
  }

  /** hex2bin. */
  method Hex2Bin(src: array<bv8>, dst: array<bv8>, length: nat) returns (n: nat)
    requires Terminated(src[..], 2 * length) && length <= dst.Length
    modifies dst
    ensures n <= length && old(UnHex(src[..], length)) == dst[..n]
    ensures dst[n..] == old(dst[n..])
  {
    hide Pair, IsHexDigit, UnHex, Decoded;
    ghost var s := src[..];
    ghost var z: nat := 2 * length;
    if z > |s| {
      z :| 0 <= z < |s| && s[z] == 0;
    }
    n := 0;
    UnHexStart(s, length);
    NulIsNoDigit(0);
    while n < length && IsHexDigit(src[2 * n]) && IsHexDigit(src[2 * n + 1])
      invariant n <= length && 2 * n <= z <= |s| && (z < 2 * length ==> z < |s| && s[z] == 0)
      invariant forall k | n <= k < |s| :: src[k] == s[k]
      invariant Decoded(s, length, n, dst[..n])
      invariant forall k | n <= k < dst.Length :: dst[k] == old(dst[k])
    {
      UnHexStep(s, length, n, dst[..n]);
      dst[n] := Pair(src[2 * n], src[2 * n + 1]);
      n := n + 1;
      assert dst[..n] == dst[..n - 1] + [dst[n - 1]];
    }
    UnHexEnd(s, length, n, dst[..n]);
  }

  /** The first n pairs decode to `done`. */
  ghost predicate Decoded(s: Buffer, length: nat, n: nat, done: Buffer) {
    2 * n <= |s| && n <= length && UnHex(s, length) == done + UnHex(s[2 * n..], length - n)
  }

  lemma UnHexStart(s: Buffer, length: nat)
    ensures Decoded(s, length, 0, [])
  {
    assert s[0..] == s;
  }

  lemma UnHexStep(s: Buffer, length: nat, n: nat, done: Buffer)
    requires Decoded(s, length, n, done) && n < length && 2 * n + 1 < |s| && IsHexDigit(s[2 * n])
             && IsHexDigit(s[2 * n + 1])
    ensures Decoded(s, length, n + 1, done + [Pair(s[2 * n], s[2 * n + 1])])
  {
    hide Pair, IsHexDigit;
    assert s[2 * n..][2..] == s[2 * (n + 1)..];
  }

  lemma UnHexEnd(s: Buffer, length: nat, n: nat, done: Buffer)
    requires Decoded(s, length, n, done)
    requires n == length || (2 * n < |s| && !IsHexDigit(s[2 * n])) || (2 * n + 1 < |s| && !IsHexDigit(s[2 * n + 1]))
    ensures UnHex(s, length) == done
  {
  }

  /** bin2hex: from the end to the start, so that the source may be overwritten. */
  method Bin2Hex(src: array<bv8>, dst: array<bv8>, length: nat) returns (n: nat)
    requires length <= src.Length && 2 * length < dst.Length
    modifies dst
    ensures n == 2 * length && dst[..n] == old(Hex(src[..length])) && dst[n] == 0
  {
    hide HighDigit, LowDigit, Hex;
    ghost var s := src[..length];
    HexLength(s);
    HexLength(s[length..]);
    var i := length;
    while i > 0
      invariant i <= length
      invariant forall k | 0 <= k < i :: src[k] == s[k]
      invariant dst[2 * i..2 * length] == Hex(s[i..])
    {
      i := i - 1;
      var x := src[i];
      dst[2 * i + 1] := LowDigit(x);
      dst[2 * i] := HighDigit(x);
      HexStep(s, i, dst[2 * i + 2..2 * length], dst[2 * i..2 * length]);
    }
    assert s[0..] == s;
    dst[2 * length] := 0;
    n := 2 * length;
  }

  lemma HexStep(s: Buffer, i: nat, done: Buffer, more: Buffer)
    requires i < |s| && done == Hex(s[i + 1..]) && more == [HighDigit(s[i]), LowDigit(s[i])] + done
    ensures more == Hex(s[i..])
  {
    assert s[i..][1..] == s[i + 1..];
  }

  // Base64, least significant bits first

  /** The character for six bits. */
  function Letter(urlsafe: bool, v: bv32): bv8 {
    if v < 26 then 65 + v as bv8
    else if v < 52 then 97 + (v - 26) as bv8
    else if v < 62 then 48 + (v - 52) as bv8
    else if v == 62 then (if urlsafe then 45 else 43)
    else if urlsafe then 95 else 47
  }

  /** The six bits a character stands for; anything else sets every bit. */
  function Value(c: bv8): bv32 {
    if 65 <= c <= 90 then (c - 65) as bv32
    else if 97 <= c <= 122 then (c - 97) as bv32 + 26
    else if 48 <= c <= 57 then (c - 48) as bv32 + 52
    else if c == 43 || c == 45 then 62
    else if c == 47 || c == 95 then 63
    else 0xffff_ffff
  }

  /** A to Z, a to z and 0 to 9 in this order, then plus and slash, or minus and underscore. */
  lemma LettersAre(urlsafe: bool, c: bv8)
    ensures 65 <= c <= 90 ==> Letter(urlsafe, (c - 65) as bv32) == c
    ensures 97 <= c <= 122 ==> Letter(urlsafe, 26 + (c - 97) as bv32) == c
    ensures 48 <= c <= 57 ==> Letter(urlsafe, 52 + (c - 48) as bv32) == c
    ensures Letter(false, 62) == 43 && Letter(false, 63) == 47 && Letter(true, 62) == 45 && Letter(true, 63) == 95
  {
  }

  lemma ValueLetter(urlsafe: bool, v: bv32)
    requires v < 64
    ensures Value(Letter(urlsafe, v)) == v && Letter(urlsafe, v) != 0
  {
  }

  /** The number formed by up to three bytes. */
  function Triplet(x: bv8, y: bv8, z: bv8): bv32 {
    x as bv32 | (y as bv32 << 8) | (z as bv32 << 16)
  }

  /** The n-th group of six bits. */
  function Six(t: bv32, n: nat): bv32
    requires n < 4
  {
    if n == 0 then t & 63 else if n == 1 then (t >> 6) & 63 else if n == 2 then (t >> 12) & 63 else (t >> 18) & 63
  }

  /** The n-th byte. */
  function Eight(t: bv32, n: nat): bv8
    requires n < 3
  {
    if n == 0 then (t & 0xff) as bv8 else if n == 1 then ((t >> 8) & 0xff) as bv8 else ((t >> 16) & 0xff) as bv8
  }

  function Shift(v: bv32, n: nat): bv32 {
    if n == 0 then v else if n == 1 then v << 6 else if n == 2 then v << 12 else v << 18
  }

  predicate Overflows(t: bv32) {
    t & 0xff00_0000 != 0
  }

  lemma SixIsSmall(t: bv32, n: nat)
    requires n < 4
    ensures Six(t, n) < 64
  {
  }

  function Combined(a: bv32, b: bv32, c: bv32, d: bv32): bv32 {
    a | Shift(b, 1) | Shift(c, 2) | Shift(d, 3)
  }

  /** The six bits of the i-th character, or nothing. */
  function ValueAt(s: Buffer, i: nat): bv32 {
    if i < |s| then Value(s[i]) else 0
  }

  /** The number formed by up to four characters. */
  ghost function Gathered(s: Buffer): bv32 {
    Combined(ValueAt(s, 0), ValueAt(s, 1), ValueAt(s, 2), ValueAt(s, 3))
  }

  lemma GatheredStep(s: Buffer, c: bv8)
    requires |s| < 4
    ensures Gathered(s + [c]) == Gathered(s) | Shift(Value(c), |s|)
  {
    hide Value, Combined, Shift;
    var t := s + [c];
    assert forall i: nat | i < |s| :: t[i] == s[i];
    var p, q, r, v := ValueAt(s, 0), ValueAt(s, 1), ValueAt(s, 2), Value(c);
    if |s| == 0 {
      CombinedFirst(v);
    } else if |s| == 1 {
      CombinedSecond(p, v);
    } else if |s| == 2 {
      CombinedThird(p, q, v);
    } else {
      CombinedFourth(p, q, r, v);
    }
  }

  lemma CombinedFirst(v: bv32)
    ensures Combined(v, 0, 0, 0) == Combined(0, 0, 0, 0) | Shift(v, 0)
  {
  }

  lemma CombinedSecond(p: bv32, v: bv32)
    ensures Combined(p, v, 0, 0) == Combined(p, 0, 0, 0) | Shift(v, 1)
  {
  }

  lemma CombinedThird(p: bv32, q: bv32, v: bv32)
    ensures Combined(p, q, v, 0) == Combined(p, q, 0, 0) | Shift(v, 2)
  {
  }

  lemma CombinedFourth(p: bv32, q: bv32, r: bv32, v: bv32)
    ensures Combined(p, q, r, v) == Combined(p, q, r, 0) | Shift(v, 3)
  {
  }

  /** tinc's base64: groups of three bytes, least significant bits first, without padding. */
  ghost function Encode(b: Buffer, urlsafe: bool): Buffer {
    if |b| == 0 then []
    else if |b| == 1 then
      var t := Triplet(b[0], 0, 0);
      [Letter(urlsafe, Six(t, 0)), Letter(urlsafe, Six(t, 1))]
    else if |b| == 2 then
      var t := Triplet(b[0], b[1], 0);
      [Letter(urlsafe, Six(t, 0)), Letter(urlsafe, Six(t, 1)), Letter(urlsafe, Six(t, 2))]
    else Group(b[0], b[1], b[2], urlsafe) + Encode(b[3..], urlsafe)
  }

  ghost function Group(x: bv8, y: bv8, z: bv8, urlsafe: bool): Buffer {
    var t := Triplet(x, y, z);
    [Letter(urlsafe, Six(t, 0)), Letter(urlsafe, Six(t, 1)), Letter(urlsafe, Six(t, 2)), Letter(urlsafe, Six(t, 3))]
  }

  /** What a string decodes to, or that it does not decode. */
  ghost function Decode(s: Buffer): Option<Buffer> {
    var t := Gathered(if |s| < 4 then s else s[..4]);
    if Overflows(t) then None
    else if |s| < 2 then Some([])
    else if |s| == 2 then Some([Eight(t, 0)])
    else if |s| == 3 then Some([Eight(t, 0), Eight(t, 1)])
    else
      var r := Decode(s[4..]);
      if r.None? then None else Some([Eight(t, 0), Eight(t, 1), Eight(t, 2)] + r.value)
  }

  /** Three bytes in groups of six bits, the low bits of the first byte first. */
  function Sextet(x: bv8, y: bv8, z: bv8, n: nat): bv32
    requires n < 4
  {
    match n
    case 0 => (x & 63) as bv32
    case 1 => ((x >> 6) | ((y & 15) << 2)) as bv32
    case 2 => ((y >> 4) | ((z & 3) << 4)) as bv32
    case _ => (z >> 2) as bv32
  }

  lemma SixBits(x: bv8, y: bv8, z: bv8, n: nat)
    requires n < 4
    ensures Six(Triplet(x, y, z), n) == Sextet(x, y, z, n)
  {
  }

  /** Each group of three bytes is encoded in this order, and by itself. */
  lemma {:induction false} EncodedAt(b: Buffer, urlsafe: bool, g: nat, n: nat)
    requires 3 * g + 3 <= |b| && n < 4
    ensures 4 * g + n < |Encode(b, urlsafe)|
    ensures Encode(b, urlsafe)[4 * g + n] == Letter(urlsafe, Sextet(b[3 * g], b[3 * g + 1], b[3 * g + 2], n))
    decreases g
  {
    hide Letter, Six, Triplet, Sextet;
    if g == 0 {
      SixBits(b[0], b[1], b[2], n);
    } else {
      EncodedAt(b[3..], urlsafe, g - 1, n);
    }
  }

  lemma TripletParts(x: bv8, y: bv8, z: bv8)
    ensures var t := Triplet(x, y, z);
            && Combined(Six(t, 0), Six(t, 1), Six(t, 2), Six(t, 3)) == t && !Overflows(t)
            && Eight(t, 0) == x && Eight(t, 1) == y && Eight(t, 2) == z
            && (z == 0 ==> Six(t, 3) == 0) && (y == 0 && z == 0 ==> Six(t, 2) == 0)
  {
  }

  lemma LetterBack(t: bv32, n: nat, urlsafe: bool)
    requires n < 4
    ensures Value(Letter(urlsafe, Six(t, n))) == Six(t, n) && Letter(urlsafe, Six(t, n)) != 0
  {
    SixIsSmall(t, n);
    ValueLetter(urlsafe, Six(t, n));
  }

  /** The characters of a group decode to its bytes. */
  lemma GroupDecodes(x: bv8, y: bv8, z: bv8, urlsafe: bool, s: Buffer)
    requires s == Group(x, y, z, urlsafe) || (z == 0 && s == Group(x, y, z, urlsafe)[..3])
             || (y == 0 && z == 0 && s == Group(x, y, z, urlsafe)[..2])
    ensures Gathered(s) == Triplet(x, y, z)
  {
    hide Value, Letter, Six, Triplet, Combined, Eight, Overflows;
    var t := Triplet(x, y, z);
    TripletParts(x, y, z);
    LetterBack(t, 0, urlsafe);
    LetterBack(t, 1, urlsafe);
    LetterBack(t, 2, urlsafe);
    LetterBack(t, 3, urlsafe);
  }

  /** Decoding undoes encoding, for every length and both alphabets. */
  lemma {:induction false} Base64RoundTrip(b: Buffer, urlsafe: bool)
    ensures Decode(Encode(b, urlsafe)) == Some(b)
  {
    hide Gathered, Triplet, Six, Letter, Eight, Overflows;
    if |b| == 1 {
      GroupDecodes(b[0], 0, 0, urlsafe, Encode(b, urlsafe));
      TripletParts(b[0], 0, 0);
      assert b == [b[0]];
    } else if |b| == 2 {
      GroupDecodes(b[0], b[1], 0, urlsafe, Encode(b, urlsafe));
      TripletParts(b[0], b[1], 0);
      assert b == [b[0], b[1]];
    } else if |b| >= 3 {
      var e := Encode(b, urlsafe);
      assert e[..4] == Group(b[0], b[1], b[2], urlsafe) && e[4..] == Encode(b[3..], urlsafe);
      GroupDecodes(b[0], b[1], b[2], urlsafe, e[..4]);
      TripletParts(b[0], b[1], b[2]);
      Base64RoundTrip(b[3..], urlsafe);
      assert b == [b[0], b[1], b[2]] + b[3..];
    } else {
      NothingGathered();
    }
  }

  lemma NothingGathered()
    ensures Gathered([]) == 0 && !Overflows(0)
  {
  }

  /** How many characters encode n bytes. */
  function EncodedLength(n: nat): nat {
    n / 3 * 4 + if n % 3 == 0 then 0 else n % 3 + 1
  }

  /** How many bytes n characters decode to. */
  function DecodedLength(n: nat): nat {
    n / 4 * 3 + if n % 4 < 2 then 0 else n % 4 - 1
  }

  lemma {:induction false} EncodeLength(b: Buffer, urlsafe: bool)
    ensures |Encode(b, urlsafe)| == EncodedLength(|b|) && 0 !in Encode(b, urlsafe)
  {
    hide Triplet, Six, Letter;
    var x, y, z := if |b| > 0 then b[0] else 0, if |b| > 1 then b[1] else 0, if |b| > 2 then b[2] else 0;
    var t := Triplet(x, y, z);
    LetterBack(t, 0, urlsafe);
    LetterBack(t, 1, urlsafe);
    LetterBack(t, 2, urlsafe);
    LetterBack(t, 3, urlsafe);
    if |b| >= 3 {
      EncodeLength(b[3..], urlsafe);
    }
  }

  /** The string in a buffer: up to the terminating zero, but no more than `length` characters. */
  ghost function Until(s: Buffer, length: nat): (r: Buffer)
    ensures |r| <= length && r <= s && 0 !in r
    ensures |r| == length || |r| == |s| || s[|r|] == 0
  {
    if s == [] || length == 0 || s[0] == 0 then [] else [s[0]] + Until(s[1..], length - 1)
  }

  /** What b64decode_tinc finds in a buffer that b64encode_tinc has written. */
  lemma {:induction false} UntilEncoded(e: Buffer, rest: Buffer, length: nat)
    requires 0 !in e && (length == |e| || (length > |e| && rest != [] && rest[0] == 0))
    ensures Until(e + rest, length) == e
    decreases |e|
  {
    if e != [] {
      assert (e + rest)[1..] == e[1..] + rest;
      UntilEncoded(e[1..], rest, length - 1);
    } else {
      assert e + rest == rest;
    }
  }

  /** The first n characters for a triplet. */
  ghost function Letters(t: bv32, n: nat, urlsafe: bool): Buffer
    requires n <= 4
  {
    [Letter(urlsafe, Six(t, 0)), Letter(urlsafe, Six(t, 1)), Letter(urlsafe, Six(t, 2)),
     Letter(urlsafe, Six(t, 3))][..n]
  }

  method PutLetters(dst: array<bv8>, at: nat, t: bv32, n: nat, urlsafe: bool)
    requires n <= 4 && at + n <= dst.Length
    modifies dst
    ensures dst[at..at + n] == Letters(t, n, urlsafe)
    ensures forall k | 0 <= k < dst.Length && !(at <= k < at + n) :: dst[k] == old(dst[k])
  {
    hide Letter, Six;
    for i := 0 to n
      invariant dst[at..at + i] == Letters(t, i, urlsafe)
      invariant forall k | 0 <= k < dst.Length && !(at <= k < at + i) :: dst[k] == old(dst[k])
    {
      dst[at + i] := Letter(urlsafe, Six(t, i));
      assert dst[at..at + i + 1] == dst[at..at + i] + [dst[at + i]];
    }
  }

  /** The bytes that do not fill a triplet. */
  method PutTail(src: array<bv8>, dst: array<bv8>, si: nat, di: nat, length: nat, urlsafe: bool) returns (n: nat)
    requires length <= src.Length && si == length / 3 * 3 && di == length / 3 * 4 && EncodedLength(length) < dst.Length
    modifies dst
    ensures n == EncodedLength(length) && dst[di..n] == old(Encode(src[si..length], urlsafe)) && dst[n] == 0
    ensures forall k | 0 <= k < di :: dst[k] == old(dst[k])
  {
    hide Letter, Six, Triplet, Encode;
    ghost var s := src[si..length];
    n := EncodedLength(length);
    EncodeTail(s, urlsafe);
    if length % 3 == 2 {
      PutLetters(dst, di, Triplet(src[si], src[si + 1], 0), 3, urlsafe);
    } else if length % 3 == 1 {
      PutLetters(dst, di, Triplet(src[si], 0, 0), 2, urlsafe);
    }
    dst[n] := 0;
  }

  /** One group of four characters, before those of the rest. */
  method PutGroup(src: array<bv8>, dst: array<bv8>, si: nat, di: nat, ghost n: nat, urlsafe: bool, ghost s: Buffer)
    requires si + 3 <= |s| <= src.Length && (forall k | 0 <= k < si + 3 :: src[k] == s[k])
    requires si <= di && di + 4 <= n < dst.Length && dst[di + 4..n] == Encode(s[si + 3..], urlsafe) && dst[n] == 0
    modifies dst
    ensures dst[di..n] == Encode(s[si..], urlsafe) && dst[n] == 0
    ensures forall k | 0 <= k < di :: dst[k] == old(dst[k])
  {
    hide Encode, Letters, Triplet;
    ghost var done := dst[di + 4..n];
    PutLetters(dst, di, Triplet(src[si], src[si + 1], src[si + 2]), 4, urlsafe);
    assert dst[di + 4..n] == done;
    assert dst[di..n] == dst[di..di + 4] + dst[di + 4..n];
    EncodeStep(s, si, urlsafe, done);
  }

  /** b64encode_tinc_internal: from the end to the start, so that the source may be overwritten. */
  method B64Encode(src: array<bv8>, dst: array<bv8>, length: nat, urlsafe: bool) returns (n: nat)
    requires length <= src.Length && EncodedLength(length) < dst.Length
    modifies dst
    ensures n == EncodedLength(length) && dst[..n] == old(Encode(src[..length], urlsafe)) && dst[n] == 0
  {
    hide Encode, Letters, Triplet;
    ghost var s := src[..length];
    var si, di := length / 3 * 3, length / 3 * 4;
    assert s[si..] == src[si..length];
    n := PutTail(src, dst, si, di, length, urlsafe);
    ghost var g := length / 3;
    while si > 0
      invariant 0 <= g && si == 3 * g <= length && di == 4 * g
      invariant forall k | 0 <= k < si :: src[k] == s[k]
      invariant di <= n && dst[di..n] == Encode(s[si..], urlsafe) && dst[n] == 0
    {
      di := di - 4;
      si := si - 3;
      g := g - 1;
      PutGroup(src, dst, si, di, n, urlsafe, s);
    }
    assert s[0..] == s;
  }

  lemma EncodeTail(b: Buffer, urlsafe: bool)
    requires |b| < 3
    ensures Encode(b, urlsafe) == if |b| == 2 then Letters(Triplet(b[0], b[1], 0), 3, urlsafe)
                                  else if |b| == 1 then Letters(Triplet(b[0], 0, 0), 2, urlsafe) else []
  {
    hide Triplet, Six, Letter;
  }

  lemma EncodeStep(s: Buffer, i: nat, urlsafe: bool, done: Buffer)
    requires i + 3 <= |s| && done == Encode(s[i + 3..], urlsafe)
    ensures Letters(Triplet(s[i], s[i + 1], s[i + 2]), 4, urlsafe) + done == Encode(s[i..], urlsafe)
  {
    hide Triplet, Six, Letter;
    assert s[i..][3..] == s[i + 3..];
  }

  /** Going on from a decoded part. */
  ghost function Prepend(done: Buffer, r: Option<Buffer>): Option<Buffer> {
    if r.None? then None else Some(done + r.value)
  }

  lemma DecodeStep(s: Buffer, i: nat, done: Buffer)
    requires i + 4 <= |s| && Decode(s) == Prepend(done, Decode(s[i..]))
    ensures var t := Gathered(s[i..i + 4]);
            && (Overflows(t) ==> Decode(s) == None)
            && (!Overflows(t) ==>
                  Decode(s) == Prepend(done + [Eight(t, 0), Eight(t, 1), Eight(t, 2)], Decode(s[i + 4..])))
  {
    hide Decode, Gathered, Overflows, Eight, Prepend;
    DecodeGroup(s[i..]);
    assert s[i..][..4] == s[i..i + 4] && s[i..][4..] == s[i + 4..];
    var t := Gathered(s[i..i + 4]);
    PrependNone(done);
    PrependTwice(done, [Eight(t, 0), Eight(t, 1), Eight(t, 2)], Decode(s[i + 4..]));
  }

  lemma DecodeGroup(s: Buffer)
    requires |s| >= 4
    ensures var t := Gathered(s[..4]);
            Decode(s) == if Overflows(t) then None else Prepend([Eight(t, 0), Eight(t, 1), Eight(t, 2)], Decode(s[4..]))
  {
    hide Gathered, Overflows, Eight;
  }

  lemma PrependNone(done: Buffer)
    ensures Prepend(done, None) == None
  {
  }

  lemma PrependTwice(a: Buffer, b: Buffer, r: Option<Buffer>)
    ensures Prepend(a, Prepend(b, r)) == Prepend(a + b, r)
  {
    if r.Some? {
      assert a + (b + r.value) == a + b + r.value;
    }
  }

  lemma DecodeTail(s: Buffer, i: nat, done: Buffer)
    requires |s| - 4 < i <= |s| && Decode(s) == Prepend(done, Decode(s[i..]))
    ensures var t := Gathered(s[i..]);
            Decode(s) == if Overflows(t) then None
                         else if |s| - i == 3 then Some(done + [Eight(t, 0), Eight(t, 1)])
                         else if |s| - i == 2 then Some(done + [Eight(t, 0)])
                         else Some(done)
  {
    hide Gathered, Overflows, Eight;
    assert done + [] == done;
  }

  /** The bytes of a triplet, written one after the other. */
  method PutBytes(dst: array<bv8>, at: nat, t: bv32, n: nat)
    requires n <= 3 && at + n <= dst.Length
    modifies dst
    ensures dst[..at + n] == old(dst[..at]) + [Eight(t, 0), Eight(t, 1), Eight(t, 2)][..n]
    ensures forall k | at + n <= k < dst.Length :: dst[k] == old(dst[k])
  {
    hide Eight;
    for i := 0 to n
      invariant dst[..at + i] == old(dst[..at]) + [Eight(t, 0), Eight(t, 1), Eight(t, 2)][..i]
      invariant forall k | at + i <= k < dst.Length :: dst[k] == old(dst[k])
    {
      dst[at + i] := Eight(t, i);
      assert dst[..at + i + 1] == dst[..at + i] + [dst[at + i]];
    }
  }

  /** What is left when the string does not end with a full group. */
  method FinishDecode(dst: array<bv8>, i: nat, triplet: bv32, ghost s: Buffer, ghost g: nat) returns (n: nat)
    requires 4 * g <= i < 4 * g + 4 && i == |s| && DecodedLength(i) <= dst.Length && triplet == Gathered(s[4 * g..])
    requires Decode(s) == Prepend(dst[..3 * g], Decode(s[4 * g..]))
    modifies dst
    ensures var r := Decode(s);
            if r.None? then n == 0 else n == |r.value| && n <= dst.Length && dst[..n] == r.value
  {
    hide Decode, Gathered, Overflows, Eight;
    DecodeTail(s, 4 * g, dst[..3 * g]);
    assert i / 4 == g;
    ghost var three := [Eight(triplet, 0), Eight(triplet, 1), Eight(triplet, 2)];
    assert three[..2] == [Eight(triplet, 0), Eight(triplet, 1)] && three[..1] == [Eight(triplet, 0)];
    if Overflows(triplet) {
      return 0;
    }
    if i % 4 == 3 {
      PutBytes(dst, i / 4 * 3, triplet, 2);
      return i / 4 * 3 + 2;
    } else if i % 4 == 2 {
      PutBytes(dst, i / 4 * 3, triplet, 1);
      return i / 4 * 3 + 1;
    } else {
      return i / 4 * 3;
    }
  }

  /** b64decode_tinc: no byte is written where a character is still to be read. */
  method B64Decode(src: array<bv8>, dst: array<bv8>, length: nat) returns (n: nat)
    requires Terminated(src[..], length) && DecodedLength(|Until(src[..], length)|) <= dst.Length
    modifies dst
    ensures var r := old(Decode(Until(src[..], length)));
            if r.None? then n == 0 else n == |r.value| && n <= dst.Length && dst[..n] == r.value
  {
    hide Decode, Gathered, Overflows, Eight, Shift, Value, Until, Prepend, Terminated;
    ghost var s := Until(src[..], length);
    UntilStops(src[..], length);
    ghost var g: nat := 0;
    var i, triplet := 0, 0 as bv32;
    DecodeStart(s);
    while i < length && src[i] != 0
      invariant 0 <= i <= |s| && 4 * g <= i < 4 * g + 4 && 3 * g <= dst.Length
      invariant triplet == Gathered(s[4 * g..i])
      invariant forall k | 3 * g <= k < src.Length :: src[k] == old(src[k])
      invariant Decode(s) == Prepend(dst[..3 * g], Decode(s[4 * g..]))
      decreases |s| - i
    {
      GatheredNext(s, 4 * g, i);
      triplet := triplet | Shift(Value(src[i]), i % 4);
      if i % 4 == 3 {
        DecodeStep(s, 4 * g, dst[..3 * g]);
        if Overflows(triplet) {
          return 0;
        }
        ghost var three := [Eight(triplet, 0), Eight(triplet, 1), Eight(triplet, 2)];
        assert three[..3] == three;
        PutBytes(dst, i / 4 * 3, triplet, 3);
        triplet := 0;
        g := g + 1;
      }
      i := i + 1;
    }
    assert s[4 * g..i] == s[4 * g..];
    n := FinishDecode(dst, i, triplet, s, g);
  }

  lemma DecodeStart(s: Buffer)
    ensures Decode(s) == Prepend([], Decode(s[0..])) && Gathered(s[0..0]) == 0
  {
    assert s[0..] == s;
    assert Decode(s).Some? ==> [] + Decode(s).value == Decode(s).value;
    NothingGathered();
  }

  lemma GatheredNext(s: Buffer, from: nat, i: nat)
    requires from <= i < from + 4 && i < |s|
    ensures Gathered(s[from..i + 1]) == Gathered(s[from..i]) | Shift(Value(s[i]), i - from)
    ensures Gathered(s[i + 1..i + 1]) == 0
  {
    hide Gathered, Shift, Value;
    GatheredStep(s[from..i], s[i]);
    assert s[from..i] + [s[i]] == s[from..i + 1];
    NothingGathered();
    assert s[i + 1..i + 1] == [];
  }

  lemma UntilStops(s: Buffer, length: nat)
    requires Terminated(s, length)
    ensures var r := Until(s, length);
            && |r| <= length && |r| <= |s| && (forall k | 0 <= k < |r| :: r[k] == s[k] != 0)
            && (|r| < length ==> |r| < |s| && s[|r|] == 0)
  {
    var r := Until(s, length);
    assert forall k | 0 <= k < |r| :: r[k] == s[k] && r[k] in r;
    assert |r| == |s| ==> r == s;
  }

  predicate Known(c: bv8) {
    65 <= c <= 90 || 97 <= c <= 122 || 48 <= c <= 57 || c in [43, 45, 47, 95]
  }

  lemma OverflowMeans(s: Buffer)
    requires |s| <= 4
    ensures Overflows(Gathered(s)) <==> exists i: nat | i < |s| :: !Known(s[i])
  {
    forall i: nat | i < 4 {
      ValueKnown(s, i);
    }
    hide Known, Value;
    CombinedOverflows(ValueAt(s, 0), ValueAt(s, 1), ValueAt(s, 2), ValueAt(s, 3));
  }

  lemma ValueKnown(s: Buffer, i: nat)
    ensures if i < |s| && !Known(s[i]) then ValueAt(s, i) == 0xffff_ffff else ValueAt(s, i) < 64
  {
  }

  lemma CombinedOverflows(a: bv32, b: bv32, c: bv32, d: bv32)
    requires (a < 64 || a == 0xffff_ffff) && (b < 64 || b == 0xffff_ffff) && (c < 64 || c == 0xffff_ffff)
             && (d < 64 || d == 0xffff_ffff)
    ensures Overflows(Combined(a, b, c, d)) <==> a >= 64 || b >= 64 || c >= 64 || d >= 64
  {
  }

  /** Decoding fails exactly if the string has a character of neither alphabet. */
  lemma {:induction false} DecodeFails(s: Buffer)
    ensures Decode(s).None? <==> exists i: nat | i < |s| :: !Known(s[i])
  {
    hide Known, Gathered, Overflows, Eight;
    if |s| < 4 {
      OverflowMeans(s);
    } else {
      OverflowMeans(s[..4]);
      DecodeFails(s[4..]);
      assert forall i: nat | i < 4 :: s[..4][i] == s[i];
      assert forall i: nat | i < |s| - 4 :: s[4..][i] == s[i + 4];
      assert forall i: nat | 4 <= i < |s| :: s[i] == s[4..][i - 4];
    }
  }

  /** What decoding finds in a buffer that encoding has filled. */
  lemma Base64String(b: Buffer, urlsafe: bool, rest: Buffer, length: nat)
    requires length >= EncodedLength(|b|) && (length > EncodedLength(|b|) ==> rest != [] && rest[0] == 0)
    ensures Decode(Until(Encode(b, urlsafe) + rest, length)) == Some(b)
  {
    EncodeLength(b, urlsafe);
    UntilEncoded(Encode(b, urlsafe), rest, length);
    Base64RoundTrip(b, urlsafe);
  }
}
