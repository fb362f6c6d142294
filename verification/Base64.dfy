/** Unpadded standard base64 (sections 3.2 and 4 of RFC 4648), as Go's RawStdEncoding reads and writes it. */
module Base64 {
  import opened Channels

  type Byte = x: int | 0 <= x < 256
  type Sextet = x: int | 0 <= x < 64

  function CharOf(i: Sextet): char {
    if i < 26 then (65 + i) as char
    else if i < 52 then (71 + i) as char
    else if i < 62 then (i - 4) as char
    else if i == 62 then '+' else '/'
  }

  function SextetOf(c: char): Option<Sextet> {
    var n := c as int;
    if 65 <= n <= 90 then Some(n - 65)
    else if 97 <= n <= 122 then Some(n - 71)
    else if 48 <= n <= 57 then Some(n + 4)
    else if c == '+' then Some(62)
    else if c == '/' then Some(63)
    else None
  }

  lemma CharRoundTrip(i: Sextet)
    ensures SextetOf(CharOf(i)) == Some(i)
    ensures CharOf(i) != '$' && CharOf(i) != '\n' && CharOf(i) != '\r'
  {
  }

  function ToChars(s: seq<Sextet>): string {
    seq(|s|, i requires 0 <= i < |s| => CharOf(s[i]))
  }

  /** Three bytes become four sextets; a rest of one or two bytes becomes two or three. */
  function ToSextets(b: seq<Byte>): seq<Sextet> {
    if |b| == 0 then []
    else if |b| == 1 then [b[0] / 4, b[0] % 4 * 16]
    else if |b| == 2 then [b[0] / 4, b[0] % 4 * 16 + b[1] / 16, b[1] % 16 * 4]
    else [b[0] / 4, b[0] % 4 * 16 + b[1] / 16, b[1] % 16 * 4 + b[2] / 64, b[2] % 64] + ToSextets(b[3..])
  }

  function Encode(b: seq<Byte>): string {
    ToChars(ToSextets(b))
  }

  /** Line breaks are skipped wherever they stand. */
  function WithoutBreaks(s: string): string {
    if s == [] then []
    else (if s[0] == '\n' || s[0] == '\r' then [] else [s[0]]) + WithoutBreaks(s[1..])
  }

  function FromChars(s: string): Option<seq<Sextet>> {
    if s == [] then Some([])
    else
      match (SextetOf(s[0]), FromChars(s[1..]))
      case (Some(i), Some(rest)) => Some([i] + rest)
      case _ => None
  }

  function FirstByte(a: Sextet, b: Sextet): Byte {
    (a as int) * 4 + b / 16
  }

  function SecondByte(b: Sextet, c: Sextet): Byte {
    (b % 16) * 16 + c / 4
  }

  function ThirdByte(c: Sextet, d: Sextet): Byte {
    (c % 4) * 64 + d
  }

  /** A rest of one sextet is an error; unused low bits of a shorter rest are ignored. */
  function FromSextets(s: seq<Sextet>): Option<seq<Byte>> {
    if |s| == 0 then Some([])
    else if |s| == 1 then None
    else if |s| == 2 then Some([FirstByte(s[0], s[1])])
    else if |s| == 3 then Some([FirstByte(s[0], s[1]), SecondByte(s[1], s[2])])
    else
      match FromSextets(s[4..])
      case None => None
      case Some(rest) =>
        Some([FirstByte(s[0], s[1]), SecondByte(s[1], s[2]), ThirdByte(s[2], s[3])] + rest)
  }

  function Decode(s: string): Option<seq<Byte>> {
    match FromChars(WithoutBreaks(s))
    case None => None
    case Some(sextets) => FromSextets(sextets)
  }

  lemma TripleRoundTrip(x: Byte, y: Byte, z: Byte)
    ensures FirstByte(x / 4, x % 4 * 16 + y / 16) == x
    ensures SecondByte(x % 4 * 16 + y / 16, y % 16 * 4 + z / 64) == y
    ensures ThirdByte(y % 16 * 4 + z / 64, z % 64) == z
  {
  }

  lemma FourMore(a: Sextet, b: Sextet, c: Sextet, d: Sextet, rest: seq<Sextet>)
    ensures FromSextets([a, b, c, d] + rest) ==
            match FromSextets(rest)
            case None => None
            case Some(bytes) => Some([FirstByte(a, b), SecondByte(b, c), ThirdByte(c, d)] + bytes)
  {
    assert ([a, b, c, d] + rest)[4..] == rest;
  }

  lemma {:induction false} SextetsRoundTrip(b: seq<Byte>)
    ensures FromSextets(ToSextets(b)) == Some(b)
  {
    if |b| >= 3 {
      var x, y, z := b[0], b[1], b[2];
      TripleRoundTrip(x, y, z);
      SextetsRoundTrip(b[3..]);
      FourMore(x / 4, x % 4 * 16 + y / 16, y % 16 * 4 + z / 64, z % 64, ToSextets(b[3..]));
      assert b == [x, y, z] + b[3..];
    } else {
      assert |b| == 2 ==> b == [b[0], b[1]];
      assert |b| == 1 ==> b == [b[0]];
    }
  }

  lemma {:induction false} CharsRoundTrip(s: seq<Sextet>)
    ensures FromChars(ToChars(s)) == Some(s)
    ensures WithoutBreaks(ToChars(s)) == ToChars(s)
  {
    if s != [] {
      CharRoundTrip(s[0]);
      assert ToChars(s)[1..] == ToChars(s[1..]);
      CharsRoundTrip(s[1..]);
      assert s == [s[0]] + s[1..];
      assert ToChars(s) == [CharOf(s[0])] + ToChars(s[1..]);
    }
  }

  /** Decoding undoes encoding, for every length. */
  lemma RoundTrip(b: seq<Byte>)
    ensures Decode(Encode(b)) == Some(b)
  {
    CharsRoundTrip(ToSextets(b));
    SextetsRoundTrip(b);
  }

  lemma NoDollar(b: seq<Byte>)
    ensures '$' !in Encode(b)
  {
    forall i | 0 <= i < |ToSextets(b)| ensures Encode(b)[i] != '$' {
      CharRoundTrip(ToSextets(b)[i]);
    }
  }

  // ---------- The alphabet and the bits ----------

  predicate InAlphabet(c: char) {
    'A' <= c <= 'Z' || 'a' <= c <= 'z' || '0' <= c <= '9' || c == '+' || c == '/'
  }

  /** The alphabet in the order of table 1: capital letters, small letters, digits, plus, slash. */
  lemma AlphabetInOrder(i: Sextet)
    ensures i < 26 ==> CharOf(i) as int == 'A' as int + i
    ensures 26 <= i < 52 ==> CharOf(i) as int == 'a' as int + i - 26
    ensures 52 <= i < 62 ==> CharOf(i) as int == '0' as int + i - 52
    ensures i == 62 ==> CharOf(i) == '+'
    ensures i == 63 ==> CharOf(i) == '/'
  {
  }

  /** Three bytes as one number of 24 bits; bytes that are missing at the end count as zero. */
  function Group(b: seq<Byte>, start: nat): int
    requires start < |b|
  {
    (b[start] as int) * 65536
    + (if start + 1 < |b| then (b[start + 1] as int) * 256 else 0)
    + if start + 2 < |b| then b[start + 2] as int else 0
  }

  /** The k-th of the four sextets of a group, highest bits first. */
  function Bits(group: int, k: nat): int {
    if k == 0 then group / 262144 % 64
    else if k == 1 then group / 4096 % 64
    else if k == 2 then group / 64 % 64
    else group % 64
  }

  lemma GroupBits(x: Byte, y: Byte, z: Byte)
    ensures
      var group := (x as int) * 65536 + (y as int) * 256 + z;
      && x / 4 == Bits(group, 0)
      && x % 4 * 16 + y / 16 == Bits(group, 1)
      && y % 16 * 4 + z / 64 == Bits(group, 2)
      && z % 64 == Bits(group, 3)
  {
    FourSextets(x / 4, x % 4 * 16 + y / 16, y % 16 * 4 + z / 64, z % 64);
  }

  lemma FourSextets(a: Sextet, b: Sextet, c: Sextet, d: Sextet)
    ensures
      var group := (a as int) * 262144 + (b as int) * 4096 + (c as int) * 64 + d;
      Bits(group, 0) == a && Bits(group, 1) == b && Bits(group, 2) == c && Bits(group, 3) == d
  {
    var group := (a as int) * 262144 + (b as int) * 4096 + (c as int) * 64 + d;
    assert group / 262144 == a;
    assert group / 4096 == (a as int) * 64 + b;
    assert group / 64 == (a as int) * 4096 + (b as int) * 64 + c;
  }

  /** Sextet k is the one that stands there in its group. */
  ghost predicate IsSextetAt(b: seq<Byte>, k: nat, sextet: Sextet) {
    k / 4 * 3 < |b| && sextet == Bits(Group(b, k / 4 * 3), k % 4)
  }

  lemma ShiftedSextet(b: seq<Byte>, k: nat, sextet: Sextet)
    requires |b| >= 3 && IsSextetAt(b[3..], k, sextet)
    ensures IsSextetAt(b, k + 4, sextet)
  {
    assert (k + 4) / 4 * 3 == k / 4 * 3 + 3 && (k + 4) % 4 == k % 4;
    assert Group(b[3..], k / 4 * 3) == Group(b, k / 4 * 3 + 3);
  }

  /** Sextet k of the encoding holds the bits that stand there, and there are as many sextets as it takes
      for the bits. */
  lemma {:induction false} SextetsAreBits(b: seq<Byte>)
    ensures |ToSextets(b)| == (4 * |b| + 2) / 3
    ensures forall k :: 0 <= k < |ToSextets(b)| ==> IsSextetAt(b, k, ToSextets(b)[k])
  {
    if |b| >= 3 {
      SextetsAreBits(b[3..]);
      forall k | 0 <= k < |ToSextets(b)|
        ensures IsSextetAt(b, k, ToSextets(b)[k])
      {
        if k >= 4 {
          assert ToSextets(b)[k] == ToSextets(b[3..])[k - 4];
          ShiftedSextet(b, k - 4, ToSextets(b)[k]);
        } else {
          GroupBits(b[0], b[1], b[2]);
        }
      }
    } else if |b| > 0 {
      GroupBits(b[0], if |b| == 2 then b[1] else 0, 0);
    }
  }

  // ---------- What decodes ----------

  predicate IsBreak(c: char) {
    c == '\n' || c == '\r'
  }

  lemma {:induction false} BreaksDropped(s: string)
    ensures |WithoutBreaks(s)| == |s| - multiset(s)['\n'] - multiset(s)['\r']
    ensures forall c :: c in WithoutBreaks(s) <==> c in s && !IsBreak(c)
  {
    if s != [] {
      BreaksDropped(s[1..]);
      assert s == [s[0]] + s[1..];
      assert multiset(s) == multiset{s[0]} + multiset(s[1..]);
    }
  }

  lemma CharDecodesIff(c: char)
    ensures SextetOf(c).Some? <==> InAlphabet(c)
  {
  }

  lemma {:induction false} CharsDecodeIff(s: string)
    ensures FromChars(s).Some? <==> forall c :: c in s ==> InAlphabet(c)
    ensures FromChars(s).Some? ==> |FromChars(s).value| == |s|
  {
    if s != [] {
      CharsDecodeIff(s[1..]);
      CharDecodesIff(s[0]);
      assert s == [s[0]] + s[1..];
      assert s[0] in s;
    }
  }

  lemma {:induction false} SextetsDecodeIff(s: seq<Sextet>)
    ensures FromSextets(s).Some? <==> |s| % 4 != 1
  {
    if |s| >= 4 {
      SextetsDecodeIff(s[4..]);
      FourLess(|s|);
    }
  }

  lemma FourLess(n: nat)
    requires n >= 4
    ensures (n - 4) % 4 == n % 4
  {
  }

  /** A text decodes if and only if, line breaks aside, it has only characters of the alphabet and their
      number is not one more than a multiple of four. */
  lemma DecodesIff(s: string)
    ensures Decode(s).Some? <==>
            (forall c :: c in s ==> InAlphabet(c) || IsBreak(c)) &&
            (|s| - multiset(s)['\n'] - multiset(s)['\r']) % 4 != 1
  {
    BreaksDropped(s);
    CharsDecodeIff(WithoutBreaks(s));
    if FromChars(WithoutBreaks(s)).Some? {
      SextetsDecodeIff(FromChars(WithoutBreaks(s)).value);
    }
    if Decode(s).Some? {
      forall c | c in s ensures InAlphabet(c) || IsBreak(c) {
        assert !IsBreak(c) ==> c in WithoutBreaks(s);
      }
    }
  }

  /** The sextets with the unused low bits of a shorter rest set to zero. */
  function Cleared(s: seq<Sextet>): seq<Sextet> {
    if |s| < 2 then s
    else if |s| == 2 then [s[0], s[1] / 16 * 16]
    else if |s| == 3 then [s[0], s[1], s[2] / 4 * 4]
    else s[..4] + Cleared(s[4..])
  }

  lemma BytesAndBack(a: Sextet, b: Sextet, c: Sextet, d: Sextet)
    ensures
      var x, y, z := FirstByte(a, b), SecondByte(b, c), ThirdByte(c, d);
      && x / 4 == a && x % 4 * 16 == b / 16 * 16 && x % 4 * 16 + y / 16 == b
      && y % 16 * 4 == c / 4 * 4 && y % 16 * 4 + z / 64 == c && z % 64 == d
  {
  }

  /** Whatever decodes, canonical or not, decodes to the bytes whose encoding it is but for unused bits. */
  lemma {:induction false} DecodedBits(s: seq<Sextet>)
    requires FromSextets(s).Some?
    ensures ToSextets(FromSextets(s).value) == Cleared(s)
  {
    if |s| == 2 {
      BytesAndBack(s[0], s[1], 0, 0);
    } else if |s| == 3 {
      BytesAndBack(s[0], s[1], s[2], 0);
    } else if |s| >= 4 {
      DecodedBits(s[4..]);
      BytesAndBack(s[0], s[1], s[2], s[3]);
      var rest := FromSextets(s[4..]).value;
      var b := FromSextets(s).value;
      assert b[3..] == rest;
      assert s[..4] == [s[0], s[1], s[2], s[3]];
    }
  }
}
