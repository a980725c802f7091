/**
  Base64 as the token request builds its Basic credential (`base64Encode`,
  UPSValidation.js:491-519), next to the encoding of section 4 of RFC 4648 it
  implements and a decoder for that encoding.
*/
module Base64 {
  import opened Wrappers
  import Bits

  /** The encoder's 65-character table: 64 digits, then the pad character at index 64. */
  const Alphabet: string := "ABCDEFGHIJKLMNOPQRSTUVWXYZ" + "abcdefghijklmnopqrstuvwxyz" + "0123456789" + "+/="

  const PadIndex: nat := 64

  /** Table 1 of RFC 4648 (the Base64 alphabet), by ranges. */
  function Digit(v: int): char
    requires 0 <= v < 64
  {
    if v < 26 then ('A' as int + v) as char
    else if v < 52 then ('a' as int + v - 26) as char
    else if v < 62 then ('0' as int + v - 52) as char
    else if v == 62 then '+'
    else '/'
  }

  /** The encoder's table holds the RFC alphabet in order, followed by '='. */
  lemma AlphabetIsTable(v: int)
    requires 0 <= v <= PadIndex
    ensures v < PadIndex ==> Alphabet[v] == Digit(v)
    ensures v == PadIndex ==> Alphabet[v] == '='
  {
    // one case per position, so that each index of the literal is evaluated
    assert v == 0 || v == 1 || v == 2 || v == 3 || v == 4 || v == 5 || v == 6 || v == 7
        || v == 8 || v == 9 || v == 10 || v == 11 || v == 12 || v == 13 || v == 14 || v == 15
        || v == 16 || v == 17 || v == 18 || v == 19 || v == 20 || v == 21 || v == 22 || v == 23
        || v == 24 || v == 25 || v == 26 || v == 27 || v == 28 || v == 29 || v == 30 || v == 31
        || v == 32 || v == 33 || v == 34 || v == 35 || v == 36 || v == 37 || v == 38 || v == 39
        || v == 40 || v == 41 || v == 42 || v == 43 || v == 44 || v == 45 || v == 46 || v == 47
        || v == 48 || v == 49 || v == 50 || v == 51 || v == 52 || v == 53 || v == 54 || v == 55
        || v == 56 || v == 57 || v == 58 || v == 59 || v == 60 || v == 61 || v == 62 || v == 63
        || v == 64;
  }

  /** No digit is the pad character, and distinct values have distinct digits. */
  lemma DigitFacts(v: int, w: int)
    requires 0 <= v < 64 && 0 <= w < 64
    ensures Digit(v) != '='
    ensures Digit(v) == Digit(w) ==> v == w
  {
  }

  /** The decoder's inverse of Table 1: the value of a digit, None for anything else. */
  function ValueOf(c: char): (r: Option<nat>)
    ensures r.Some? ==> r.value < 64 && Digit(r.value) == c
    ensures r.None? ==> forall v | 0 <= v < 64 :: Digit(v) != c
  {
    if 'A' <= c <= 'Z' then Some(c as int - 'A' as int)
    else if 'a' <= c <= 'z' then Some(c as int - 'a' as int + 26)
    else if '0' <= c <= '9' then Some(c as int - '0' as int + 52)
    else if c == '+' then Some(62)
    else if c == '/' then Some(63)
    else None
  }

  lemma ValueOfDigit(v: int)
    requires 0 <= v < 64
    ensures ValueOf(Digit(v)) == Some(v)
  {
    var r := ValueOf(Digit(v));
    assert r.Some?;
    DigitFacts(v, r.value);
  }

  predicate IsByteString(s: string) {
    forall i | 0 <= i < |s| :: s[i] as int < 256
  }

  /** The 24-bit input group of RFC 4648 section 4: three octets, most significant first. */
  function GroupValue(a: int, b: int, c: int): int {
    a * 65536 + b * 256 + c
  }

  /** The `j`-th 6-bit group (from the left) of a 24-bit value. */
  function Sextet(n: int, j: int): (r: int)
    requires 0 <= n < 0x100_0000 && 0 <= j < 4
    ensures 0 <= r < 64
  {
    if j == 0 then n / 262144
    else if j == 1 then (n / 4096) % 64
    else if j == 2 then (n / 64) % 64
    else n % 64
  }

  /** Number of '=' that close the encoding of `n` octets. */
  function PadLength(n: nat): nat {
    (3 - n % 3) % 3
  }

  /**
    The output quantum of a group holding `octets` input octets: `octets + 1`
    digits, then '=' up to four characters.
  */
  function Quantum(n: int, octets: int): (q: string)
    requires 0 <= n < 0x100_0000 && 1 <= octets <= 3
    ensures |q| == 4
  {
    [Digit(Sextet(n, 0)), Digit(Sextet(n, 1)),
     if octets >= 2 then Digit(Sextet(n, 2)) else '=',
     if octets == 3 then Digit(Sextet(n, 3)) else '=']
  }

  /** The Base64 encoding of section 4 of RFC 4648, one quantum per three octets. */
  function Std(s: string): string
    requires IsByteString(s)
    decreases |s|
  {
    if |s| == 0 then ""
    else if |s| == 1 then Quantum(GroupValue(s[0] as int, 0, 0), 1)
    else if |s| == 2 then Quantum(GroupValue(s[0] as int, s[1] as int, 0), 2)
    else Quantum(GroupValue(s[0] as int, s[1] as int, s[2] as int), 3) + Std(s[3..])
  }

  // ---------------------------------------------------------------- decoding

  /** The 24-bit value four 6-bit groups spell. */
  function Combine(v0: int, v1: int, v2: int, v3: int): int {
    v0 * 262144 + v1 * 4096 + v2 * 64 + v3
  }

  function Octet(x: int): char
    requires 0 <= x < 256
  {
    x as char
  }

  /** The octets one four-character quantum stands for, None if it is malformed. */
  function DecodeQuantum(q: string): Option<string>
    requires |q| == 4
  {
    var v0, v1, v2, v3 := ValueOf(q[0]), ValueOf(q[1]), ValueOf(q[2]), ValueOf(q[3]);
    if v0.None? || v1.None? then None
    else if q[2] == '=' && q[3] == '=' then
      var n := Combine(v0.value, v1.value, 0, 0);
      Some([Octet(n / 65536)])
    else if v2.Some? && q[3] == '=' then
      var n := Combine(v0.value, v1.value, v2.value, 0);
      Some([Octet(n / 65536), Octet((n / 256) % 256)])
    else if v2.Some? && v3.Some? then
      var n := Combine(v0.value, v1.value, v2.value, v3.value);
      Some([Octet(n / 65536), Octet((n / 256) % 256), Octet(n % 256)])
    else None
  }

  /** A standard Base64 decoder: padding may only close the last quantum. */
  function Decode(s: string): Option<string>
    decreases |s|
  {
    if |s| == 0 then Some("")
    else if |s| < 4 then None
    else match DecodeQuantum(s[..4])
      case None => None
      case Some(octets) =>
        if |octets| < 3 && |s| > 4 then None
        else match Decode(s[4..])
          case None => None
          case Some(rest) => Some(octets + rest)
  }

  /** The four 6-bit groups of a 24-bit value spell that value again. */
  lemma SextetsCombine(n: int)
    requires 0 <= n < 0x100_0000
    ensures Combine(Sextet(n, 0), Sextet(n, 1), Sextet(n, 2), Sextet(n, 3)) == n
  {
    var q1, r1 := n / 64, n % 64;
    Bits.DivMod(n, 64);
    var q2, r2 := q1 / 64, q1 % 64;
    Bits.DivMod(q1, 64);
    var q3, r3 := q2 / 64, q2 % 64;
    Bits.DivMod(q2, 64);
    assert n == 262144 * q3 + 4096 * r3 + 64 * r2 + r1;
    Bits.DivModUnique(n, 4096, 64 * q3 + r3, 64 * r2 + r1);
    Bits.DivModUnique(64 * q3 + r3, 64, q3, r3);
    Bits.DivModUnique(n, 262144, q3, 4096 * r3 + 64 * r2 + r1);
  }

  /** The octets of a group are recovered from its 24-bit value. */
  lemma GroupOctets(a: int, b: int, c: int)
    requires 0 <= a < 256 && 0 <= b < 256 && 0 <= c < 256
    ensures GroupValue(a, b, c) / 65536 == a
    ensures (GroupValue(a, b, c) / 256) % 256 == b
    ensures GroupValue(a, b, c) % 256 == c
  {
    var n := GroupValue(a, b, c);
    Bits.DivModUnique(n, 65536, a, b * 256 + c);
    Bits.DivModUnique(n, 256, a * 256 + b, c);
    Bits.DivModUnique(a * 256 + b, 256, a, b);
  }

  /** A group of fewer than three octets leaves the unused 6-bit groups zero. */
  lemma ShortGroupSextets(a: int, b: int)
    requires 0 <= a < 256 && 0 <= b < 256
    ensures Sextet(GroupValue(a, b, 0), 3) == 0
    ensures b == 0 ==> Sextet(GroupValue(a, b, 0), 2) == 0
  {
    var n := GroupValue(a, b, 0);
    Bits.DivModUnique(n, 64, 1024 * a + 4 * b, 0);
    if b == 0 {
      Bits.DivModUnique(1024 * a, 64, 16 * a, 0);
    }
  }

  /** Decoding the quantum of a group gives back the group's octets. */
  lemma QuantumRoundTrip(a: int, b: int, c: int, octets: int)
    requires 0 <= a < 256 && 0 <= b < 256 && 0 <= c < 256 && 1 <= octets <= 3
    requires octets < 3 ==> c == 0
    requires octets < 2 ==> b == 0
    ensures DecodeQuantum(Quantum(GroupValue(a, b, c), octets)) ==
      Some(if octets == 1 then [a as char] else if octets == 2 then [a as char, b as char] else [a as char, b as char, c as char])
  {
    var n := GroupValue(a, b, c);
    var q := Quantum(n, octets);
    ValueOfDigit(Sextet(n, 0));
    ValueOfDigit(Sextet(n, 1));
    ValueOfDigit(Sextet(n, 2));
    ValueOfDigit(Sextet(n, 3));
    DigitFacts(Sextet(n, 2), 0);
    DigitFacts(Sextet(n, 3), 0);
    SextetsCombine(n);
    GroupOctets(a, b, c);
    if octets < 3 {
      ShortGroupSextets(a, b);
    }
  }

  // ------------------------------------------------- properties of the encoding

  /** Every three octets, and a final one or two, become four characters. */
  lemma {:induction false} StdLength(s: string)
    requires IsByteString(s)
    ensures |Std(s)| == 4 * ((|s| + 2) / 3)
    decreases |s|
  {
    if |s| >= 3 {
      StdLength(s[3..]);
      var q := Quantum(GroupValue(s[0] as int, s[1] as int, s[2] as int), 3);
      assert Std(s) == q + Std(s[3..]);
      assert (|s| + 2) / 3 == (|s| - 1) / 3 + 1;
    } else if |s| > 0 {
      assert (|s| + 2) / 3 == 1;
    }
  }

  /** '=' appears exactly in the last `PadLength(|s|)` positions of the encoding. */
  lemma {:induction false} StdPadding(s: string)
    requires IsByteString(s)
    ensures forall k | 0 <= k < |Std(s)| :: Std(s)[k] == '=' <==> k >= |Std(s)| - PadLength(|s|)
    decreases |s|
  {
    var r := Std(s);
    StdLength(s);
    if |s| == 0 {
    } else if |s| < 3 {
      var n := if |s| == 1 then GroupValue(s[0] as int, 0, 0) else GroupValue(s[0] as int, s[1] as int, 0);
      DigitFacts(Sextet(n, 0), 0);
      DigitFacts(Sextet(n, 1), 0);
      DigitFacts(Sextet(n, 2), 0);
    } else {
      var n := GroupValue(s[0] as int, s[1] as int, s[2] as int);
      var q := Quantum(n, 3);
      var rest := Std(s[3..]);
      StdPadding(s[3..]);
      StdLength(s[3..]);
      assert r == q + rest;
      assert PadLength(|s| - 3) == PadLength(|s|);
      forall k | 0 <= k < |r|
        ensures r[k] == '=' <==> k >= |r| - PadLength(|s|)
      {
        if k < 4 {
          DigitFacts(Sextet(n, k), 0);
          assert r[k] == q[k] == Digit(Sextet(n, k));
        } else {
          assert r[k] == rest[k - 4];
        }
      }
    }
  }

  /** The pad never takes either of the first two positions of a quantum. */
  lemma NoPadInQuantumHead(s: string)
    requires IsByteString(s)
    ensures forall k | 0 <= k < |Std(s)| && k % 4 < 2 :: Std(s)[k] != '='
  {
    StdLength(s);
    StdPadding(s);
    var m := (|s| + 2) / 3;
    forall k | 0 <= k < |Std(s)| && k % 4 < 2
      ensures Std(s)[k] != '='
    {
      if k >= 4 * m - 2 {
        Bits.DivModUnique(k, 4, m - 1, k - 4 * (m - 1));
      }
    }
  }

  /** Every character of the encoding comes from the encoder's table. */
  lemma {:induction false} StdAlphabet(s: string)
    requires IsByteString(s)
    ensures forall k | 0 <= k < |Std(s)| :: Std(s)[k] in Alphabet
    decreases |s|
  {
    if |s| > 0 {
      var n := if |s| == 1 then GroupValue(s[0] as int, 0, 0)
               else if |s| == 2 then GroupValue(s[0] as int, s[1] as int, 0)
               else GroupValue(s[0] as int, s[1] as int, s[2] as int);
      var octets := if |s| < 3 then |s| else 3;
      var q := Quantum(n, octets);
      var rest := if |s| < 3 then "" else Std(s[3..]);
      if |s| >= 3 {
        StdAlphabet(s[3..]);
      }
      assert Std(s) == q + rest;
      forall k | 0 <= k < 4
        ensures q[k] in Alphabet
      {
        AlphabetIsTable(Sextet(n, k));
        AlphabetIsTable(PadIndex);
      }
      forall k | 0 <= k < |Std(s)|
        ensures Std(s)[k] in Alphabet
      {
        if k >= 4 {
          assert Std(s)[k] == rest[k - 4];
        }
      }
    }
  }

  /** A string of a single well-formed quantum decodes to that quantum's octets. */
  lemma DecodeOneQuantum(q: string)
    requires |q| == 4 && DecodeQuantum(q).Some?
    ensures Decode(q) == DecodeQuantum(q)
  {
    assert q[..4] == q && q[4..] == "";
    assert Decode(q[4..]) == Some("");
    var o := DecodeQuantum(q).value;
    assert o + "" == o;
  }

  /** The round trip for a final group of one octet, padded with "==". */
  lemma DecodeOneOctet(s: string)
    requires IsByteString(s) && |s| == 1
    ensures Decode(Std(s)) == Some(s)
  {
    var q := Quantum(GroupValue(s[0] as int, 0, 0), 1);
    assert Std(s) == q;
    QuantumRoundTrip(s[0] as int, 0, 0, 1);
    DecodeOneQuantum(q);
    assert [s[0] as int as char] == s;
  }

  /** The round trip for a final group of two octets, padded with "=". */
  lemma DecodeTwoOctets(s: string)
    requires IsByteString(s) && |s| == 2
    ensures Decode(Std(s)) == Some(s)
  {
    var q := Quantum(GroupValue(s[0] as int, s[1] as int, 0), 2);
    assert Std(s) == q;
    QuantumRoundTrip(s[0] as int, s[1] as int, 0, 2);
    DecodeOneQuantum(q);
    assert [s[0] as int as char, s[1] as int as char] == s;
  }

  /** Decoding the encoding of any octet string gives that string back. */
  lemma {:induction false} DecodeStd(s: string)
    requires IsByteString(s)
    ensures Decode(Std(s)) == Some(s)
    decreases |s|
  {
    if |s| == 0 {
    } else if |s| == 1 {
      DecodeOneOctet(s);
    } else if |s| == 2 {
      DecodeTwoOctets(s);
    } else {
      var r := Std(s);
      var q := Quantum(GroupValue(s[0] as int, s[1] as int, s[2] as int), 3);
      QuantumRoundTrip(s[0] as int, s[1] as int, s[2] as int, 3);
      DecodeStd(s[3..]);
      assert r == q + Std(s[3..]);
      assert r[..4] == q && r[4..] == Std(s[3..]);
      assert [s[0] as int as char, s[1] as int as char, s[2] as int as char] + s[3..] == s;
    }
  }

  /**
    What the encoding `e` of an octet string `s` promises: it decodes back to `s`, it has
    four characters per started group of three octets, every character is from the
    table, and '=' fills exactly the padding positions at the end.
  */
  predicate IsEncodingOf(e: string, s: string) {
    && Decode(e) == Some(s)
    && |e| == 4 * ((|s| + 2) / 3)
    && (forall k | 0 <= k < |e| :: e[k] in Alphabet)
    && (forall k | 0 <= k < |e| :: e[k] == '=' <==> k >= |e| - PadLength(|s|))
  }

  /** The properties of the encoding together: round trip, length, table characters, padding. */
  lemma StdFacts(s: string)
    requires IsByteString(s)
    ensures IsEncodingOf(Std(s), s)
  {
    DecodeStd(s);
    StdLength(s);
    StdAlphabet(s);
    StdPadding(s);
  }

  // ------------------------------------------------ the source's encoder loop

  /** `str.charCodeAt(i)`: the code unit at `i`, or NaN (None) past the end. */
  function CharCodeAt(s: string, i: nat): Option<nat> {
    if i < |s| then Some(s[i] as int) else None
  }

  /** The operand a bitwise operator sees: NaN converts to 0. */
  function BitOperand(x: Option<nat>): nat {
    x.GetOr(0)
  }

  /** `keyStr.charAt(k)`: one character, or the empty string past the end. */
  function CharAt(s: string, k: nat): string {
    if k < |s| then [s[k]] else ""
  }

  /** The shift amounts and masks of the loop, as powers of two. */
  lemma Pow2Values()
    ensures Bits.Pow2(2) == 4 && Bits.Pow2(4) == 16 && Bits.Pow2(6) == 64
    ensures forall x: nat {:trigger Bits.Shr(x, 2)} :: Bits.Shr(x, 2) == x / 4
    ensures forall x: nat {:trigger Bits.Shr(x, 4)} :: Bits.Shr(x, 4) == x / 16
    ensures forall x: nat {:trigger Bits.Shr(x, 6)} :: Bits.Shr(x, 6) == x / 64
  {
    assert Bits.Pow2(1) == 2;
    assert Bits.Pow2(3) == 8;
    assert Bits.Pow2(5) == 32;
    forall x: nat
      ensures Bits.Shr(x, 2) == x / 4 && Bits.Shr(x, 4) == x / 16 && Bits.Shr(x, 6) == x / 64
    {
      Bits.ShrIsDiv(x, 2);
      Bits.ShrIsDiv(x, 4);
      Bits.ShrIsDiv(x, 6);
    }
  }

  /** `chr1 >> 2` is the first 6-bit group. */
  lemma FirstSextet(a: nat, b: nat, c: nat)
    requires a < 256 && b < 256 && c < 256
    ensures Bits.Shr(a, 2) == Sextet(GroupValue(a, b, c), 0)
  {
    Pow2Values();
    Bits.DivMod(a, 4);
    Bits.DivModUnique(GroupValue(a, b, c), 262144, a / 4, 65536 * (a % 4) + 256 * b + c);
  }

  /** `((chr1 & 3) << 4) | (chr2 >> 4)` is the second 6-bit group. */
  lemma SecondSextet(a: nat, b: nat, c: nat)
    requires a < 256 && b < 256 && c < 256
    ensures Bits.Or(Bits.Shl(Bits.And(a, 3), 4), Bits.Shr(b, 4)) == Sextet(GroupValue(a, b, c), 1)
  {
    var n := GroupValue(a, b, c);
    Pow2Values();
    Bits.AndLowMask(a, 2);
    Bits.DivMod(a, 4);
    Bits.DivMod(b, 16);
    Bits.OrDisjoint(a % 4, b / 16, 4);
    assert Bits.Shl(Bits.And(a, 3), 4) == (a % 4) * Bits.Pow2(4);
    assert Bits.Shr(b, 4) == b / 16;
    Bits.DivModUnique(n, 4096, 16 * a + b / 16, 256 * (b % 16) + c);
    Bits.DivModUnique(16 * a + b / 16, 64, a / 4, 16 * (a % 4) + b / 16);
  }

  /** `((chr2 & 15) << 2) | (chr3 >> 6)` is the third 6-bit group. */
  lemma ThirdSextet(a: nat, b: nat, c: nat)
    requires a < 256 && b < 256 && c < 256
    ensures Bits.Or(Bits.Shl(Bits.And(b, 15), 2), Bits.Shr(c, 6)) == Sextet(GroupValue(a, b, c), 2)
  {
    var n := GroupValue(a, b, c);
    Pow2Values();
    Bits.AndLowMask(b, 4);
    Bits.DivMod(b, 16);
    Bits.DivMod(c, 64);
    Bits.OrDisjoint(b % 16, c / 64, 2);
    assert Bits.Shl(Bits.And(b, 15), 2) == (b % 16) * Bits.Pow2(2);
    assert Bits.Shr(c, 6) == c / 64;
    Bits.DivModUnique(n, 64, 1024 * a + 4 * b + c / 64, c % 64);
    Bits.DivModUnique(1024 * a + 4 * b + c / 64, 64, 16 * a + b / 16, 4 * (b % 16) + c / 64);
  }

  /** `chr3 & 63` is the fourth 6-bit group. */
  lemma FourthSextet(a: nat, b: nat, c: nat)
    requires a < 256 && b < 256 && c < 256
    ensures Bits.And(c, 63) == Sextet(GroupValue(a, b, c), 3)
  {
    Pow2Values();
    Bits.AndLowMask(c, 6);
    Bits.DivMod(c, 64);
    Bits.DivModUnique(GroupValue(a, b, c), 64, 1024 * a + 4 * b + c / 64, c % 64);
  }

  /** The four characters one iteration of the loop appends, for an input group starting at `i`. */
  lemma LoopQuantum(str: string, i: nat)
    requires IsByteString(str) && i < |str|
    ensures
      var a, b, c := BitOperand(CharCodeAt(str, i)), BitOperand(CharCodeAt(str, i + 1)), BitOperand(CharCodeAt(str, i + 2));
      var octets := if |str| - i >= 3 then 3 else |str| - i;
      && (octets < 3 ==> c == 0) && (octets < 2 ==> b == 0)
      && Std(str[i..]) == Quantum(GroupValue(a, b, c), octets) + Std(str[i + octets..])
  {
    var t := str[i..];
    assert IsByteString(t);
    if |t| >= 3 {
      assert t[3..] == str[i + 3..];
    } else {
      assert str[i + |t|..] == "";
    }
  }

  /**
    The four table indices of one loop iteration (lines 502-511): shifts and
    masks of the three code units, and 64 (the pad) for a missing second or third one.
  */
  function LoopIndices(chr1: Option<nat>, chr2: Option<nat>, chr3: Option<nat>): (nat, nat, nat, nat) {
    var c1, c2, c3 := BitOperand(chr1), BitOperand(chr2), BitOperand(chr3);
    var enc1 := Bits.Shr(c1, 2);
    var enc2 := Bits.Or(Bits.Shl(Bits.And(c1, 3), 4), Bits.Shr(c2, 4));
    var enc3 := if chr2.None? then PadIndex else Bits.Or(Bits.Shl(Bits.And(c2, 15), 2), Bits.Shr(c3, 6));
    var enc4 := if chr2.None? || chr3.None? then PadIndex else Bits.And(c3, 63);
    (enc1, enc2, enc3, enc4)
  }

  /** The four characters one loop iteration appends (lines 513-515). */
  function LoopGroup(chr1: Option<nat>, chr2: Option<nat>, chr3: Option<nat>): string {
    var (enc1, enc2, enc3, enc4) := LoopIndices(chr1, chr2, chr3);
    CharAt(Alphabet, enc1) + CharAt(Alphabet, enc2) + CharAt(Alphabet, enc3) + CharAt(Alphabet, enc4)
  }

  /** The indices of one iteration are the 6-bit groups of the group it read, or the pad index. */
  lemma LoopIndicesAreSextets(chr1: Option<nat>, chr2: Option<nat>, chr3: Option<nat>)
    requires chr1.Some? && chr1.value < 256
    requires chr2.Some? ==> chr2.value < 256
    requires chr3.Some? ==> chr3.value < 256 && chr2.Some?
    ensures
      var n := GroupValue(BitOperand(chr1), BitOperand(chr2), BitOperand(chr3));
      LoopIndices(chr1, chr2, chr3) ==
        (Sextet(n, 0), Sextet(n, 1),
         if chr2.Some? then Sextet(n, 2) else PadIndex,
         if chr3.Some? then Sextet(n, 3) else PadIndex)
  {
    var c1, c2, c3 := BitOperand(chr1), BitOperand(chr2), BitOperand(chr3);
    FirstSextet(c1, c2, c3);
    SecondSextet(c1, c2, c3);
    ThirdSextet(c1, c2, c3);
    FourthSextet(c1, c2, c3);
  }

  /** `keyStr.charAt(k)` for an index of the table: a digit of Table 1, or the pad. */
  lemma TableChar(k: nat)
    requires k <= PadIndex
    ensures CharAt(Alphabet, k) == [if k < PadIndex then Digit(k) else '=']
  {
    AlphabetIsTable(k);
  }

  /** The characters of one iteration are the quantum of the group it read. */
  lemma LoopGroupChars(chr1: Option<nat>, chr2: Option<nat>, chr3: Option<nat>)
    requires chr1.Some? && chr1.value < 256
    requires chr2.Some? ==> chr2.value < 256
    requires chr3.Some? ==> chr3.value < 256 && chr2.Some?
    ensures
      var octets := if chr2.None? then 1 else if chr3.None? then 2 else 3;
      LoopGroup(chr1, chr2, chr3) ==
        Quantum(GroupValue(BitOperand(chr1), BitOperand(chr2), BitOperand(chr3)), octets)
  {
    LoopIndicesAreSextets(chr1, chr2, chr3);
    var (e1, e2, e3, e4) := LoopIndices(chr1, chr2, chr3);
    TableChar(e1);
    TableChar(e2);
    TableChar(e3);
    TableChar(e4);
  }

  /** One iteration appends the next quantum of the standard encoding. */
  lemma LoopGroupIsQuantum(str: string, i: nat)
    requires IsByteString(str) && i < |str|
    ensures
      var octets := if |str| - i >= 3 then 3 else |str| - i;
      Std(str[i..]) == LoopGroup(CharCodeAt(str, i), CharCodeAt(str, i + 1), CharCodeAt(str, i + 2)) + Std(str[i + octets..])
  {
    LoopQuantum(str, i);
    LoopGroupChars(CharCodeAt(str, i), CharCodeAt(str, i + 1), CharCodeAt(str, i + 2));
  }

  /** The input the loop has not consumed once its index is `i` (which may pass the end by up to two). */
  function Remaining(str: string, i: nat): string {
    if i <= |str| then str[i..] else ""
  }

  /**
    One iteration consumes the next quantum of what remains of the input, so it
    keeps the loop invariant: the output so far followed by the encoding of the
    unread input is the encoding of the whole input.
  */
  lemma LoopStep(str: string, i: nat, output: string)
    requires IsByteString(str) && i < |str|
    ensures Std(Remaining(str, i))
            == LoopGroup(CharCodeAt(str, i), CharCodeAt(str, i + 1), CharCodeAt(str, i + 2)) + Std(Remaining(str, i + 3))
    ensures output + Std(Remaining(str, i)) == Std(str) ==>
            output + LoopGroup(CharCodeAt(str, i), CharCodeAt(str, i + 1), CharCodeAt(str, i + 2))
            + Std(Remaining(str, i + 3)) == Std(str)
  {
    LoopGroupIsQuantum(str, i);
    var octets := if |str| - i >= 3 then 3 else |str| - i;
    assert Remaining(str, i + 3) == str[i + octets..];
  }

  /**
    `base64Encode`: three code units per iteration (NaN past the end), four
    table characters appended each time, '=' standing for the missing ones.
  */
  method Encode(str: string) returns (output: string)
    requires IsByteString(str)
    ensures output == Std(str)
    ensures IsEncodingOf(output, str)
  {
    output := "";
    var i: nat := 0;
    while i < |str|
      invariant output + Std(Remaining(str, i)) == Std(str)
    {
      var chr1 := CharCodeAt(str, i);
      var chr2 := CharCodeAt(str, i + 1);
      var chr3 := CharCodeAt(str, i + 2);
      LoopStep(str, i, output);
      i := i + 3;
      output := output + LoopGroup(chr1, chr2, chr3);
    }
    StdFacts(str);
  }
}
