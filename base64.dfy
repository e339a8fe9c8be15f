/**
 * Standard base64 (RFC 4648, section 4), the codec behind Foundation's
 * `Data.base64EncodedString()` and `Data(base64Encoded:)` with default options:
 * the encoder always pads to a multiple of four characters and inserts no line
 * breaks; the decoder accepts only alphabet characters, a length that is a multiple
 * of four and `=` padding in the last group only (one or two of them). Bits left
 * over in the last character of a padded group are discarded, not checked
 * (RFC 4648, section 3.5 leaves that choice to the decoder).
 */
module Base64 {
  import opened Wrappers
  import opened Bytes

  /** A 6-bit value, one base64 character's worth. */
  type Sextet = v: int | 0 <= v < 64

  predicate IsAlphabetChar(c: char) {
    'A' <= c <= 'Z' || 'a' <= c <= 'z' || '0' <= c <= '9' || c == '+' || c == '/'
  }

  function CharOf(v: Sextet): (c: char)
    ensures IsAlphabetChar(c)
  {
    if v < 26 then ('A' as int + v) as char
    else if v < 52 then ('a' as int + (v - 26)) as char
    else if v < 62 then ('0' as int + (v - 52)) as char
    else if v == 62 then '+'
    else '/'
  }

  function ValueOf(c: char): Sextet
    requires IsAlphabetChar(c)
  {
    if 'A' <= c <= 'Z' then c as int - 'A' as int
    else if 'a' <= c <= 'z' then c as int - 'a' as int + 26
    else if '0' <= c <= '9' then c as int - '0' as int + 52
    else if c == '+' then 62
    else 63
  }

  lemma CharOfValueOf(c: char)
    requires IsAlphabetChar(c)
    ensures CharOf(ValueOf(c)) == c
  {
  }

  lemma ValueOfCharOf(v: Sextet)
    ensures ValueOf(CharOf(v)) == v
  {
  }

  /** Number of `=` characters that end the encoding of `n` bytes. */
  function PadCount(n: nat): (k: nat)
    ensures k <= 2 && (n + k) % 3 == 0
  {
    (3 - n % 3) % 3
  }

  /**
   * The 6-bit values that encode `b`, most significant bits first: four per
   * group of three bytes, and two or three for a last group of one or two
   * bytes, whose missing low bits are zero.
   */
  function Sextets(b: seq<Byte>): seq<Sextet>
    decreases |b|
  {
    if |b| == 0 then []
    else if |b| == 1 then [b[0] / 4, b[0] % 4 * 16]
    else if |b| == 2 then [b[0] / 4, b[0] % 4 * 16 + b[1] / 16, b[1] % 16 * 4]
    else [b[0] / 4, b[0] % 4 * 16 + b[1] / 16, b[1] % 16 * 4 + b[2] / 64, b[2] % 64] + Sextets(b[3..])
  }

  /** Each value replaced by its alphabet character. */
  function ToChars(s: seq<Sextet>): (t: string)
    ensures |t| == |s|
  {
    seq(|s|, i requires 0 <= i < |s| => CharOf(s[i]))
  }

  /**
   * `Data.base64EncodedString()`: the alphabet characters of the sextets,
   * completed with `=` to a multiple of four characters.
   */
  function Encode(b: seq<Byte>): string {
    ToChars(Sextets(b)) + seq(PadCount(|b|), _ => '=')
  }

  lemma {:induction false} SextetsLength(b: seq<Byte>)
    ensures |Sextets(b)| + PadCount(|b|) == 4 * ((|b| + 2) / 3)
    decreases |b|
  {
    if |b| > 2 {
      SextetsLength(b[3..]);
      assert PadCount(|b| - 3) == PadCount(|b|);
    }
  }

  /**
   * The shape of an encoding: four characters per started group of three
   * bytes, alphabet characters followed by exactly `PadCount(|b|)` `=`.
   */
  lemma EncodeShape(b: seq<Byte>)
    ensures var t := Encode(b);
      && |t| == 4 * ((|b| + 2) / 3)
      && (forall i :: 0 <= i < |t| - PadCount(|b|) ==> IsAlphabetChar(t[i]))
      && (forall i :: |t| - PadCount(|b|) <= i < |t| ==> t[i] == '=')
  {
    SextetsLength(b);
  }

  /** The encoding of more than three bytes: the first group's four characters, then the rest's encoding. */
  lemma EncodeFirstGroup(b: seq<Byte>)
    requires |b| > 3
    ensures Encode(b) == ToChars(Sextets(b[..3])) + Encode(b[3..])
  {
  }

  function DecodeTriple(v0: Sextet, v1: Sextet, v2: Sextet, v3: Sextet): seq<Byte> {
    [v0 * 4 + v1 / 16, v1 % 16 * 16 + v2 / 4, v2 % 4 * 64 + v3]
  }

  /** A group of four characters that is not the last: no padding allowed. */
  function DecodeGroup(c0: char, c1: char, c2: char, c3: char): Option<seq<Byte>> {
    if IsAlphabetChar(c0) && IsAlphabetChar(c1) && IsAlphabetChar(c2) && IsAlphabetChar(c3) then
      Some(DecodeTriple(ValueOf(c0), ValueOf(c1), ValueOf(c2), ValueOf(c3)))
    else
      None
  }

  /** The last group of four characters: no padding, `x=` or `==`. */
  function DecodeLastGroup(c0: char, c1: char, c2: char, c3: char): Option<seq<Byte>> {
    if !IsAlphabetChar(c0) || !IsAlphabetChar(c1) then None
    else if IsAlphabetChar(c2) && IsAlphabetChar(c3) then
      Some(DecodeTriple(ValueOf(c0), ValueOf(c1), ValueOf(c2), ValueOf(c3)))
    else if IsAlphabetChar(c2) && c3 == '=' then
      Some(DecodeTriple(ValueOf(c0), ValueOf(c1), ValueOf(c2), 0)[..2])
    else if c2 == '=' && c3 == '=' then
      Some(DecodeTriple(ValueOf(c0), ValueOf(c1), 0, 0)[..1])
    else
      None
  }

  /**
   * What the decoder accepts, stated over positions: every character but the
   * last two is in the alphabet, and the last group ends in two alphabet
   * characters, one alphabet character and `=`, or `==`.
   */
  predicate WellFormed(t: string) {
    && |t| % 4 == 0
    && (forall i :: 0 <= i < |t| - 2 ==> IsAlphabetChar(t[i]))
    && (|t| >= 4 ==> ValidEnding(t[|t| - 2], t[|t| - 1]))
  }

  predicate ValidEnding(c2: char, c3: char) {
    (IsAlphabetChar(c2) && IsAlphabetChar(c3))
    || (IsAlphabetChar(c2) && c3 == '=')
    || (c2 == '=' && c3 == '=')
  }

  function DecodeGroups(t: string): Option<seq<Byte>>
    requires |t| % 4 == 0
    decreases |t|
  {
    if |t| == 0 then Some([])
    else if |t| == 4 then DecodeLastGroup(t[0], t[1], t[2], t[3])
    else
      match DecodeGroup(t[0], t[1], t[2], t[3])
      case None => None
      case Some(g) =>
        match DecodeGroups(t[4..])
        case None => None
        case Some(tail) => Some(g + tail)
  }

  /** `Data(base64Encoded:)`: `None` stands for the nil the initialiser returns. */
  function Decode(t: string): Option<seq<Byte>> {
    if |t| % 4 != 0 then None else DecodeGroups(t)
  }

  /** The decoder fails exactly on the text that is not well formed. */
  lemma {:induction false} DecodeSucceedsIff(t: string)
    ensures Decode(t).Some? <==> WellFormed(t)
    decreases |t|
  {
    if |t| % 4 == 0 && |t| > 4 {
      var rest := t[4..];
      assert forall i :: 0 <= i < |rest| ==> rest[i] == t[i + 4];
      DecodeSucceedsIff(rest);
    }
  }

  /** The encoder's output is always accepted by the decoder. */
  lemma EncodeWellFormed(b: seq<Byte>)
    ensures WellFormed(Encode(b))
  {
    EncodeShape(b);
    var t, k := Encode(b), PadCount(|b|);
    if |t| >= 4 {
      assert k == 0 || k == 1 || k == 2;
      assert k < 2 ==> IsAlphabetChar(t[|t| - 2]);
      assert k == 0 ==> IsAlphabetChar(t[|t| - 1]);
    }
  }

  /** Decoding the sextets of a group gives its bytes back, for groups of three, two and one bytes. */
  lemma DecodeTripleOfSextets(b0: Byte, b1: Byte, b2: Byte)
    ensures DecodeTriple(b0 / 4, b0 % 4 * 16 + b1 / 16, b1 % 16 * 4 + b2 / 64, b2 % 64) == [b0, b1, b2]
  {
  }

  lemma DecodePairOfSextets(b0: Byte, b1: Byte)
    ensures DecodeTriple(b0 / 4, b0 % 4 * 16 + b1 / 16, b1 % 16 * 4, 0)[..2] == [b0, b1]
  {
  }

  lemma DecodeSingleOfSextets(b0: Byte)
    ensures DecodeTriple(b0 / 4, b0 % 4 * 16, 0, 0)[..1] == [b0]
  {
  }

  lemma DecodeEncodeOne(b: seq<Byte>)
    requires |b| == 1
    ensures Decode(Encode(b)) == Some(b)
  {
    var b0 := b[0];
    assert b == [b0];
    var s := Sextets(b);
    assert s == [b0 / 4, b0 % 4 * 16];
    var t := Encode(b);
    assert |t| == 4 && t[0] == CharOf(s[0]) && t[1] == CharOf(s[1]) && t[2] == '=' && t[3] == '=';
    ValueOfCharOf(s[0]);
    ValueOfCharOf(s[1]);
    assert !IsAlphabetChar('=');
    assert Decode(t) == DecodeLastGroup(t[0], t[1], t[2], t[3]);
    DecodeSingleOfSextets(b0);
  }

  lemma DecodeEncodeTwo(b: seq<Byte>)
    requires |b| == 2
    ensures Decode(Encode(b)) == Some(b)
  {
    var b0, b1 := b[0], b[1];
    assert b == [b0, b1];
    var s := Sextets(b);
    assert s == [b0 / 4, b0 % 4 * 16 + b1 / 16, b1 % 16 * 4];
    var t := Encode(b);
    assert |t| == 4 && t[0] == CharOf(s[0]) && t[1] == CharOf(s[1]) && t[2] == CharOf(s[2]) && t[3] == '=';
    ValueOfCharOf(s[0]);
    ValueOfCharOf(s[1]);
    ValueOfCharOf(s[2]);
    assert !IsAlphabetChar('=');
    assert Decode(t) == DecodeLastGroup(t[0], t[1], t[2], t[3]);
    DecodePairOfSextets(b0, b1);
  }

  /** The four characters that encode three bytes, and their values. */
  lemma EncodeThree(b: seq<Byte>)
    requires |b| == 3
    ensures var t := ToChars(Sextets(b));
      && |t| == 4 && IsAlphabetChar(t[0]) && IsAlphabetChar(t[1]) && IsAlphabetChar(t[2]) && IsAlphabetChar(t[3])
      && DecodeTriple(ValueOf(t[0]), ValueOf(t[1]), ValueOf(t[2]), ValueOf(t[3])) == b
  {
    var b0, b1, b2 := b[0], b[1], b[2];
    assert b == [b0, b1, b2];
    assert b[3..] == [] && Sextets(b[3..]) == [];
    var s := Sextets(b);
    assert s == [b0 / 4, b0 % 4 * 16 + b1 / 16, b1 % 16 * 4 + b2 / 64, b2 % 64];
    ValueOfCharOf(s[0]);
    ValueOfCharOf(s[1]);
    ValueOfCharOf(s[2]);
    ValueOfCharOf(s[3]);
    DecodeTripleOfSextets(b0, b1, b2);
  }

  lemma DecodeEncodeThree(b: seq<Byte>)
    requires |b| == 3
    ensures Decode(Encode(b)) == Some(b)
  {
    EncodeThree(b);
    var t := Encode(b);
    assert t == ToChars(Sextets(b));
    assert Decode(t) == DecodeLastGroup(t[0], t[1], t[2], t[3]);
  }

  /** A full group in front of well-decoded groups decodes to its bytes in front. */
  lemma DecodePrependGroup(head: string, tail: string, g: seq<Byte>, rest: seq<Byte>)
    requires |head| == 4 && |tail| % 4 == 0 && |tail| >= 4
    requires DecodeGroup(head[0], head[1], head[2], head[3]) == Some(g)
    requires Decode(tail) == Some(rest)
    ensures Decode(head + tail) == Some(g + rest)
  {
    var t := head + tail;
    assert t[4..] == tail;
    assert t[0] == head[0] && t[1] == head[1] && t[2] == head[2] && t[3] == head[3];
    assert |t| % 4 == 0 && |t| > 4;
    assert DecodeGroups(tail) == Some(rest);
    assert DecodeGroups(t) == Some(g + rest);
  }

  /** Round trip for more than three bytes, given the round trip for all but the first three. */
  lemma DecodeEncodeFirstGroup(b: seq<Byte>)
    requires |b| > 3
    requires Decode(Encode(b[3..])) == Some(b[3..])
    ensures Decode(Encode(b)) == Some(b)
  {
    var head, tail := ToChars(Sextets(b[..3])), Encode(b[3..]);
    EncodeFirstGroup(b);
    EncodeShape(b[3..]);
    EncodeThree(b[..3]);
    assert DecodeGroup(head[0], head[1], head[2], head[3]) == Some(b[..3]);
    DecodePrependGroup(head, tail, b[..3], b[3..]);
    assert b == b[..3] + b[3..];
  }

  /** Decoding what was encoded gives the bytes back. */
  lemma {:induction false} DecodeEncode(b: seq<Byte>)
    ensures Decode(Encode(b)) == Some(b)
    decreases |b|
  {
    if |b| == 0 {
    } else if |b| == 1 {
      DecodeEncodeOne(b);
    } else if |b| == 2 {
      DecodeEncodeTwo(b);
    } else if |b| == 3 {
      DecodeEncodeThree(b);
    } else {
      DecodeEncode(b[3..]);
      DecodeEncodeFirstGroup(b);
    }
  }
}
