/**
 * The base64url codec of `String.base64URLDecode()` and `Data.base64URLEncode()`
 * (ios/RCTCrypto/RCTRsaUtils.swift): the URL- and filename-safe alphabet of
 * RFC 4648, section 5, without padding as in RFC 7515, section 2, implemented
 * as rewrites of the standard encoding.
 */
module Base64Url {
  import opened Wrappers
  import opened Bytes
  import Base64

  /** The URL-safe alphabet: `-` and `_` in place of `+` and `/`. */
  predicate IsUrlChar(c: char) {
    'A' <= c <= 'Z' || 'a' <= c <= 'z' || '0' <= c <= '9' || c == '-' || c == '_'
  }

  /** `replacingOccurrences(of:with:)` for a one-character pattern and replacement. */
  function ReplaceChar(s: string, from: char, to: char): string {
    seq(|s|, i requires 0 <= i < |s| => if s[i] == from then to else s[i])
  }

  /** `replacingOccurrences(of: c, with: "")`: every occurrence of `c` deleted. */
  function RemoveChar(s: string, c: char): (r: string)
    ensures c !in r
    ensures |r| <= |s|
    ensures forall x :: x in r ==> x in s
    decreases |s|
  {
    if s == [] then []
    else (if s[0] == c then [] else [s[0]]) + RemoveChar(s[1..], c)
  }

  /**
   * `padding(toLength:withPad:startingAt: 0)` with a one-character pad: the
   * string cut or extended with `pad` to exactly `len` characters.
   */
  function PadRight(s: string, len: nat, pad: char): (r: string)
    ensures |r| == len
    ensures forall i :: 0 <= i < len ==> r[i] == if i < |s| then s[i] else pad
  {
    if len <= |s| then s[..len] else s + seq(len - |s|, _ => pad)
  }

  /** `((count + 3) / 4) * 4`: the smallest multiple of four that is at least `n`. */
  function PaddedLength(n: nat): (m: nat)
    ensures m % 4 == 0 && n <= m < n + 4
  {
    (n + 3) / 4 * 4
  }

  /** Standard alphabet to URL-safe alphabet: `+` to `-`, then `/` to `_`. */
  function ToUrl(s: string): string {
    ReplaceChar(ReplaceChar(s, '+', '-'), '/', '_')
  }

  /** URL-safe alphabet to standard alphabet: `-` to `+`, then `_` to `/`. */
  function ToStd(s: string): string {
    ReplaceChar(ReplaceChar(s, '-', '+'), '_', '/')
  }

  /**
   * Replacing `from` by `to` in text without `to` is undone by replacing `to`
   * by `from`; afterwards `from` no longer occurs.
   */
  lemma ReplaceCharInverse(s: string, from: char, to: char)
    requires to !in s
    ensures from != to ==> from !in ReplaceChar(s, from, to)
    ensures ReplaceChar(ReplaceChar(s, from, to), to, from) == s
  {
  }

  /** `ToStd` undoes `ToUrl` on text that uses neither `-` nor `_`. */
  lemma ToStdToUrl(s: string)
    requires '-' !in s && '_' !in s
    ensures ToStd(ToUrl(s)) == s
  {
  }

  /** `ToUrl` undoes `ToStd` on text that uses neither `+` nor `/`. */
  lemma ToUrlToStd(s: string)
    requires '+' !in s && '/' !in s
    ensures ToUrl(ToStd(s)) == s
  {
  }

  /** The characters `Decode` lets through to the standard decoder unchanged or translated. */
  predicate IsAcceptedChar(c: char) {
    IsUrlChar(c) || Base64.IsAlphabetChar(c) || c == '='
  }

  /**
   * `String.base64URLDecode()`: pad with `=` to a multiple of four, translate
   * to the standard alphabet and decode as standard base64; `None` is nil.
   */
  function Decode(s: string): (r: Option<seq<Byte>>)
    ensures |s| % 4 == 1 ==> r.None?
    ensures (forall i :: 0 <= i < |s| ==> IsUrlChar(s[i])) ==> (r.Some? <==> |s| % 4 != 1)
    ensures r.Some? ==> forall i :: 0 <= i < |s| ==> IsAcceptedChar(s[i])
  {
    DecodeAccepts(s);
    Base64.Decode(Padded(s))
  }

  /**
   * `Data.base64URLEncode()`: the standard encoding with `+` and `/`
   * translated and every `=` deleted.
   */
  function Encode(b: seq<Byte>): (s: string)
    ensures forall i :: 0 <= i < |s| ==> IsUrlChar(s[i])
    ensures |s| % 4 != 1
  {
    var e := Base64.Encode(b);
    Base64.EncodeShape(b);
    UnpadStd(e, Base64.PadCount(|b|));
    RepadStd(e, Base64.PadCount(|b|));
    RemoveChar(ToUrl(e), '=')
  }

  /** The string `Decode` hands to the standard decoder. */
  function Padded(s: string): (t: string)
    ensures |t| % 4 == 0 && |s| <= |t| < |s| + 4
    ensures forall i :: |s| <= i < |t| ==> t[i] == '='
    ensures forall i :: 0 <= i < |s| ==> t[i] == if s[i] == '-' then '+' else if s[i] == '_' then '/' else s[i]
  {
    ToStd(PadRight(s, PaddedLength(|s|), '='))
  }

  /** One character past a multiple of four needs three `=`, which no base64 group has. */
  lemma DecodeRejectsLength(s: string)
    requires |s| % 4 == 1
    ensures Base64.Decode(Padded(s)).None?
  {
    var t := Padded(s);
    Base64.DecodeSucceedsIff(t);
    assert !Base64.IsAlphabetChar(t[|t| - 3]);
  }

  /** Any string over the URL alphabet of a decodable length is accepted. */
  lemma DecodeAcceptsUrl(s: string)
    requires forall i :: 0 <= i < |s| ==> IsUrlChar(s[i])
    requires |s| % 4 != 1
    ensures Base64.Decode(Padded(s)).Some?
  {
    var t := Padded(s);
    Base64.DecodeSucceedsIff(t);
    assert forall i :: 0 <= i < |s| ==> Base64.IsAlphabetChar(t[i]);
    assert |t| - |s| <= 2;
  }

  /** A character outside both alphabets and other than `=` makes decoding fail. */
  lemma DecodeRejectsForeign(s: string, i: nat)
    requires i < |s| && !IsAcceptedChar(s[i])
    ensures Base64.Decode(Padded(s)).None?
  {
    var t := Padded(s);
    Base64.DecodeSucceedsIff(t);
    assert t[i] == s[i];
  }

  /** The three acceptance facts about `Decode`, together. */
  lemma DecodeAccepts(s: string)
    ensures var r := Base64.Decode(Padded(s));
      && (|s| % 4 == 1 ==> r.None?)
      && ((forall i :: 0 <= i < |s| ==> IsUrlChar(s[i])) ==> (r.Some? <==> |s| % 4 != 1))
      && (r.Some? ==> forall i :: 0 <= i < |s| ==> IsAcceptedChar(s[i]))
  {
    if |s| % 4 == 1 {
      DecodeRejectsLength(s);
    } else if forall i :: 0 <= i < |s| ==> IsUrlChar(s[i]) {
      DecodeAcceptsUrl(s);
    }
    if exists i :: 0 <= i < |s| && !IsAcceptedChar(s[i]) {
      var i :| 0 <= i < |s| && !IsAcceptedChar(s[i]);
      DecodeRejectsForeign(s, i);
    }
  }

  /** Deleting `c` from a string that ends in a run of `c` and has no other `c` leaves the rest. */
  lemma {:induction false} RemoveTrailingRun(t: string, k: nat, c: char)
    requires c !in t
    ensures RemoveChar(t + seq(k, _ => c), c) == t
    decreases |t| + k
  {
    var s := t + seq(k, _ => c);
    if t == [] {
      if k > 0 {
        assert s[1..] == [] + seq(k - 1, _ => c);
        RemoveTrailingRun([], k - 1, c);
      }
    } else {
      assert s[0] == t[0] && s[1..] == t[1..] + seq(k, _ => c);
      RemoveTrailingRun(t[1..], k, c);
      assert t == [t[0]] + t[1..];
    }
  }

  /** A standard encoding: alphabet characters followed by at most two `=`, a multiple of four long. */
  predicate IsPaddedStd(e: string, k: nat) {
    && k <= 2 && k <= |e| && |e| % 4 == 0
    && (forall i :: 0 <= i < |e| - k ==> Base64.IsAlphabetChar(e[i]))
    && (forall i :: |e| - k <= i < |e| ==> e[i] == '=')
  }

  /** Translating a standard encoding and deleting `=` translates its alphabet part. */
  lemma UnpadStd(e: string, k: nat)
    requires IsPaddedStd(e, k)
    ensures RemoveChar(ToUrl(e), '=') == ToUrl(e[..|e| - k])
  {
    var n := |e| - k;
    var body, pad := e[..n], seq(k, _ => '=');
    assert e == body + pad;
    assert ToUrl(e) == ToUrl(body) + pad;
    assert '=' !in ToUrl(body) by {
      forall i | 0 <= i < n ensures ToUrl(body)[i] != '=' {
        assert Base64.IsAlphabetChar(body[i]);
      }
    }
    RemoveTrailingRun(ToUrl(body), k, '=');
  }

  /** The translated alphabet part of a standard encoding is over the URL alphabet and pads back to it. */
  lemma RepadStd(e: string, k: nat)
    requires IsPaddedStd(e, k)
    ensures var u := ToUrl(e[..|e| - k]);
      && (forall i :: 0 <= i < |u| ==> IsUrlChar(u[i]))
      && |u| % 4 != 1
      && Padded(u) == e
  {
    var n := |e| - k;
    assert PaddedLength(n) == |e|;
  }

  /** Padding and translating the URL encoding gives back the standard encoding. */
  lemma PaddedEncode(b: seq<Byte>)
    ensures Padded(Encode(b)) == Base64.Encode(b)
  {
    var e, k := Base64.Encode(b), Base64.PadCount(|b|);
    assert IsPaddedStd(e, k) by { Base64.EncodeShape(b); }
    var u := ToUrl(e[..|e| - k]);
    assert Encode(b) == u by { UnpadStd(e, k); }
    assert Padded(u) == e by { RepadStd(e, k); }
  }

  /** The URL encoding never contains `+`, `/` or `=`. */
  lemma EncodeOmitsStdChars(b: seq<Byte>)
    ensures var s := Encode(b); '+' !in s && '/' !in s && '=' !in s
  {
    var s := Encode(b);
    forall i | 0 <= i < |s| ensures s[i] != '+' && s[i] != '/' && s[i] != '=' {
      assert IsUrlChar(s[i]);
    }
  }

  /** The URL encoding is the standard encoding with `+` and `/` translated and its trailing `=` cut off. */
  lemma EncodeIsTrimmedStd(b: seq<Byte>)
    ensures var e := Base64.Encode(b);
      Encode(b) == ToUrl(e[..|e| - Base64.PadCount(|b|)])
  {
    Base64.EncodeShape(b);
    UnpadStd(Base64.Encode(b), Base64.PadCount(|b|));
  }

  /** Decoding inverts encoding: `base64URLDecode(base64URLEncode(b)) == b`. */
  lemma DecodeEncode(b: seq<Byte>)
    ensures Decode(Encode(b)) == Some(b)
  {
    PaddedEncode(b);
    Base64.DecodeEncode(b);
  }

  /** `"AQAB"`, the usual RSA public exponent in a JWK, decodes to the bytes 01 00 01. */
  lemma DecodeSample()
    ensures Decode("AQAB") == Some([1, 0, 1])
  {
    var t := "AQAB";
    assert Padded(t) == t by {
      assert PadRight(t, 4, '=') == t;
    }
    assert Base64.Decode(t) == Some([1, 0, 1]) by {
      assert Base64.ValueOf('A') == 0 && Base64.ValueOf('Q') == 16 && Base64.ValueOf('B') == 1;
      assert Base64.Decode(t) == Base64.DecodeLastGroup('A', 'Q', 'A', 'B');
    }
  }
}
