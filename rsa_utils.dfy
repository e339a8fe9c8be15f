/**
 * `RCTRsaUtils` (ios/RCTCrypto/RCTRsaUtils.swift): conversion of RSA keys
 * between JSON Web Keys (RFC 7517, RSA members per section 6.3 of RFC 7518)
 * and PKCS#1 PEM text. The OpenSSL record encoder (`RSA_set0_*` plus
 * `PEM_write_bio_RSA*Key`), the PEM reader (`PEM_read_bio_RSA*Key`) and
 * Foundation's UTF-8 decoding are not part of this model; they are passed in
 * as functions.
 */
module RsaUtils {
  import opened Wrappers
  import opened Bytes
  import Base64
  import Base64Url
  import BigNum

  /** The values a JWK dictionary (`NSDictionary`, `[String: Any]`) holds. */
  datatype JsonValue =
    | JString(str: string)
    | JBool(b: bool)
    | JNumber(num: int)
    | JArray(items: seq<JsonValue>)
    | JNull

  type Jwk = map<string, JsonValue>

  /** An OpenSSL `RSA` record: each component is set (a `BIGNUM`) or not. */
  datatype RsaKey = RsaKey(
    n: Option<nat>, e: Option<nat>, d: Option<nat>,
    p: Option<nat>, q: Option<nat>,
    dp: Option<nat>, dq: Option<nat>, qi: Option<nat>)

  /** What the PEM writer leaves: its return code and the bytes pending in the memory BIO. */
  datatype PemWrite = PemWrite(status: int, output: seq<Byte>)

  /** Writes a key as PKCS#1 PEM; the flag asks for the public form. */
  type PemWriter = (RsaKey, bool) -> PemWrite

  /** Parses PKCS#1 PEM text; the flag asks for the public form. */
  type PemReader = (string, bool) -> Option<RsaKey>

  /** `String(data:encoding: .utf8)`. */
  type Utf8Decoder = seq<Byte> -> Option<string>

  /** The RSA members of a JWK (section 6.3 of RFC 7518). */
  datatype Field = N | E | D | P | Q | DP | DQ | QI

  /** The field a member name stands for, if any. */
  function FieldOf(name: string): Option<Field> {
    if name == "n" then Some(N)
    else if name == "e" then Some(E)
    else if name == "d" then Some(D)
    else if name == "p" then Some(P)
    else if name == "q" then Some(Q)
    else if name == "dp" then Some(DP)
    else if name == "dq" then Some(DQ)
    else if name == "qi" then Some(QI)
    else None
  }

  lemma FieldOfName(name: string)
    ensures FieldOf(name).Some? ==> Name(FieldOf(name).value) == name
  {
  }

  /** The member name of a field; `FieldOf` inverts it, so distinct fields have distinct names. */
  function Name(f: Field): (name: string)
    ensures FieldOf(name) == Some(f)
    ensures name !in MetadataNames
  {
    match f
    case N => "n"
    case E => "e"
    case D => "d"
    case P => "p"
    case Q => "q"
    case DP => "dp"
    case DQ => "dq"
    case QI => "qi"
  }

  const MetadataNames: set<string> := {"alg", "ext", "key_ops", "kty"}

  /** The key component a field stands for. */
  function Component(key: RsaKey, f: Field): Option<nat> {
    match f
    case N => key.n
    case E => key.e
    case D => key.d
    case P => key.p
    case Q => key.q
    case DP => key.dp
    case DQ => key.dq
    case QI => key.qi
  }

  /** The member names of the components a key has set. */
  function PresentNames(key: RsaKey): (names: set<string>)
    ensures forall f :: Name(f) in names <==> Component(key, f).Some?
    ensures forall name :: name in names ==> exists f :: Name(f) == name
  {
    set f: Field | Component(key, f).Some? :: Name(f)
  }

  /** `pat` occurs in `s` starting at index `i`. */
  predicate OccursAt(s: string, pat: string, i: nat) {
    i + |pat| <= |s| && s[i..i + |pat|] == pat
  }

  /** `pat` occurs somewhere in `s`, found by trying each start in turn; the empty pattern occurs everywhere. */
  predicate Occurs(s: string, pat: string)
    decreases |s|
  {
    pat <= s || (s != [] && Occurs(s[1..], pat))
  }

  /**
   * `NSString.contains`: a non-empty `pat` occurs in `s`. Foundation finds no
   * range for the empty string, so `contains("")` is false.
   */
  predicate Contains(s: string, pat: string) {
    pat != [] && Occurs(s, pat)
  }

  lemma {:induction false} OccursSomewhere(s: string, pat: string)
    ensures Occurs(s, pat) <==> exists i: nat :: OccursAt(s, pat, i)
  {
    if pat <= s {
      assert OccursAt(s, pat, 0);
    } else if s != [] {
      OccursSomewhere(s[1..], pat);
      if Occurs(s[1..], pat) {
        var i: nat :| OccursAt(s[1..], pat, i);
        assert OccursAt(s, pat, i + 1);
      }
      if exists i: nat :: OccursAt(s, pat, i) {
        var i: nat :| OccursAt(s, pat, i);
        assert i != 0;
        assert OccursAt(s[1..], pat, i - 1);
      }
    }
  }

  lemma ContainsOccurs(s: string, pat: string)
    ensures Contains(s, pat) <==> pat != [] && exists i: nat :: OccursAt(s, pat, i)
    ensures Contains(s, "") == false
  {
    OccursSomewhere(s, pat);
  }

  /**
   * `base64URLToBignum`: the big-endian unsigned value of the decoded bytes
   * (`BN_bin2bn`); `None` where the Swift code throws.
   */
  function Base64UrlToBignum(s: string): (r: Option<nat>)
    ensures r.None? <==> Base64Url.Decode(s).None?
    ensures r.Some? ==> BigNum.ToBigEndian(r.value) == BigNum.StripLeadingZeros(Base64Url.Decode(s).value)
    ensures r.Some? ==> r.value < BigNum.Pow256(|Base64Url.Decode(s).value|)
  {
    match Base64Url.Decode(s)
    case None => None
    case Some(data) =>
      BigNum.ToFromBigEndian(data);
      Some(BigNum.FromBigEndian(data))
  }

  /**
   * `bigNumToBase64`: `BN_bn2bin` into a zeroed buffer of
   * `(BN_num_bits(bn) + 7) / 8` bytes, then base64url.
   */
  method BigNumToBase64(bn: nat) returns (s: string)
    ensures s == Base64Url.Encode(BigNum.ToBigEndian(bn))
    ensures Base64UrlToBignum(s) == Some(bn)
  {
    var bytes := new Byte[(BigNum.NumBits(bn) + 7) / 8](_ => 0);
    BigNum.Bn2Bin(bn, bytes);
    s := Base64Url.Encode(bytes[..]);
    Base64Url.DecodeEncode(bytes[..]);
    BigNum.FromToBigEndian(bn);
  }

  /** `jwk[name] as? String`. */
  function StringField(jwk: Jwk, name: string): Option<string> {
    if name in jwk && jwk[name].JString? then Some(jwk[name].str) else None
  }

  /** `try? base64URLToBignum(...)` on a String-valued member, unset otherwise. */
  function DecodedField(jwk: Jwk, name: string): (r: Option<nat>)
    ensures r.Some? ==> StringField(jwk, name).Some? && Base64Url.Decode(StringField(jwk, name).value).Some?
  {
    match StringField(jwk, name)
    case None => None
    case Some(s) => Base64UrlToBignum(s)
  }

  /** The record `importKey` hands to OpenSSL. */
  function ImportedKey(jwk: Jwk): RsaKey
  {
    RsaKey(DecodedField(jwk, Name(N)), DecodedField(jwk, Name(E)), DecodedField(jwk, Name(D)),
           DecodedField(jwk, Name(P)), DecodedField(jwk, Name(Q)),
           DecodedField(jwk, Name(DP)), DecodedField(jwk, Name(DQ)), DecodedField(jwk, Name(QI)))
  }

  /** `importKey` writes a private key exactly when `"d"` holds a String. */
  predicate ImportsPrivateKey(jwk: Jwk) {
    StringField(jwk, Name(D)).Some?
  }

  /**
   * One `if let v = jwk[name] as? String { new_v = try? base64URLToBignum(v) }`
   * step of `importKey`: the member's value when it is a String that decodes.
   */
  method ReadComponent(jwk: Jwk, name: string) returns (v: Option<nat>)
    ensures v == DecodedField(jwk, name)
  {
    v := None;
    var field := StringField(jwk, name);
    if field.Some? {
      v := Base64UrlToBignum(field.value);
    }
  }

  /**
   * `importKey(jwk:)`: decodes the String-valued members, chooses the public
   * or the private PEM writer by the presence of `"d"`, and yields the UTF-8
   * text of what the writer produced, or `None` (nil) when the writer failed,
   * produced nothing, or produced bytes that are not UTF-8.
   */
  method ImportKey(jwk: Jwk, write: PemWriter, utf8: Utf8Decoder) returns (pem: Option<string>)
    ensures var w := write(ImportedKey(jwk), !ImportsPrivateKey(jwk));
      pem == if w.status == 1 && |w.output| > 0 then utf8(w.output) else None
  {
    var isPublic := true;
    var newN := ReadComponent(jwk, Name(N));
    var newE := ReadComponent(jwk, Name(E));
    var newD: Option<nat> := None;
    var field := StringField(jwk, Name(D));
    if field.Some? {
      newD := Base64UrlToBignum(field.value);
      isPublic := false;
    }
    assert newD == DecodedField(jwk, Name(D)) by { }
    var newP := ReadComponent(jwk, Name(P));
    var newQ := ReadComponent(jwk, Name(Q));
    var newDq := ReadComponent(jwk, Name(DQ));
    var newDp := ReadComponent(jwk, Name(DP));
    var newQi := ReadComponent(jwk, Name(QI));
    var key := RsaKey(newN, newE, newD, newP, newQ, newDp, newDq, newQi);
    assert key == ImportedKey(jwk) by { }
    var w := write(key, isPublic);
    if w.status != 1 || |w.output| <= 0 {
      return None;
    }
    pem := utf8(w.output);
  }

  /**
   * What `importKey` hands OpenSSL for a field: set exactly when the member
   * is a String that base64url-decodes, and then the big-endian value of the
   * decoded bytes.
   */
  lemma ImportedComponent(jwk: Jwk, f: Field)
    ensures var c := Component(ImportedKey(jwk), f);
      && (c.Some? <==> Name(f) in jwk && jwk[Name(f)].JString? && Base64Url.Decode(jwk[Name(f)].str).Some?)
      && (c.Some? ==> BigNum.ToBigEndian(c.value) == BigNum.StripLeadingZeros(Base64Url.Decode(jwk[Name(f)].str).value))
  {
  }

  /**
   * A String member that does not decode leaves its component unset without
   * failing the import; for `d` the key is still written as private.
   */
  lemma UndecodableLeftUnset(jwk: Jwk, f: Field)
    requires Name(f) in jwk && jwk[Name(f)].JString?
    requires Base64Url.Decode(jwk[Name(f)].str).None?
    ensures Component(ImportedKey(jwk), f).None?
    ensures f == D ==> ImportsPrivateKey(jwk)
  {
    ImportedComponent(jwk, f);
  }

  lemma NonStringFieldIgnored(jwk: Jwk, f: Field, v: JsonValue, g: Field)
    requires !v.JString?
    ensures Component(ImportedKey(jwk[Name(f) := v]), g) == Component(ImportedKey(jwk - {Name(f)}), g)
  {
    FieldOfName(Name(g));
    assert StringField(jwk[Name(f) := v], Name(g)) == StringField(jwk - {Name(f)}, Name(g));
  }

  /** A member that is not a String is treated as absent. */
  lemma NonStringIgnored(jwk: Jwk, f: Field, v: JsonValue)
    requires !v.JString?
    ensures ImportedKey(jwk[Name(f) := v]) == ImportedKey(jwk - {Name(f)})
    ensures ImportsPrivateKey(jwk[Name(f) := v]) <==> ImportsPrivateKey(jwk - {Name(f)})
  {
    var k1, k2 := jwk[Name(f) := v], jwk - {Name(f)};
    assert ImportedKey(k1) == ImportedKey(k2) by {
      NonStringFieldIgnored(jwk, f, v, N);
      NonStringFieldIgnored(jwk, f, v, E);
      NonStringFieldIgnored(jwk, f, v, D);
      NonStringFieldIgnored(jwk, f, v, P);
      NonStringFieldIgnored(jwk, f, v, Q);
      NonStringFieldIgnored(jwk, f, v, DP);
      NonStringFieldIgnored(jwk, f, v, DQ);
      NonStringFieldIgnored(jwk, f, v, QI);
      SameComponents(ImportedKey(k1), ImportedKey(k2));
    }
    assert StringField(k1, Name(D)) == StringField(k2, Name(D)) by {
      FieldOfName(Name(D));
    }
  }

  /** A member with characters outside both base64 alphabets is left unset. */
  lemma ForeignCharacterLeftUnset(jwk: Jwk, f: Field, i: nat)
    requires Name(f) in jwk && jwk[Name(f)].JString?
    requires i < |jwk[Name(f)].str| && !Base64Url.IsAcceptedChar(jwk[Name(f)].str[i])
    ensures Component(ImportedKey(jwk), f).None?
  {
    UndecodableLeftUnset(jwk, f);
  }

  /** Zero is exported as the empty string, and the empty string imports as zero. */
  lemma ZeroIsEmpty()
    ensures ExportedValue(0) == JString("")
    ensures Base64UrlToBignum("") == Some(0)
  {
    assert Base64Url.Encode([]) == "" by {
      Base64Url.DecodeEncode([]);
    }
  }

  /** The usual public exponent member `"AQAB"` imports as 65537. */
  lemma PublicExponentSample()
    ensures Base64UrlToBignum("AQAB") == Some(65537)
  {
    Base64Url.DecodeSample();
    assert BigNum.FromBigEndian([1, 0, 1]) == 65537;
  }

  /** Text that is not base64url at all does not decode. */
  lemma GarbageSample()
    ensures Base64UrlToBignum("!!!not-base64!!!").None?
  {
    assert !Base64Url.IsAcceptedChar("!!!not-base64!!!"[0]);
  }

  /** The fixed members of every exported JWK; `key_ops` follows the key kind. */
  function Metadata(isPublic: bool): (jwk: Jwk)
    ensures jwk.Keys == MetadataNames
  {
    map["alg" := JString("RSA-OAEP-256"),
        "ext" := JBool(true),
        "key_ops" := JArray([JString(if isPublic then "encrypt" else "decrypt")]),
        "kty" := JString("RSA")]
  }

  /** The JWK member `exportKey` writes for a component: `bigNumToBase64` of it. */
  function ExportedValue(c: nat): JsonValue {
    JString(Base64Url.Encode(BigNum.ToBigEndian(c)))
  }

  /** Reading back what `bigNumToBase64` writes gives the component again. */
  lemma ExportedValueDecodes(c: nat)
    ensures Base64UrlToBignum(ExportedValue(c).str) == Some(c)
  {
    Base64Url.DecodeEncode(BigNum.ToBigEndian(c));
    BigNum.FromToBigEndian(c);
  }

  /** `jwk` holds, as RSA members, exactly the components of `key`, written as `exportKey` writes them. */
  predicate HoldsComponents(jwk: Jwk, key: RsaKey) {
    && (forall f :: Name(f) in jwk <==> Component(key, f).Some?)
    && (forall f :: Component(key, f).Some? ==> jwk[Name(f)] == ExportedValue(Component(key, f).value))
  }

  lemma DecodedHeldField(jwk: Jwk, key: RsaKey, f: Field)
    requires HoldsComponents(jwk, key)
    ensures Component(ImportedKey(jwk), f) == Component(key, f)
  {
    if Component(key, f).Some? {
      ExportedValueDecodes(Component(key, f).value);
    }
  }

  /** Keys with the same components are the same key. */
  lemma SameComponents(k: RsaKey, key: RsaKey)
    requires Component(k, N) == Component(key, N) && Component(k, E) == Component(key, E)
    requires Component(k, D) == Component(key, D) && Component(k, P) == Component(key, P)
    requires Component(k, Q) == Component(key, Q) && Component(k, DP) == Component(key, DP)
    requires Component(k, DQ) == Component(key, DQ) && Component(k, QI) == Component(key, QI)
    ensures k == key
  {
  }

  /**
   * Importing an exported JWK hands OpenSSL the very components that were
   * exported, and a private key exactly when `d` was exported.
   */
  lemma ImportExported(jwk: Jwk, key: RsaKey)
    requires HoldsComponents(jwk, key)
    ensures ImportedKey(jwk) == key
    ensures ImportsPrivateKey(jwk) <==> key.d.Some?
  {
    DecodedHeldField(jwk, key, N);
    DecodedHeldField(jwk, key, E);
    DecodedHeldField(jwk, key, D);
    DecodedHeldField(jwk, key, P);
    DecodedHeldField(jwk, key, Q);
    DecodedHeldField(jwk, key, DP);
    DecodedHeldField(jwk, key, DQ);
    DecodedHeldField(jwk, key, QI);
    SameComponents(ImportedKey(jwk), key);
  }

  /**
   * The JWK after `exportKey` has handled the components in `done`: the
   * fixed members, plus one member for each of those components that the
   * key has, and nothing else.
   */
  predicate ExportedSoFar(jwk: Jwk, key: RsaKey, isPublic: bool, done: set<Field>) {
    && (forall name :: name in MetadataNames ==> name in jwk && jwk[name] == Metadata(isPublic)[name])
    && (forall f :: Name(f) in jwk <==> f in done && Component(key, f).Some?)
    && (forall f :: f in done && Component(key, f).Some? ==> jwk[Name(f)] == ExportedValue(Component(key, f).value))
    && (forall name :: name in jwk ==> name in MetadataNames || FieldOf(name).Some?)
  }

  /** Setting the member of field `f`, or leaving the JWK as it is when the key lacks `f`, extends `done` by `f`. */
  lemma ExportedStep(jwk: Jwk, key: RsaKey, f: Field, isPublic: bool, done: set<Field>, r: Jwk)
    requires ExportedSoFar(jwk, key, isPublic, done)
    requires Component(key, f).None? ==> r == jwk
    requires Component(key, f).Some? ==> r == jwk[Name(f) := ExportedValue(Component(key, f).value)]
    ensures ExportedSoFar(r, key, isPublic, done + {f})
  {
    forall g ensures Name(g) in r <==> g in done + {f} && Component(key, g).Some? {
      FieldOfName(Name(g));
    }
    forall g | g in done + {f} && Component(key, g).Some?
      ensures r[Name(g)] == ExportedValue(Component(key, g).value)
    {
      FieldOfName(Name(g));
    }
    forall name | name in r ensures name in MetadataNames || FieldOf(name).Some? {
      FieldOfName(name);
    }
  }

  /**
   * One `if let c = RSA_get0_…(rsaKey) { jwk[…] = bigNumToBase64(c) }` step:
   * sets the member of field `f` when the key has that component.
   */
  method PutComponent(jwk: Jwk, key: RsaKey, f: Field, ghost isPublic: bool, ghost done: set<Field>) returns (r: Jwk)
    requires ExportedSoFar(jwk, key, isPublic, done)
    ensures Component(key, f).None? ==> r == jwk
    ensures Component(key, f).Some? ==> r == jwk[Name(f) := ExportedValue(Component(key, f).value)]
    ensures ExportedSoFar(r, key, isPublic, done + {f})
  {
    r := jwk;
    var c := Component(key, f);
    if c.Some? {
      var s := BigNumToBase64(c.value);
      r := r[Name(f) := JString(s)];
    }
    ExportedStep(jwk, key, f, isPublic, done, r);
  }

  /** Once every field is handled, the JWK holds the fixed members and exactly the key's components. */
  lemma ExportedAll(jwk: Jwk, key: RsaKey, isPublic: bool, done: set<Field>)
    requires ExportedSoFar(jwk, key, isPublic, done)
    requires D in done && E in done && N in done && P in done
    requires Q in done && DP in done && DQ in done && QI in done
    ensures jwk.Keys == MetadataNames + PresentNames(key)
    ensures jwk["alg"] == JString("RSA-OAEP-256") && jwk["ext"] == JBool(true) && jwk["kty"] == JString("RSA")
    ensures jwk["key_ops"] == JArray([JString(if isPublic then "encrypt" else "decrypt")])
    ensures HoldsComponents(jwk, key)
  {
    assert "alg" in MetadataNames && "ext" in MetadataNames && "key_ops" in MetadataNames && "kty" in MetadataNames;
    forall f ensures f in done {
      match f
      case D => case E => case N => case P => case Q => case DP => case DQ => case QI =>
    }
    forall name | name in jwk ensures name in MetadataNames + PresentNames(key) {
      if name !in MetadataNames {
        FieldOfName(name);
      }
    }
  }

  /**
   * `exportKey(pkcs1:)`: sniffs `"PUBLIC"` to choose the reader, then builds
   * the JWK from the four fixed members and one base64url member per
   * component the parsed key has.
   */
  method ExportKey(pkcs1: string, read: PemReader) returns (jwk: Jwk)
    requires read(pkcs1, Contains(pkcs1, "PUBLIC")).Some?
    ensures var key := read(pkcs1, Contains(pkcs1, "PUBLIC")).value;
      && jwk.Keys == MetadataNames + PresentNames(key)
      && jwk["alg"] == JString("RSA-OAEP-256") && jwk["ext"] == JBool(true) && jwk["kty"] == JString("RSA")
      && jwk["key_ops"] == JArray([JString(if Contains(pkcs1, "PUBLIC") then "encrypt" else "decrypt")])
      && HoldsComponents(jwk, key)
      && ImportedKey(jwk) == key
      && (ImportsPrivateKey(jwk) <==> key.d.Some?)
  {
    var isPublic := Contains(pkcs1, "PUBLIC");
    var rsaKey := read(pkcs1, isPublic).value;
    jwk := Metadata(isPublic);
    ghost var done: set<Field> := {};
    jwk := PutComponent(jwk, rsaKey, D, isPublic, done);
    done := done + {D};
    jwk := PutComponent(jwk, rsaKey, E, isPublic, done);
    done := done + {E};
    jwk := PutComponent(jwk, rsaKey, N, isPublic, done);
    done := done + {N};
    jwk := PutComponent(jwk, rsaKey, P, isPublic, done);
    done := done + {P};
    jwk := PutComponent(jwk, rsaKey, Q, isPublic, done);
    done := done + {Q};
    jwk := PutComponent(jwk, rsaKey, DP, isPublic, done);
    done := done + {DP};
    jwk := PutComponent(jwk, rsaKey, DQ, isPublic, done);
    done := done + {DQ};
    jwk := PutComponent(jwk, rsaKey, QI, isPublic, done);
    done := done + {QI};
    ExportedAll(jwk, rsaKey, isPublic, done);
    ImportExported(jwk, rsaKey);
  }
}
