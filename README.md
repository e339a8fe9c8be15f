# RSA key conversion of RCTRsaUtils, modelled in Dafny

`RCTRsaUtils` (react-native-simple-crypto, iOS side) converts RSA keys between
two formats:

- JSON Web Keys: RFC 7517, with the RSA members of section 6.3 of RFC 7518.
- PKCS#1 PEM text.

Around its OpenSSL calls sits self-contained logic, and this project models all of it:

- **`Base64Url`**: the unpadded base64url codec, `String.base64URLDecode()` and
  `Data.base64URLEncode()`. It is built on the standard codec, in **`Base64`**.
  `Base64` models Foundation's `Data(base64Encoded:)` and
  `base64EncodedString()` per section 4 of RFC 4648.
- **`BigNum`**: unsigned integers and their minimal big-endian bytes. These are
  the semantics of `BN_num_bits`, `BN_bn2bin` and `BN_bin2bn`. `Bn2Bin` fills
  a pre-sized array in place, as `bigNumToBase64` has OpenSSL do.
- **`RsaUtils`**: the four conversions, which are:
  - `base64URLToBignum` and `bigNumToBase64`.
  - `importKey(jwk:)`: reads the String-valued members `n e d p q dp dq qi`,
    picks the private form exactly when `d` is a String, and returns the
    writer's UTF-8 text or nil.
  - `exportKey(pkcs1:)`: sniffs `"PUBLIC"`, writes four fixed members, and
    writes one base64url member per component the parsed key has.

Some parts are passed in as function parameters:

- The OpenSSL record encoder (`RSA_set0_*` followed by
  `PEM_write_bio_RSAPublicKey` / `PEM_write_bio_RSAPrivateKey`) is `PemWriter`.
  It takes the key record and a public flag, and returns a status code and the
  bytes pending in the memory BIO.
- The reader (`PEM_read_bio_RSA*Key`) is `PemReader`.
- `String(data:encoding: .utf8)` is `Utf8Decoder`.

The model follows the code where the code and the RFCs differ:

- Zero is exported as the empty string, not as the single zero octet `"AA"`
  that section 2 of RFC 7518 asks for (`RsaUtils.ZeroIsEmpty`).
- A String member that fails to decode is silently left unset by `try?`. It
  does not fail the import.
- An undecodable `d` still selects the private writer
  (`RsaUtils.UndecodableLeftUnset`).
- `base64URLDecode` also lets `+`, `/` and `=` through to the standard decoder
  (`Base64Url.Decode`).

## Model

| member | source | states |
|---|---|---|
| Base64.EncodeShape | ios/RCTCrypto/RCTRsaUtils.swift:25 | `base64EncodedString()` is 4·⌈n/3⌉ characters: alphabet characters followed by exactly (3 − n mod 3) mod 3 `=` |
| Base64.SextetsLength | ios/RCTCrypto/RCTRsaUtils.swift:25 | the alphabet part plus the padding make whole four-character groups |
| Base64.EncodeWellFormed | ios/RCTCrypto/RCTRsaUtils.swift:25 | every standard encoding is text the standard decoder accepts |
| Base64.DecodeSucceedsIff | ios/RCTCrypto/RCTRsaUtils.swift:17 | `Data(base64Encoded:)` succeeds exactly on a multiple of four characters from the alphabet, with `=` only as the last one or two characters |
| Base64.DecodeEncode | ios/RCTCrypto/RCTRsaUtils.swift:17-25 | standard decoding inverts standard encoding for every byte string |
| Base64.ValueOfCharOf | ios/RCTCrypto/RCTRsaUtils.swift:25 | the alphabet maps each 6-bit value to a character that decodes back to it |
| Base64Url.PadRight | ios/RCTCrypto/RCTRsaUtils.swift:15 | `padding(toLength:withPad:startingAt: 0)` gives exactly the requested length: the original characters, cut off or followed by the pad (lengths counted in characters; see Left out) |
| Base64Url.PaddedLength | ios/RCTCrypto/RCTRsaUtils.swift:15 | `((count + 3) / 4) * 4` is a multiple of four, at least the length and at most three more |
| Base64Url.ReplaceCharInverse | ios/RCTCrypto/RCTRsaUtils.swift:16 | replacing one character by another that the text does not use removes the first and is undone by the reverse replacement |
| Base64Url.ToStdToUrl | ios/RCTCrypto/RCTRsaUtils.swift:16-26 | the decoder's `-`→`+`, `_`→`/` translation undoes the encoder's `+`→`-`, `/`→`_` on text without `-` or `_` |
| Base64Url.ToUrlToStd | ios/RCTCrypto/RCTRsaUtils.swift:16-26 | the encoder's translation undoes the decoder's on text without `+` or `/` |
| Base64Url.RemoveChar | ios/RCTCrypto/RCTRsaUtils.swift:26 | deleting `=` leaves no `=` and adds no character |
| Base64Url.Padded | ios/RCTCrypto/RCTRsaUtils.swift:14-16 | before standard decoding, the input is padded with `=` to the next multiple of four and `-`/`_` become `+`/`/` |
| Base64Url.Decode | ios/RCTCrypto/RCTRsaUtils.swift:13-18 | nil for a length ≡ 1 (mod 4); over the URL alphabet it succeeds exactly when the length is not ≡ 1 (mod 4); on success every character is from either alphabet or `=` (for text whose characters are each a single grapheme cluster; see Left out) |
| Base64Url.DecodeRejectsLength | ios/RCTCrypto/RCTRsaUtils.swift:13-18 | a length ≡ 1 (mod 4) gets three `=` and the standard decoder rejects it (for text whose characters are each a single grapheme cluster; see Left out) |
| Base64Url.DecodeAcceptsUrl | ios/RCTCrypto/RCTRsaUtils.swift:13-18 | any URL-alphabet text whose length is not ≡ 1 (mod 4) decodes |
| Base64Url.DecodeRejectsForeign | ios/RCTCrypto/RCTRsaUtils.swift:13-18 | a character outside both alphabets that is not `=` makes decoding return nil (for text whose characters are each a single grapheme cluster; see Left out) |
| Base64Url.DecodeAccepts | ios/RCTCrypto/RCTRsaUtils.swift:13-18 | the three acceptance facts together, for every input (for text whose characters are each a single grapheme cluster; see Left out) |
| Base64Url.Encode | ios/RCTCrypto/RCTRsaUtils.swift:23-27 | the output is over the URL alphabet and its length is never ≡ 1 (mod 4) |
| Base64Url.EncodeOmitsStdChars | ios/RCTCrypto/RCTRsaUtils.swift:26 | the output contains no `+`, `/` or `=` |
| Base64Url.EncodeIsTrimmedStd | ios/RCTCrypto/RCTRsaUtils.swift:25-26 | the output is the standard encoding with `+`→`-`, `/`→`_` and the trailing padding removed |
| Base64Url.RemoveTrailingRun | ios/RCTCrypto/RCTRsaUtils.swift:26 | deleting `=` from text that has `=` only as a trailing run cuts off exactly that run |
| Base64Url.UnpadStd | ios/RCTCrypto/RCTRsaUtils.swift:26 | translating a standard encoding and deleting `=` gives its translated alphabet part |
| Base64Url.RepadStd | ios/RCTCrypto/RCTRsaUtils.swift:14-16 | re-padding and translating back the URL form of a standard encoding restores it exactly |
| Base64Url.PaddedEncode | ios/RCTCrypto/RCTRsaUtils.swift:13-27 | what the decoder hands to the standard decoder, for an encoder output, is the standard encoding of the same bytes |
| Base64Url.DecodeEncode | ios/RCTCrypto/RCTRsaUtils.swift:13-27 | `base64URLDecode(base64URLEncode(b)) == b` for every byte string `b` |
| Base64Url.DecodeSample | ios/RCTCrypto/RCTRsaUtils.swift:13-18 | `"AQAB"` decodes to the bytes 01 00 01 |
| BigNum.NumBits | ios/RCTCrypto/RCTRsaUtils.swift:155 | `BN_num_bits` is 0 exactly for zero, and otherwise the `k` with 2^(k−1) ≤ v < 2^k |
| BigNum.ToBigEndian | ios/RCTCrypto/RCTRsaUtils.swift:156 | the bytes `BN_bn2bin` writes are empty exactly for zero, never start with a zero byte, and have n bytes when 256^(n−1) ≤ v < 256^n |
| BigNum.FromBigEndian | ios/RCTCrypto/RCTRsaUtils.swift:166 | `BN_bin2bn` of n bytes is below 256^n |
| BigNum.StripLeadingZeros | ios/RCTCrypto/RCTRsaUtils.swift:166 | the result is empty or starts with a non-zero byte |
| BigNum.StripLeadingZerosSplit | ios/RCTCrypto/RCTRsaUtils.swift:166 | what is dropped is a run of zero bytes and what remains is the rest of the input |
| BigNum.BitsOfBytes | ios/RCTCrypto/RCTRsaUtils.swift:155 | a non-zero value whose minimal big-endian form has n bytes has between 8n − 7 and 8n significant bits |
| BigNum.ByteLength | ios/RCTCrypto/RCTRsaUtils.swift:155-156 | the minimal big-endian form has exactly `(BN_num_bits + 7) / 8` bytes, the buffer size the code allocates |
| BigNum.FromToBigEndian | ios/RCTCrypto/RCTRsaUtils.swift:154-169 | reading back the written bytes gives the value |
| BigNum.ToFromBigEndian | ios/RCTCrypto/RCTRsaUtils.swift:164-166 | writing back a read value gives the input without its leading zero bytes |
| BigNum.Bn2Bin | ios/RCTCrypto/RCTRsaUtils.swift:155-156 | filling the zeroed buffer of `(BN_num_bits + 7) / 8` bytes leaves exactly the big-endian bytes of the value |
| RsaUtils.OccursSomewhere | ios/RCTCrypto/RCTRsaUtils.swift:115 | the left-to-right substring search succeeds exactly when the pattern occurs at some index |
| RsaUtils.ContainsOccurs | ios/RCTCrypto/RCTRsaUtils.swift:115 | `contains` holds exactly when the pattern is non-empty and occurs at some index; `contains("")` is false |
| RsaUtils.Base64UrlToBignum | ios/RCTCrypto/RCTRsaUtils.swift:160-169 | throws (None) exactly when `base64URLDecode` returns nil; otherwise the value's minimal bytes are the decoded bytes without leading zeros, and the value is below 256^(byte count) |
| RsaUtils.BigNumToBase64 | ios/RCTCrypto/RCTRsaUtils.swift:154-158 | the result is the base64url encoding of the minimal big-endian bytes, and `base64URLToBignum` of it gives the number back |
| RsaUtils.ZeroIsEmpty | ios/RCTCrypto/RCTRsaUtils.swift:154-169 | zero is exported as `""`, and `""` imports as zero |
| RsaUtils.PublicExponentSample | ios/RCTCrypto/RCTRsaUtils.swift:160-169 | `"AQAB"` imports as 65537 |
| RsaUtils.GarbageSample | ios/RCTCrypto/RCTRsaUtils.swift:160-163 | `"!!!not-base64!!!"` does not decode |
| RsaUtils.DecodedField | ios/RCTCrypto/RCTRsaUtils.swift:49-73 | a component is set only from a String member that decodes |
| RsaUtils.ReadComponent | ios/RCTCrypto/RCTRsaUtils.swift:49-73 | one `if let … as? String { new_x = try? base64URLToBignum(…) }` step leaves exactly the decoded field: set only from a String member that decodes |
| RsaUtils.ImportKey | ios/RCTCrypto/RCTRsaUtils.swift:43-103 | writes the record of decoded members, in private form exactly when `d` is a String, and returns nil exactly when the status is not 1, the output is empty or it is not UTF-8; otherwise it returns the UTF-8 text |
| RsaUtils.ImportedComponent | ios/RCTCrypto/RCTRsaUtils.swift:49-73 | a component is set exactly when its member is a String that decodes, and then holds the big-endian value of the decoded bytes |
| RsaUtils.UndecodableLeftUnset | ios/RCTCrypto/RCTRsaUtils.swift:55-58 | an undecodable String member leaves its component unset without failing; for `d` the key is still private |
| RsaUtils.ForeignCharacterLeftUnset | ios/RCTCrypto/RCTRsaUtils.swift:49-73 | a member with a character outside both alphabets leaves its component unset (for text whose characters are each a single grapheme cluster; see Left out) |
| RsaUtils.NonStringIgnored | ios/RCTCrypto/RCTRsaUtils.swift:49-73 | a non-String member imports exactly as if it were absent, both for the record and for the public/private choice |
| RsaUtils.Metadata | ios/RCTCrypto/RCTRsaUtils.swift:119-124 | the fixed members are exactly `alg`, `ext`, `key_ops`, `kty` |
| RsaUtils.PresentNames | ios/RCTCrypto/RCTRsaUtils.swift:126-149 | the member names are exactly those of the components the key has |
| RsaUtils.ExportedValueDecodes | ios/RCTCrypto/RCTRsaUtils.swift:154-169 | the member written for a component decodes back to it |
| RsaUtils.ImportExported | ios/RCTCrypto/RCTRsaUtils.swift:126-149 | a JWK holding exactly a key's components, as written by export, imports as that key, in private form exactly when it has `d` |
| RsaUtils.PutComponent | ios/RCTCrypto/RCTRsaUtils.swift:126-128 | one conditional insert sets that field's member exactly when the key has the component, and extends the set of handled fields by it |
| RsaUtils.ExportedStep | ios/RCTCrypto/RCTRsaUtils.swift:126-149 | each conditional insert keeps the fixed members and the members of the fields handled so far |
| RsaUtils.ExportedAll | ios/RCTCrypto/RCTRsaUtils.swift:119-151 | after all eight fields, the keys are the four fixed names plus the present components, with the fixed values |
| RsaUtils.ExportKey | ios/RCTCrypto/RCTRsaUtils.swift:111-152 | the keys are exactly `alg`, `ext`, `key_ops`, `kty` plus one per present component. The fixed values are `RSA-OAEP-256`, `true` and `RSA`. `key_ops` is `["encrypt"]` iff the text contains `PUBLIC`, otherwise `["decrypt"]`. Each component's value is its `bigNumToBase64`. Importing the result gives back the parsed key |

## Left out

- OpenSSL internals are foreign code:
  - `RSA_new`, `RSA_set0_key`, `RSA_set0_factors` and `RSA_set0_crt_params`,
    including their refusal of some missing-component combinations.
  - `PEM_write_bio_*`, `PEM_read_bio_*` and the `BIO_*` buffer calls.

  They are the `PemWriter` and `PemReader` parameters. PKCS#1 DER/ASN.1 and
  PEM framing are therefore not modelled.
- The `RSA_get0_*` getters are the record's optional fields, because the
  reader returns the record directly.
- RsaUtils.ExportKey: requires that the reader parses the text. The code calls
  the getters on the reader's result without checking it for nil, and that
  case has no defined outcome.
- RsaUtils.ExportKey: `BIO_new_mem_buf(pkcs1.utf8String, Int32(pkcs1.length))`
  passes a UTF-16 length with a UTF-8 buffer. The mismatch for non-ASCII text
  is not modelled; the reader receives the whole text.
- RsaUtils.ImportKey: the `Int32` conversions of the pending length and the
  `allocate`/`BIO_read` copy are not modelled. The pending bytes are the
  writer's output.
- The React Native bridge methods `importKey(_:resolver:rejecter:)` and
  `exportKey(_:resolver:rejecter:)` (lines 33-41 and 105-109) are host-runtime
  plumbing. They only resolve or reject a promise with the results modelled here.
- Memory management is left out: the `defer` frees, the allocation at line 94
  and the `OpaquePointer` helper extension (lines 173-189).
  `BN_bin2bn` is treated as never failing to allocate, so the force unwrap at
  line 166 never traps.
- Cryptographic validity of keys, such as n = p·q or a correct d: the code
  never checks it.
- Base64.Decode: Foundation's decoder is modelled with these assumptions:
  - It is strict about the alphabet and padding: no whitespace, and padding
    only at the end.
  - It discards non-zero bits in the last character before the padding
    instead of rejecting them. The source does not settle this, and section
    3.5 of RFC 4648 allows either.
- Base64Url.PadRight: strings are sequences of `char` and every length is
  counted in characters. In the source, `count` counts grapheme clusters while
  `padding(toLength:)` pads or cuts in UTF-16 units, so it cuts off the units
  beyond the grapheme-derived length. Text ending in combining marks can
  therefore decode in the source and be rejected here: `"AQAB"` followed by
  U+0301 has 4 graphemes, is cut to `"AQAB"` and decodes to 01 00 01, while
  the model sees 5 characters and returns nil. Base64Url.Decode,
  Base64Url.DecodeRejectsLength, Base64Url.DecodeRejectsForeign,
  Base64Url.DecodeAccepts and RsaUtils.ForeignCharacterLeftUnset hold of the
  source only for text whose characters are each a single grapheme cluster,
  which includes all text over the two base64 alphabets.
- BigNum.NumBits: the `Int32` result of `BN_num_bits` is unbounded here. Keys
  anywhere near 2^31 bits do not exist.
