# AmazonProductService — request signing, modelled in Dafny

`AmazonProductService` is a small PHP client for Amazon's Product
Advertising web service. Before each call it:

1. adds six fixed fields to the caller's parameters: `Service`,
   `AssociateTag`, `AWSAccessKeyId`, `Operation`, `Version` and `Timestamp`;
2. turns every parameter into a canonical `enc(key)=enc(value)` pair, where
   `enc` is `rawurlencode` followed by a `%7E` → `~` rewrite;
3. signs the request with signature version 2:
   - sort a copy of the pairs;
   - join them with `&`;
   - put `GET`, the host and the path in front, on three lines;
   - compute HMAC-SHA256 under the secret key, base64 it, and percent-encode
     the result;
4. fetches `endpoint?pairs&Signature=sig`.

The model covers the credentials the client holds, the six injections with
PHP's overwrite-in-place array semantics, the canonical pairs, the string to
sign, the signature encoding and the request URL.

Modules:

- `PhpStrings`: bytes, plus `implode`, `explode` and `str_replace`, and the
  `strcmp` order.
- `PercentEncoding`: the service's encoder, an RFC 3986 reference encoder,
  and `rawurldecode`.
- `Sorting`: `asort` on strings.
- `PhpArray`: PHP arrays with string keys, as ordered lists of entries.
- `ProductService`: the class itself and the functions that specify it.
- `ServiceProperties`: what the URL and the signed string guarantee.
- `Wrappers`: `Option`.

The proved properties include:

- After `get`'s assignments every fixed field holds its value, and every
  other caller parameter keeps its value and its position.
- The encoder is RFC 3986 percent-encoding.
- The encoder output is well formed, and decoding it gives the input back.
- The string signed has exactly four lines, and the last one is the sorted
  pairs.
- With distinct names, the sorted pairs strictly increase.
- A receiver that splits the URL at `&` and `=` and decodes each part gets
  back every parameter, in insertion order, and then the signature.

## Model

| member | source | states |
|---|---|---|
| ProductService.AmazonProductService.constructor | AmazonProductService.php:38-48 | a credential is stored only when it is not `empty()` (neither `""` nor `"0"`); otherwise the field stays unset |
| ProductService.AmazonProductService.Get | AmazonProductService.php:55-68 | the URL built is `RequestUrl` of the held credentials, the operation, the caller's parameters and the clock reading; its properties are `RequestUrlRoundTrip` and the `Injected*` lemmas |
| ProductService.AmazonProductService.BuildSignature | AmazonProductService.php:79-97 | the signature is `enc(base64(hmac(StringToSign(pairs), secret)))`; it equals the base64 text with `+ / =` escaped as `%2B %2F %3D`, so none of those three is left |
| ProductService.AmazonProductService.BuildCanonicalQuery | AmazonProductService.php:99-108 | one pair per parameter in parameter order; pair i is `enc(key_i) + "=" + enc(value_i)` |
| ProductService.SignatureEscapes | AmazonProductService.php:91-94 | on base64 text the encoder escapes exactly `+`, `/` and `=` and keeps every other character; no `+`, `/` or `=` remains |
| ProductService.PercentEncodeBase64 | AmazonProductService.php:94 | RFC 3986 encoding of base64 text is the three-character escaping `EscapeBase64` |
| PercentEncoding.EncodeIsPercentEncode | AmazonProductService.php:94 | `str_replace('%7E','~',rawurlencode(s))` equals RFC 3986 percent-encoding of `s`, with upper-case hex and `~` literal |
| PercentEncoding.FixupHarmless | AmazonProductService.php:104 | on the output of a `rawurlencode` that already keeps `~` (PHP 5.3+), the `%7E` rewrite changes nothing, so both PHP behaviours give the same pairs |
| PercentEncoding.EncodeAlphabet | AmazonProductService.php:104 | encoder output has only unreserved bytes and `%` plus two upper-case hex digits; `%7E` never occurs; `=` and `&` never occur |
| PercentEncoding.NotInEncoding | AmazonProductService.php:104 | no byte that is neither unreserved nor `%` appears in the encoder's output |
| PercentEncoding.EncodeFixedPoint | AmazonProductService.php:104 | a string encodes to itself exactly when all its bytes are unreserved (both directions) |
| PercentEncoding.DecodeEncode | AmazonProductService.php:104 | `rawurldecode(enc(s)) == s` for every byte string |
| PercentEncoding.EncodeInjective | AmazonProductService.php:104 | different strings encode differently |
| PercentEncoding.PercentEncode | AmazonProductService.php:104 | the reference encoder's output is between one and three times as long as its input |
| PercentEncoding.StrReplaceEscape | AmazonProductService.php:94 | `str_replace('%7E','~',…)` turns the escape of `~` into `~` and keeps any other escape |
| PhpStrings.ExplodeImplode | AmazonProductService.php:68 | `explode(d, implode(d, pieces)) == pieces` when no piece contains `d` |
| PhpStrings.ImplodeExplode | AmazonProductService.php:85 | `implode(d, explode(d, s)) == s` |
| PhpStrings.PrecedesTransitive | AmazonProductService.php:82 | the byte order `strcmp` uses is transitive |
| PhpStrings.PrecedesTotal | AmazonProductService.php:82 | of two different strings, one precedes the other |
| PhpStrings.PrecedesAsymmetric | AmazonProductService.php:82 | no two strings precede each other |
| Sorting.SortAscending | AmazonProductService.php:82 | the sorted copy is in ascending byte order and is a permutation of the input (same multiset) |
| Sorting.Insert | AmazonProductService.php:82 | inserting into a sorted list keeps it sorted and adds exactly one occurrence |
| Sorting.SortedPermutationUnique | AmazonProductService.php:82 | two sorted permutations of the same list are equal, so any algorithm `asort` uses gives `SortAscending`'s order |
| Sorting.DistinctSortedStrict | AmazonProductService.php:82 | sorting pairwise different strings yields a strictly ascending list |
| PhpArray.Put | AmazonProductService.php:57-62 | `$a[k] = v` keeps keys distinct; it keeps the key list when `k` is present and appends `k` otherwise |
| PhpArray.PutLookup | AmazonProductService.php:57-62 | after `$a[k] = v`, `k` holds `v` and every other key holds what it held |
| PhpArray.Lookup | AmazonProductService.php:57-62 | a lookup finds a value exactly when the key is present |
| PhpArray.LookupAt | AmazonProductService.php:57-62 | the entry at each position is what looking up its key finds |
| ServiceProperties.InjectedValues | AmazonProductService.php:57-62 | after the six assignments, a looked-up name holds the last value assigned to it, or the caller's value when it is not a fixed name |
| ServiceProperties.InjectedKeys | AmazonProductService.php:57-62 | after the six assignments the names are the caller's, in place, then the fixed names the caller did not give, in assignment order |
| ServiceProperties.InjectedLookups | AmazonProductService.php:57-62 | `Service=AWSECommerceService`, `AssociateTag`, `AWSAccessKeyId`, `Operation`, `Version=2011-08-01` and `Timestamp` hold their values; every other name is unchanged |
| ServiceProperties.InjectedPositions | AmazonProductService.php:57-62 | every caller parameter keeps its position; one with a non-fixed name keeps its value too |
| ServiceProperties.InjectedFields | AmazonProductService.php:57-62 | all of the above together, with distinct names preserved |
| ServiceProperties.InjectIntoEmpty | AmazonProductService.php:57-62 | with no caller parameters the request has exactly the six fixed fields, in assignment order |
| ServiceProperties.DecodeCanonicalPair | AmazonProductService.php:104 | a pair splits at `=` into exactly the encoded key and value and decodes back to the parameter |
| ServiceProperties.CanonicalPairInjective | AmazonProductService.php:104 | different parameters give different pairs |
| ServiceProperties.CanonicalPairBytes | AmazonProductService.php:104 | a pair contains no `&` and no line break |
| ServiceProperties.SignedPairsStrictlyIncrease | AmazonProductService.php:82 | with distinct names the pairs are distinct, and the sorted copy strictly increases and is a permutation of them |
| ServiceProperties.StringToSignLines | AmazonProductService.php:82-88 | the string signed is `GET\nwebservices.amazon.com\n/onca/xml\n` plus any sorted permutation of the pairs joined by `&`; it splits into exactly those four lines |
| ServiceProperties.SignedPrefixLines | AmazonProductService.php:88 | the three-line prefix followed by a line without a line break splits into the method, host, path and that line |
| ServiceProperties.UrlQuery | AmazonProductService.php:68 | the URL is the endpoint, `?`, then the pairs and `Signature=sig` joined by `&` |
| ServiceProperties.UrlCarriesParameters | AmazonProductService.php:68 | splitting the query at `&` gives the pairs in insertion order and then `Signature=sig` |
| ServiceProperties.SignatureFieldDecodes | AmazonProductService.php:68 | the `Signature` field decodes to the unencoded base64 digest |
| ServiceProperties.FieldsDecode | AmazonProductService.php:64-68 | every field of the URL decodes to its parameter, in order, and the last to the signature |
| ServiceProperties.RequestUrlRoundTrip | AmazonProductService.php:55-68 | end to end, `get`'s URL starts with the endpoint and `?`; it has one field per injected parameter, each decoding to that parameter in insertion order, and then a `Signature` field decoding to the base64 HMAC of the string to sign |
| PercentEncoding.RawUrlEncode | AmazonProductService.php:94 | definition of `rawurlencode` (PHP before 5.3: only `A-Z a-z 0-9 - _ .` pass); its property with the rewrite is `EncodeIsPercentEncode` |
| PercentEncoding.Encode | AmazonProductService.php:104 | definition of the encoder, `str_replace('%7E','~',rawurlencode(s))`; its properties are `EncodeIsPercentEncode`, `EncodeAlphabet`, `DecodeEncode` and `EncodeInjective` |
| PercentEncoding.PercentDecode | AmazonProductService.php:104 | definition of the receiver's `rawurldecode`; `DecodeEncode` proves it inverts the encoder |
| PhpStrings.Implode | AmazonProductService.php:85 | definition of `implode`; `ExplodeImplode` and `ImplodeExplode` prove it and `explode` undo each other |
| PhpStrings.StrReplace | AmazonProductService.php:94 | definition of `str_replace`, left to right; `StrReplaceEscape` and `FixupHarmless` state its effect on encoder output |
| PhpStrings.Precedes | AmazonProductService.php:82 | definition of the `strcmp` byte order; `PrecedesTransitive`, `PrecedesTotal` and `PrecedesAsymmetric` prove it a strict total order |
| ProductService.PhpEmpty | AmazonProductService.php:39-45 | definition of `empty()` on a string (`""` or `"0"`); used by the constructor's contract |
| ProductService.CanonicalPair | AmazonProductService.php:104 | definition of one pair `enc(k)=enc(v)`; `DecodeCanonicalPair` and `CanonicalPairInjective` state its properties |
| ProductService.CanonicalQuery | AmazonProductService.php:99-108 | definition of the pair list; `BuildCanonicalQuery` is proved to compute it |
| ProductService.StringToSign | AmazonProductService.php:82-88 | definition of the string to sign; `StringToSignLines` states its four lines |
| ProductService.Signature | AmazonProductService.php:91-94 | definition of the signature; `BuildSignature` computes it and `SignatureEscapes` states its alphabet |
| ProductService.InjectFixedFields | AmazonProductService.php:57-62 | definition of the six assignments; `InjectedFields` states their effect |
| ProductService.ServiceUrl | AmazonProductService.php:68 | definition of the URL concatenation; `UrlQuery` and `UrlCarriesParameters` state its shape |
| ProductService.RequestUrl | AmazonProductService.php:55-68 | definition of the URL `get` requests; `RequestUrlRoundTrip` states what a receiver decodes from it |
| ProductService.Crypto | AmazonProductService.php:91 | the HMAC-SHA256 and base64 routines as parameters; `Crypto.Valid` is the only assumption, that base64 output stays in its alphabet |

## Left out

- Sending the request (`file_get_contents`, line 71), parsing the answer
  (`simplexml_load_string`, line 74) and returning it. These are network
  I/O and an XML library. `Get` returns the URL it would fetch instead.
- The clock (`gmdate`, line 62). The timestamp is a parameter of `Get`, and
  its format is not checked.
- The internals of `hash_hmac('sha256', …)` and `base64_encode` (line 91).
  They are function fields of the `Crypto` parameter. The only assumption,
  `Crypto.Valid`, is that base64 output stays in the RFC 4648 alphabet.
- PHP values other than strings. Parameters, credentials and the operation
  are byte strings. An integer-like key such as `"5"`, which PHP stores as an
  integer key, is kept as a string; its text and position are the same
  either way. PHP's `null` for a credential that was never set is `None`,
  and it is sent and used as the HMAC key as `""`, as `rawurlencode(null)`
  and `hash_hmac` do.
- PHP's numeric comparison in `asort`. It cannot apply, because every pair
  holds `=`, so no pair is a numeric string.
- `asort`'s in-place update and its own algorithm. The sort of the local
  copy is a value computation (`SortAscending`, an insertion sort).
  `SortedPermutationUnique` shows every sorted permutation is the same list,
  so neither the algorithm nor its stability matters. The array keys
  `asort` keeps are unused, because `implode` reads only the values.
- `rawurlencode`'s version. The encoder is modelled on PHP before 5.3,
  which also escapes `~`; that is the case the `%7E` rewrite exists for.
  `FixupHarmless` shows that on PHP 5.3+ output the rewrite changes
  nothing, so the pairs are the same on both.
- Errors in `get`. It raises none: with no stored secret it signs with an
  empty key, and it sends `AssociateTag=` and `AWSAccessKeyId=` empty when
  those were not stored. The model does the same.
- The constructor's skip-if-empty on an object that already holds values.
  PHP constructs a fresh object each time, so its fields start unset
  (`None`); a field that is not assigned keeps that.
