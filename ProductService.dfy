/**
 * The client of the product-advertising web service: the credentials it
 * holds, the fixed fields it adds to every request, the canonical
 * `key=value` pairs, the request signature (signature version 2: HMAC-SHA256
 * over a four-line string, base64, then percent-encoded) and the request URL.
 * Sending the request and parsing the XML answer are not modelled.
 */
module ProductService {
  import opened Wrappers
  import opened PhpStrings
  import opened PercentEncoding
  import opened Sorting
  import opened PhpArray

  const ApiBaseUri: Bytes := "http://webservices.amazon.com/onca/xml"
  const ApiVersion: Bytes := "2011-08-01"

  /** The first three lines of the string to sign: method, host, path. */
  const HttpMethod: Bytes := "GET"
  const Host: Bytes := "webservices.amazon.com"
  const RequestPath: Bytes := "/onca/xml"
  const SignedPrefix: Bytes := HttpMethod + "\n" + Host + "\n" + RequestPath + "\n"

  // Names of the fixed fields, and the service name.
  const ServiceKey: Bytes := "Service"
  const AssociateTagKey: Bytes := "AssociateTag"
  const AccessKeyIdKey: Bytes := "AWSAccessKeyId"
  const OperationKey: Bytes := "Operation"
  const VersionKey: Bytes := "Version"
  const TimestampKey: Bytes := "Timestamp"
  const ServiceName: Bytes := "AWSECommerceService"

  const SignatureKey: Bytes := "Signature"
  const SignatureField: Bytes := "&" + SignatureKey + "="

  /** The fields every request carries, in the order they are assigned. */
  const FixedKeys: seq<Bytes> := [ServiceKey, AssociateTagKey, AccessKeyIdKey, OperationKey, VersionKey, TimestampKey]

  /** The base64 alphabet of section 4 of RFC 4648, padding included. */
  predicate IsBase64Char(b: Byte)
  {
    IsAlphaNum(b) || b == '+' || b == '/' || b == '='
  }

  predicate IsBase64Text(t: Bytes)
  {
    forall i :: 0 <= i < |t| ==> IsBase64Char(t[i])
  }

  /** The library routines the signer calls and this model does not look
      into: `hash_hmac('sha256', data, key, TRUE)` (RFC 2104) and
      `base64_encode`. All that is assumed of them is that base64 output
      stays in its alphabet. */
  datatype Crypto = Crypto(hmacSha256: (Bytes, Bytes) -> Bytes, base64Encode: Bytes -> Bytes)
  {
    ghost predicate Valid()
    {
      forall d :: IsBase64Text(base64Encode(d))
    }
  }

  /** PHP's `empty()` on a string argument: the empty string and "0". */
  predicate PhpEmpty(s: Bytes)
  {
    s == [] || s == "0"
  }

  /** One canonical pair: `enc(key) + "=" + enc(value)`. */
  function CanonicalPair(e: Entry): Bytes
  {
    Encode(e.key) + "=" + Encode(e.value)
  }

  /** The canonical pairs of all parameters, in the parameters' order. */
  function CanonicalQuery(p: seq<Entry>): seq<Bytes>
  {
    seq(|p|, i requires 0 <= i < |p| => CanonicalPair(p[i]))
  }

  /** Method, host and path on three lines, then the pairs in ascending
      byte order joined by `&`. */
  function StringToSign(canonicalQuery: seq<Bytes>): Bytes
  {
    SignedPrefix + Implode("&", SortAscending(canonicalQuery))
  }

  /** The value sent as `Signature`. */
  function Signature(canonicalQuery: seq<Bytes>, secretKey: Bytes, crypto: Crypto): Bytes
  {
    Encode(crypto.base64Encode(crypto.hmacSha256(StringToSign(canonicalQuery), secretKey)))
  }

  /** The caller's parameters after the six assignments that start `get`. */
  function InjectFixedFields(p: seq<Entry>, associateTag: Bytes, accessKey: Bytes, operation: Bytes, timestamp: Bytes): seq<Entry>
    requires DistinctKeys(p)
  {
    var p1 := Put(p, ServiceKey, ServiceName);
    var p2 := Put(p1, AssociateTagKey, associateTag);
    var p3 := Put(p2, AccessKeyIdKey, accessKey);
    var p4 := Put(p3, OperationKey, operation);
    var p5 := Put(p4, VersionKey, ApiVersion);
    Put(p5, TimestampKey, timestamp)
  }

  /** The endpoint, the pairs in parameter order, then the signature. */
  function ServiceUrl(canonicalQuery: seq<Bytes>, signature: Bytes): Bytes
  {
    ApiBaseUri + "?" + Implode("&", canonicalQuery) + SignatureField + signature
  }

  /** The URL `get` requests for a client holding the given credentials.
      A credential that was never stored is PHP's null, which
      `rawurlencode` and `hash_hmac` both treat as the empty string. */
  function RequestUrl(associateTag: Option<Bytes>, accessKey: Option<Bytes>, secretKey: Option<Bytes>,
                      operation: Bytes, parameters: seq<Entry>, timestamp: Bytes, crypto: Crypto): Bytes
    requires DistinctKeys(parameters)
  {
    var injected := InjectFixedFields(parameters, associateTag.GetOr([]), accessKey.GetOr([]), operation, timestamp);
    var canonicalQuery := CanonicalQuery(injected);
    ServiceUrl(canonicalQuery, Signature(canonicalQuery, secretKey.GetOr([]), crypto))
  }

  /** Percent-escapes the three base64 characters outside the unreserved set. */
  const EscapedPlus: Bytes := "%2B"
  const EscapedSlash: Bytes := "%2F"
  const EscapedEquals: Bytes := "%3D"

  function EscapeBase64Char(c: Byte): Bytes
  {
    if c == '+' then EscapedPlus else if c == '/' then EscapedSlash else if c == '=' then EscapedEquals else [c]
  }

  function EscapeBase64(t: Bytes): Bytes
  {
    if t == [] then [] else EscapeBase64Char(t[0]) + EscapeBase64(t[1..])
  }

  /** The three base64 characters that are not unreserved have these escapes. */
  lemma PercentEncodeBase64Char(c: Byte)
    requires IsBase64Char(c)
    ensures (if IsUnreserved(c) then [c] else Escape(c)) == EscapeBase64Char(c)
  {
  }

  lemma {:induction false} PercentEncodeBase64(t: Bytes)
    requires IsBase64Text(t)
    ensures PercentEncode(t) == EscapeBase64(t)
    decreases |t|
  {
    if t != [] {
      assert IsBase64Text(t[1..]) by {
        forall i | 0 <= i < |t[1..]| ensures IsBase64Char(t[1..][i]) {
          assert t[1..][i] == t[i + 1];
        }
      }
      PercentEncodeBase64(t[1..]);
      PercentEncodeBase64Char(t[0]);
    }
  }

  /** Encoding base64 text: `+`, `/` and `=` become `%2B`, `%2F` and `%3D`,
      every other character is kept, so none of the three is left. */
  lemma SignatureEscapes(t: Bytes)
    requires IsBase64Text(t)
    ensures Encode(t) == EscapeBase64(t)
    ensures '+' !in Encode(t) && '/' !in Encode(t) && '=' !in Encode(t)
  {
    EncodeIsPercentEncode(t);
    PercentEncodeBase64(t);
    NotInEncoding(t, '+');
    NotInEncoding(t, '/');
    NotInEncoding(t, '=');
  }

  class AmazonProductService {
    var associateTag: Option<Bytes>
    var accessKey: Option<Bytes>
    var secretKey: Option<Bytes>

    /** Stores each credential only when it is not `empty()`; a credential
        left out stays unset (PHP null). */
    constructor (accessKey: Bytes, secretKey: Bytes, associateTag: Bytes)
      ensures this.accessKey == (if PhpEmpty(accessKey) then None else Some(accessKey))
      ensures this.secretKey == (if PhpEmpty(secretKey) then None else Some(secretKey))
      ensures this.associateTag == (if PhpEmpty(associateTag) then None else Some(associateTag))
    {
      this.accessKey := None;
      this.secretKey := None;
      this.associateTag := None;
      if !PhpEmpty(accessKey) {
        this.accessKey := Some(accessKey);
      }
      if !PhpEmpty(secretKey) {
        this.secretKey := Some(secretKey);
      }
      if !PhpEmpty(associateTag) {
        this.associateTag := Some(associateTag);
      }
    }

    /** The URL `get` fetches for `operation` with the caller's parameters;
        `timestamp` stands for the UTC clock reading `gmdate` would give. */
    method Get(operation: Bytes, parameters: seq<Entry>, timestamp: Bytes, crypto: Crypto) returns (serviceUrl: Bytes)
      requires DistinctKeys(parameters)
      requires crypto.Valid()
      ensures serviceUrl == RequestUrl(associateTag, accessKey, secretKey, operation, parameters, timestamp, crypto)
    {
      // The array is a value: these assignments change the local copy only.
      var params := parameters;
      params := Put(params, ServiceKey, ServiceName);
      params := Put(params, AssociateTagKey, associateTag.GetOr([]));
      params := Put(params, AccessKeyIdKey, accessKey.GetOr([]));
      params := Put(params, OperationKey, operation);
      params := Put(params, VersionKey, ApiVersion);
      params := Put(params, TimestampKey, timestamp);

      var canonicalQuery := BuildCanonicalQuery(params);
      assert canonicalQuery == CanonicalQuery(params);
      var signature := BuildSignature(canonicalQuery, crypto);
      serviceUrl := ServiceUrl(canonicalQuery, signature);
    }

    /** Sorts a copy of the pairs, joins them, signs the four-line string
        and percent-encodes the base64 digest. */
    method BuildSignature(canonicalQuery: seq<Bytes>, crypto: Crypto) returns (signature: Bytes)
      requires crypto.Valid()
      ensures signature == Signature(canonicalQuery, secretKey.GetOr([]), crypto)
      ensures signature == EscapeBase64(crypto.base64Encode(crypto.hmacSha256(StringToSign(canonicalQuery), secretKey.GetOr([]))))
      ensures '+' !in signature && '/' !in signature && '=' !in signature
    {
      // asort sorts this local copy; the caller's list keeps its order.
      var sorted := canonicalQuery;
      sorted := SortAscending(sorted);
      var canonicalString := Implode("&", sorted);
      var stringToSign := SignedPrefix + canonicalString;
      var digest := crypto.base64Encode(crypto.hmacSha256(stringToSign, secretKey.GetOr([])));
      signature := Encode(digest);
      SignatureEscapes(digest);
    }

    /** One `enc(key)=enc(value)` string per parameter, in parameter order. */
    method BuildCanonicalQuery(parameters: seq<Entry>) returns (canonicalQuery: seq<Bytes>)
      ensures |canonicalQuery| == |parameters|
      ensures forall i :: 0 <= i < |parameters| ==>
                canonicalQuery[i] == Encode(parameters[i].key) + "=" + Encode(parameters[i].value)
    {
      canonicalQuery := [];
      for n := 0 to |parameters|
        invariant |canonicalQuery| == n
        invariant forall i :: 0 <= i < n ==>
                    canonicalQuery[i] == Encode(parameters[i].key) + "=" + Encode(parameters[i].value)
      {
        canonicalQuery := canonicalQuery + [Encode(parameters[n].key) + "=" + Encode(parameters[n].value)];
      }
    }
  }
}
