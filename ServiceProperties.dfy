/**
 * What the request the client builds guarantees: the fixed fields it
 * injects, that a receiver splitting the URL at `&` and `=` and decoding
 * gets back every parameter in insertion order followed by the signature,
 * that the signed string has exactly four lines ending in the sorted pairs,
 * and that with distinct names the sorted pairs strictly increase.
 */
module ServiceProperties {
  import opened Wrappers
  import opened PhpStrings
  import opened PercentEncoding
  import opened Sorting
  import opened PhpArray
  import opened ProductService

  /** How a receiver reads one `name=value` field of the query. */
  function DecodeField(f: Bytes): Option<Entry>
  {
    var parts := Explode('=', f);
    if |parts| == 2 then Some(Entry(PercentDecode(parts[0]), PercentDecode(parts[1]))) else None
  }

  lemma CanonicalPairBytes(e: Entry)
    ensures '&' !in CanonicalPair(e) && '\n' !in CanonicalPair(e)
  {
    NotInEncoding(e.key, '&');
    NotInEncoding(e.value, '&');
    NotInEncoding(e.key, '\n');
    NotInEncoding(e.value, '\n');
  }

  /** A canonical pair reads back as the parameter it was made from. */
  lemma DecodeCanonicalPair(e: Entry)
    ensures Explode('=', CanonicalPair(e)) == [Encode(e.key), Encode(e.value)]
    ensures DecodeField(CanonicalPair(e)) == Some(e)
  {
    var pieces := [Encode(e.key), Encode(e.value)];
    NotInEncoding(e.key, '=');
    NotInEncoding(e.value, '=');
    assert Implode("=", pieces) == CanonicalPair(e);
    ExplodeImplode('=', pieces);
    DecodeEncode(e.key);
    DecodeEncode(e.value);
  }

  /** Different parameters never give the same canonical pair. */
  lemma CanonicalPairInjective(a: Entry, b: Entry)
    requires CanonicalPair(a) == CanonicalPair(b)
    ensures a == b
  {
    DecodeCanonicalPair(a);
    DecodeCanonicalPair(b);
  }

  /** With distinct parameter names the pairs are distinct, so the sorted
      copy that is signed strictly increases, and it holds exactly the pairs
      the URL carries. */
  lemma SignedPairsStrictlyIncrease(p: seq<Entry>)
    requires DistinctKeys(p)
    ensures Distinct(CanonicalQuery(p))
    ensures multiset(SortAscending(CanonicalQuery(p))) == multiset(CanonicalQuery(p))
    ensures StrictlyIncreasing(SortAscending(CanonicalQuery(p)))
  {
    var q := CanonicalQuery(p);
    forall i, j | 0 <= i < j < |q| ensures q[i] != q[j] {
      if q[i] == q[j] {
        CanonicalPairInjective(p[i], p[j]);
      }
    }
    DistinctSortedStrict(q, SortAscending(q));
  }

  lemma NoByteInImplode(c: Byte, glue: Bytes, pieces: seq<Bytes>)
    requires c !in glue
    requires forall i :: 0 <= i < |pieces| ==> c !in pieces[i]
    ensures c !in Implode(glue, pieces)
    decreases |pieces|
  {
    if |pieces| > 1 {
      NoByteInImplode(c, glue, pieces[1..]);
    }
  }

  /** No separator line break appears in the method, host or path. */
  lemma PrefixLinesHaveNoBreak()
    ensures '\n' !in HttpMethod && '\n' !in Host && '\n' !in RequestPath
  {
  }

  /** The prefix is the method, the host and the path, each ended by a line
      break. */
  lemma SignedPrefixJoin(x: Bytes)
    ensures Implode("\n", [HttpMethod, Host, RequestPath, x]) == SignedPrefix + x
  {
    ImplodeCons("\n", RequestPath, [x]);
    ImplodeCons("\n", Host, [RequestPath, x]);
    ImplodeCons("\n", HttpMethod, [Host, RequestPath, x]);
    assert [Host] + [RequestPath, x] == [Host, RequestPath, x];
    assert [HttpMethod] + [Host, RequestPath, x] == [HttpMethod, Host, RequestPath, x];
  }

  /** Four lines joined by line breaks split back into the same four. */
  lemma FourLines(a: Bytes, b: Bytes, c: Bytes, x: Bytes)
    requires '\n' !in a && '\n' !in b && '\n' !in c && '\n' !in x
    ensures Explode('\n', Implode("\n", [a, b, c, x])) == [a, b, c, x]
  {
    ExplodeImplode('\n', [a, b, c, x]);
  }

  /** The prefix contributes three whole lines to whatever follows it. */
  lemma SignedPrefixLines(x: Bytes)
    requires '\n' !in x
    ensures Explode('\n', SignedPrefix + x) == [HttpMethod, Host, RequestPath, x]
  {
    SignedPrefixJoin(x);
    PrefixLinesHaveNoBreak();
    FourLines(HttpMethod, Host, RequestPath, x);
  }

  /** Any arrangement of the canonical pairs, joined by `&`, is one line. */
  lemma JoinedPairsHaveNoBreak(p: seq<Entry>, s: seq<Bytes>)
    requires multiset(s) == multiset(CanonicalQuery(p))
    ensures '\n' !in Implode("&", s)
  {
    var q := CanonicalQuery(p);
    forall i | 0 <= i < |s| ensures '\n' !in s[i] {
      assert s[i] in multiset(q);
      var j :| 0 <= j < |q| && q[j] == s[i];
      CanonicalPairBytes(p[j]);
    }
    NoByteInImplode('\n', "&", s);
  }

  /** The string signed is `GET`, the host and the path on three lines, then
      the pairs in ascending order (any sorted permutation of them) joined by
      `&`; it has exactly four lines. */
  lemma StringToSignLines(p: seq<Entry>, s: seq<Bytes>)
    requires Sorted(s) && multiset(s) == multiset(CanonicalQuery(p))
    ensures StringToSign(CanonicalQuery(p)) == SignedPrefix + Implode("&", s)
    ensures Explode('\n', StringToSign(CanonicalQuery(p))) == [HttpMethod, Host, RequestPath, Implode("&", s)]
  {
    SortedPermutationUnique(SortAscending(CanonicalQuery(p)), s);
    JoinedPairsHaveNoBreak(p, s);
    SignedPrefixLines(Implode("&", s));
  }

  /** The query of the URL is the pairs and then `Signature=` and the
      signature, all joined by `&`. */
  lemma UrlQuery(q: seq<Bytes>, sig: Bytes)
    requires |q| > 0
    ensures var url := ServiceUrl(q, sig);
      && |url| > |ApiBaseUri|
      && url[..|ApiBaseUri| + 1] == ApiBaseUri + "?"
      && url[|ApiBaseUri| + 1..] == Implode("&", q + [SignatureKey + "=" + sig])
  {
    var last := SignatureKey + "=" + sig;
    ImplodeSnoc("&", q, last);
    var rest := Implode("&", q) + SignatureField + sig;
    assert rest == Implode("&", q + [last]);
    assert ServiceUrl(q, sig) == (ApiBaseUri + "?") + rest;
  }

  lemma SignatureKeyHasNoAmpersand()
    ensures '&' !in SignatureKey
  {
  }

  /** A receiver that takes the text after `?`, splits it at `&` and decodes
      each field gets every parameter back in order, then the signature. */
  lemma UrlCarriesParameters(p: seq<Entry>, sig: Bytes)
    requires |p| > 0
    requires '&' !in sig
    ensures var url := ServiceUrl(CanonicalQuery(p), sig);
      && |url| > |ApiBaseUri|
      && url[..|ApiBaseUri| + 1] == ApiBaseUri + "?"
      && Explode('&', url[|ApiBaseUri| + 1..]) == CanonicalQuery(p) + [SignatureKey + "=" + sig]
  {
    var q := CanonicalQuery(p);
    var last := SignatureKey + "=" + sig;
    UrlQuery(q, sig);
    SignatureKeyHasNoAmpersand();
    forall i | 0 <= i < |q + [last]| ensures '&' !in (q + [last])[i] {
      if i < |q| {
        CanonicalPairBytes(p[i]);
      } else {
        assert (q + [last])[i] == last;
      }
    }
    ExplodeImplode('&', q + [last]);
  }

  lemma {:induction false} MissingNone(ks: seq<Bytes>)
    ensures Missing(ks, []) == ks
    decreases |ks|
  {
    if ks != [] {
      MissingNone(ks[1..]);
    }
  }

  /** After injection each fixed field holds its value, and every other name
      holds what the caller gave, or stays absent. */
  lemma InjectedValues(p: seq<Entry>, associateTag: Bytes, accessKey: Bytes, operation: Bytes, timestamp: Bytes, k: Bytes)
    requires DistinctKeys(p)
    ensures Lookup(InjectFixedFields(p, associateTag, accessKey, operation, timestamp), k)
         == if k == TimestampKey then Some(timestamp)
            else if k == VersionKey then Some(ApiVersion)
            else if k == OperationKey then Some(operation)
            else if k == AccessKeyIdKey then Some(accessKey)
            else if k == AssociateTagKey then Some(associateTag)
            else if k == ServiceKey then Some(ServiceName)
            else Lookup(p, k)
  {
    var p1 := Put(p, ServiceKey, ServiceName);
    var p2 := Put(p1, AssociateTagKey, associateTag);
    var p3 := Put(p2, AccessKeyIdKey, accessKey);
    var p4 := Put(p3, OperationKey, operation);
    var p5 := Put(p4, VersionKey, ApiVersion);
    PutLookup(p, ServiceKey, ServiceName, k);
    PutLookup(p1, AssociateTagKey, associateTag, k);
    PutLookup(p2, AccessKeyIdKey, accessKey, k);
    PutLookup(p3, OperationKey, operation, k);
    PutLookup(p4, VersionKey, ApiVersion, k);
    PutLookup(p5, TimestampKey, timestamp, k);
  }

  /** The fixed names are pairwise different, and the trails of names
      assigned so far extend one name at a time. */
  lemma FixedKeyFacts()
    ensures AssociateTagKey !in [ServiceKey]
    ensures AccessKeyIdKey !in [ServiceKey, AssociateTagKey]
    ensures OperationKey !in [ServiceKey, AssociateTagKey, AccessKeyIdKey]
    ensures VersionKey !in [ServiceKey, AssociateTagKey, AccessKeyIdKey, OperationKey]
    ensures TimestampKey !in [ServiceKey, AssociateTagKey, AccessKeyIdKey, OperationKey, VersionKey]
    ensures [] + [ServiceKey] == [ServiceKey]
    ensures [ServiceKey] + [AssociateTagKey] == [ServiceKey, AssociateTagKey]
    ensures [ServiceKey, AssociateTagKey] + [AccessKeyIdKey] == [ServiceKey, AssociateTagKey, AccessKeyIdKey]
    ensures [ServiceKey, AssociateTagKey, AccessKeyIdKey] + [OperationKey]
         == [ServiceKey, AssociateTagKey, AccessKeyIdKey, OperationKey]
    ensures [ServiceKey, AssociateTagKey, AccessKeyIdKey, OperationKey] + [VersionKey]
         == [ServiceKey, AssociateTagKey, AccessKeyIdKey, OperationKey, VersionKey]
    ensures [ServiceKey, AssociateTagKey, AccessKeyIdKey, OperationKey, VersionKey] + [TimestampKey] == FixedKeys
  {
  }

  /** After injection the caller's names keep their places and the fixed
      names the caller did not give follow, in assignment order. */
  lemma InjectedKeys(p: seq<Entry>, associateTag: Bytes, accessKey: Bytes, operation: Bytes, timestamp: Bytes)
    requires DistinctKeys(p)
    ensures Keys(InjectFixedFields(p, associateTag, accessKey, operation, timestamp)) == Keys(p) + Missing(FixedKeys, Keys(p))
  {
    var p1 := Put(p, ServiceKey, ServiceName);
    var p2 := Put(p1, AssociateTagKey, associateTag);
    var p3 := Put(p2, AccessKeyIdKey, accessKey);
    var p4 := Put(p3, OperationKey, operation);
    var p5 := Put(p4, VersionKey, ApiVersion);
    FixedKeyFacts();
    var k1 := [ServiceKey];
    var k2 := [ServiceKey, AssociateTagKey];
    var k3 := [ServiceKey, AssociateTagKey, AccessKeyIdKey];
    var k4 := [ServiceKey, AssociateTagKey, AccessKeyIdKey, OperationKey];
    var k5 := [ServiceKey, AssociateTagKey, AccessKeyIdKey, OperationKey, VersionKey];
    assert Keys(p) == Keys(p) + Missing([], Keys(p));
    PutKeysTrail(p, p, [], ServiceKey, ServiceName, k1);
    PutKeysTrail(p, p1, k1, AssociateTagKey, associateTag, k2);
    PutKeysTrail(p, p2, k2, AccessKeyIdKey, accessKey, k3);
    PutKeysTrail(p, p3, k3, OperationKey, operation, k4);
    PutKeysTrail(p, p4, k4, VersionKey, ApiVersion, k5);
    PutKeysTrail(p, p5, k5, TimestampKey, timestamp, FixedKeys);
  }

  /** After injection each fixed name holds its value and every other name
      what it held before. */
  lemma InjectedLookups(p: seq<Entry>, associateTag: Bytes, accessKey: Bytes, operation: Bytes, timestamp: Bytes)
    requires DistinctKeys(p)
    ensures var r := InjectFixedFields(p, associateTag, accessKey, operation, timestamp);
      && Lookup(r, ServiceKey) == Some(ServiceName)
      && Lookup(r, AssociateTagKey) == Some(associateTag)
      && Lookup(r, AccessKeyIdKey) == Some(accessKey)
      && Lookup(r, OperationKey) == Some(operation)
      && Lookup(r, VersionKey) == Some(ApiVersion)
      && Lookup(r, TimestampKey) == Some(timestamp)
      && (forall k :: k !in FixedKeys ==> Lookup(r, k) == Lookup(p, k))
  {
    FixedKeyFacts();
    InjectedValues(p, associateTag, accessKey, operation, timestamp, ServiceKey);
    InjectedValues(p, associateTag, accessKey, operation, timestamp, AssociateTagKey);
    InjectedValues(p, associateTag, accessKey, operation, timestamp, AccessKeyIdKey);
    InjectedValues(p, associateTag, accessKey, operation, timestamp, OperationKey);
    InjectedValues(p, associateTag, accessKey, operation, timestamp, VersionKey);
    InjectedValues(p, associateTag, accessKey, operation, timestamp, TimestampKey);
    forall k | k !in FixedKeys
      ensures Lookup(InjectFixedFields(p, associateTag, accessKey, operation, timestamp), k) == Lookup(p, k)
    {
      InjectedValues(p, associateTag, accessKey, operation, timestamp, k);
    }
  }

  /** After injection every caller parameter keeps its position; one whose
      name is not fixed keeps its value too. */
  lemma InjectedPositions(p: seq<Entry>, associateTag: Bytes, accessKey: Bytes, operation: Bytes, timestamp: Bytes)
    requires DistinctKeys(p)
    ensures var r := InjectFixedFields(p, associateTag, accessKey, operation, timestamp);
      && |p| <= |r|
      && (forall i :: 0 <= i < |p| ==> r[i].key == p[i].key)
      && (forall i :: 0 <= i < |p| && p[i].key !in FixedKeys ==> r[i] == p[i])
  {
    var r := InjectFixedFields(p, associateTag, accessKey, operation, timestamp);
    InjectedKeys(p, associateTag, accessKey, operation, timestamp);
    InjectedLookups(p, associateTag, accessKey, operation, timestamp);
    forall i | 0 <= i < |p| ensures r[i].key == p[i].key {
      KeysAt(p, i);
      KeysAt(r, i);
    }
    forall i | 0 <= i < |p| && p[i].key !in FixedKeys ensures r[i] == p[i] {
      LookupAt(p, i);
      LookupAt(r, i);
    }
  }

  /** The six assignments of `get`: the fixed fields hold their values, the
      caller's other parameters keep their values and their order, a caller
      parameter with a fixed name keeps its position with the new value, and
      fixed names the caller did not give are appended in assignment order. */
  lemma InjectedFields(p: seq<Entry>, associateTag: Bytes, accessKey: Bytes, operation: Bytes, timestamp: Bytes)
    requires DistinctKeys(p)
    ensures var r := InjectFixedFields(p, associateTag, accessKey, operation, timestamp);
      && DistinctKeys(r)
      && Lookup(r, ServiceKey) == Some(ServiceName)
      && Lookup(r, AssociateTagKey) == Some(associateTag)
      && Lookup(r, AccessKeyIdKey) == Some(accessKey)
      && Lookup(r, OperationKey) == Some(operation)
      && Lookup(r, VersionKey) == Some(ApiVersion)
      && Lookup(r, TimestampKey) == Some(timestamp)
      && (forall k :: k !in FixedKeys ==> Lookup(r, k) == Lookup(p, k))
      && Keys(r) == Keys(p) + Missing(FixedKeys, Keys(p))
      && |p| <= |r|
      && (forall i :: 0 <= i < |p| ==> r[i].key == p[i].key)
      && (forall i :: 0 <= i < |p| && p[i].key !in FixedKeys ==> r[i] == p[i])
  {
    InjectedLookups(p, associateTag, accessKey, operation, timestamp);
    InjectedKeys(p, associateTag, accessKey, operation, timestamp);
    InjectedPositions(p, associateTag, accessKey, operation, timestamp);
  }

  /** With no caller parameters the request has exactly the six fixed
      fields, in assignment order. */
  lemma InjectIntoEmpty(associateTag: Bytes, accessKey: Bytes, operation: Bytes, timestamp: Bytes)
    ensures Keys(InjectFixedFields([], associateTag, accessKey, operation, timestamp)) == FixedKeys
  {
    InjectedKeys([], associateTag, accessKey, operation, timestamp);
    MissingNone(FixedKeys);
  }

  /** The field that carries the signature decodes to the digest. */
  lemma SignatureFieldDecodes(digest: Bytes)
    ensures DecodeField(SignatureKey + "=" + Encode(digest)) == Some(Entry(SignatureKey, digest))
  {
    SignatureKeyEncodesToItself();
    DecodeCanonicalPair(Entry(SignatureKey, digest));
  }

  lemma SignatureKeyEncodesToItself()
    ensures Encode(SignatureKey) == SignatureKey
  {
    assert forall i :: 0 <= i < |SignatureKey| ==> IsUnreserved(SignatureKey[i]);
    EncodeFixedPoint(SignatureKey);
  }

  /** The fields of the URL's query, split at `&`, decode to the parameters
      in order, then to the signature. */
  lemma FieldsDecode(p: seq<Entry>, digest: Bytes)
    requires |p| > 0
    ensures var url := ServiceUrl(CanonicalQuery(p), Encode(digest));
      && |url| > |ApiBaseUri|
      && url[..|ApiBaseUri| + 1] == ApiBaseUri + "?"
      && var fields := Explode('&', url[|ApiBaseUri| + 1..]);
      && |fields| == |p| + 1
      && (forall i :: 0 <= i < |p| ==> DecodeField(fields[i]) == Some(p[i]))
      && DecodeField(fields[|p|]) == Some(Entry(SignatureKey, digest))
  {
    var q := CanonicalQuery(p);
    var sig := Encode(digest);
    NotInEncoding(digest, '&');
    UrlCarriesParameters(p, sig);
    var fields := q + [SignatureKey + "=" + sig];
    forall i | 0 <= i < |p| ensures DecodeField(fields[i]) == Some(p[i]) {
      assert fields[i] == CanonicalPair(p[i]);
      DecodeCanonicalPair(p[i]);
    }
    assert fields[|p|] == SignatureKey + "=" + sig;
    SignatureFieldDecodes(digest);
  }

  /** End to end: the URL `get` requests starts with the endpoint and `?`;
      its fields are the injected parameters, each decoding to its name and
      value, in insertion order (not the signing order), and a last field
      `Signature` whose value decodes to the base64 HMAC of the string to
      sign. */
  lemma RequestUrlRoundTrip(associateTag: Option<Bytes>, accessKey: Option<Bytes>, secretKey: Option<Bytes>,
                            operation: Bytes, parameters: seq<Entry>, timestamp: Bytes, crypto: Crypto)
    requires DistinctKeys(parameters)
    ensures var url := RequestUrl(associateTag, accessKey, secretKey, operation, parameters, timestamp, crypto);
      var injected := InjectFixedFields(parameters, associateTag.GetOr([]), accessKey.GetOr([]), operation, timestamp);
      var digest := crypto.base64Encode(crypto.hmacSha256(StringToSign(CanonicalQuery(injected)), secretKey.GetOr([])));
      && |url| > |ApiBaseUri|
      && url[..|ApiBaseUri| + 1] == ApiBaseUri + "?"
      && var fields := Explode('&', url[|ApiBaseUri| + 1..]);
      && |fields| == |injected| + 1
      && (forall i :: 0 <= i < |injected| ==> DecodeField(fields[i]) == Some(injected[i]))
      && DecodeField(fields[|injected|]) == Some(Entry(SignatureKey, digest))
  {
    var injected := InjectFixedFields(parameters, associateTag.GetOr([]), accessKey.GetOr([]), operation, timestamp);
    var digest := crypto.base64Encode(crypto.hmacSha256(StringToSign(CanonicalQuery(injected)), secretKey.GetOr([])));
    InjectedKeys(parameters, associateTag.GetOr([]), accessKey.GetOr([]), operation, timestamp);
    InjectIsNonEmpty(Keys(parameters));
    FieldsDecode(injected, digest);
  }

  /** Appending the fixed names to any list of names leaves it non-empty. */
  lemma InjectIsNonEmpty(ks: seq<Bytes>)
    ensures |ks + Missing(FixedKeys, ks)| > 0
  {
    if ks == [] {
      MissingNone(FixedKeys);
    }
  }
}
