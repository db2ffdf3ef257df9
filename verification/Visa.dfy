/** The xv2 request signature: the signer's header and the verifier's checks (signer.go, verifier.go). */
module Visa {
  import opened Wrappers
  import opened ByteStrings
  import opened DecimalText
  import opened Joining

  datatype Error =
    | EmptySignature
    | MissingQueryKey
    | UnknownKey
    | WrongFormat
    | BadTimestamp
    | Expired
    | WrongSignature
    | BodyUnavailable
    | EmptyKey
    | EmptySecret
    | DuplicateKey

  type Query = map<Bytes, seq<Bytes>>

  /** Query parsing and printing, and the MAC, belong to the standard library. */
  datatype Library = Library(
    parseQuery: Bytes -> Query,
    encodeQuery: Query -> Bytes,
    hmacSha256: (Bytes, Bytes) -> Bytes)

  predicate Plain(q: Query) {
    forall k | k in q :: q[k] != []
  }

  /** Parsing lists only keys that have values, and undoes printing on such queries. */
  ghost predicate QueryLaw(lib: Library) {
    && (forall raw :: Plain(lib.parseQuery(raw)))
    && (forall q | Plain(q) :: lib.parseQuery(lib.encodeQuery(q)) == q)
  }

  datatype Url = Url(escapedPath: Bytes, rawQuery: Bytes)

  const SLASH: byte := 47
  /** "xv2" */
  const XV2: Bytes := [120, 118, 50]
  /** "apiKey" */
  const API_KEY_PARAM: Bytes := [97, 112, 105, 75, 101, 121]
  /** "x-pay-token" */
  const TOKEN_HEADER: Bytes := [120, 45, 112, 97, 121, 45, 116, 111, 107, 101, 110]

  const TOKEN_VALID_SECONDS: int := 5 * 60

  /** Values.Get: the first value of the key, or the empty string. */
  function QueryGet(q: Query, key: Bytes): Bytes {
    if key in q && q[key] != [] then q[key][0] else []
  }

  function HexDigit(n: nat): byte
    requires n < 16
  {
    if n < 10 then ZERO + n else 87 + n
  }

  function Hex(bs: Bytes): Bytes {
    if bs == [] then [] else [HexDigit(bs[0] / 16), HexDigit(bs[0] % 16)] + Hex(bs[1..])
  }

  function TrimSlash(path: Bytes): Bytes {
    if path != [] && path[0] == SLASH then path[1..] else path
  }

  function Mac(lib: Library, timestamp: int64, url: Url, payload: Bytes, secret: Bytes): Bytes {
    var query := lib.encodeQuery(lib.parseQuery(url.rawQuery));
    lib.hmacSha256(secret, FormatInt(timestamp) + TrimSlash(url.escapedPath) + query + payload)
  }

  function AuthHeader(lib: Library, timestamp: int64, url: Url, payload: Bytes, secret: Bytes): Bytes {
    XV2 + [COLON] + FormatInt(timestamp) + [COLON] + Hex(Mac(lib, timestamp, url, payload, secret))
  }

  /** now in seconds; the subtraction is 64-bit. */
  predicate Fresh(now: int64, timestamp: int64) {
    WrapInt64(now - timestamp) <= TOKEN_VALID_SECONDS
  }

  function Verified(lib: Library, secrets: map<Bytes, Bytes>, url: Url, body: Bytes, signature: Bytes, now: int64):
    Result<(), Error>
  {
    var key := QueryGet(lib.parseQuery(url.rawQuery), API_KEY_PARAM);
    var parts := Split(signature, COLON);
    if signature == [] then Failure(EmptySignature)
    else if key == [] then Failure(MissingQueryKey)
    else if key !in secrets then Failure(UnknownKey)
    else if |parts| != 3 || parts[0] != XV2 then Failure(WrongFormat)
    else
      match ParseInt(parts[1])
      case None => Failure(BadTimestamp)
      case Some(ts) =>
        if !Fresh(now, ts) then Failure(Expired)
        else if AuthHeader(lib, ts, url, body, secrets[key]) != signature then Failure(WrongSignature)
        else Success(())
  }

  /** The URL as signing leaves it: the key parameter set, the query printed in canonical form. */
  function SignedUrl(lib: Library, url: Url, key: Bytes): Url {
    url.(rawQuery := lib.encodeQuery(lib.parseQuery(url.rawQuery)[API_KEY_PARAM := [key]]))
  }

  // --------------------------------------------------------------------------------------------------
  // The objects
  // --------------------------------------------------------------------------------------------------

  datatype Body = NoBody | Unreadable | Readable(data: Bytes)

  class Request {
    var url: Url
    var header: map<Bytes, Bytes>
    const body: Body

    constructor (url: Url, body: Body)
      ensures this.url == url && this.header == map[] && this.body == body
    {
      this.url := url;
      this.body := body;
      header := map[];
    }
  }

  class Signer {
    const key: Bytes
    const secret: Bytes

    constructor (key: Bytes, secret: Bytes)
      ensures this.key == key && this.secret == secret
    {
      this.key := key;
      this.secret := secret;
    }

    /** The query is rewritten even when the body then cannot be read. */
    method Sign(lib: Library, req: Request, now: int64) returns (r: Result<(), Error>)
      modifies req
      ensures req.url == SignedUrl(lib, old(req.url), key)
      ensures r.Success? <==> !req.body.Unreadable?
      ensures req.header ==
        if req.body.Unreadable? then old(req.header)
        else old(req.header)[TOKEN_HEADER := AuthHeader(lib, now, req.url, BodyBytes(req.body), secret)]
    {
      var query := lib.parseQuery(req.url.rawQuery);
      query := query[API_KEY_PARAM := [key]];
      req.url := req.url.(rawQuery := lib.encodeQuery(query));
      if req.body.Unreadable? {
        return Failure(BodyUnavailable);
      }
      var body := BodyBytes(req.body);
      var authHeader := AuthHeader(lib, now, req.url, body, secret);
      req.header := req.header[TOKEN_HEADER := authHeader];
      r := Success(());
    }
  }

  /** A failure stands for the source's panic; the key is looked at first. */
  method NewSigner(key: Bytes, secret: Bytes) returns (r: Result<Signer, Error>)
    ensures r.Success? <==> key != [] && secret != []
    ensures r.Failure? ==> r.error == if key == [] then EmptyKey else EmptySecret
    ensures r.Success? ==> fresh(r.value) && r.value.key == key && r.value.secret == secret
  {
    if key == [] {
      return Failure(EmptyKey);
    }
    if secret == [] {
      return Failure(EmptySecret);
    }
    var signer := new Signer(key, secret);
    r := Success(signer);
  }

  function BodyBytes(b: Body): Bytes {
    if b.Readable? then b.data else []
  }

  class Verifier {
    var secrets: map<Bytes, Bytes>

    constructor ()
      ensures secrets == map[]
    {
      secrets := map[];
    }

    /** A failure stands for the source's panic. Secrets never change once set. */
    method WithNamedSecret(key: Bytes, secret: Bytes) returns (r: Result<(), Error>)
      modifies this
      ensures r.Success? <==> key != [] && secret != [] && key !in old(secrets)
      ensures secrets == if r.Success? then old(secrets)[key := secret] else old(secrets)
    {
      if key == [] {
        return Failure(EmptyKey);
      }
      if secret == [] {
        return Failure(EmptySecret);
      }
      if key in secrets {
        return Failure(DuplicateKey);
      }
      secrets := secrets[key := secret];
      r := Success(());
    }

    method VerifyRequest(lib: Library, url: Url, body: Bytes, signature: Bytes, now: int64) returns (r: Result<(), Error>)
      ensures r == Verified(lib, secrets, url, body, signature, now)
    {
      if signature == [] {
        return Failure(EmptySignature);
      }
      var expectedKey := QueryGet(lib.parseQuery(url.rawQuery), API_KEY_PARAM);
      if expectedKey == [] {
        return Failure(MissingQueryKey);
      }
      if expectedKey !in secrets {
        return Failure(UnknownKey);
      }
      var secret := secrets[expectedKey];
      var parts := Split(signature, COLON);
      if |parts| != 3 || parts[0] != XV2 {
        return Failure(WrongFormat);
      }
      var ts := ParseInt(parts[1]);
      if ts.None? {
        return Failure(BadTimestamp);
      }
      if WrapInt64(now - ts.value) > TOKEN_VALID_SECONDS {
        return Failure(Expired);
      }
      var expected := AuthHeader(lib, ts.value, url, body, secret);
      if expected != signature {
        return Failure(WrongSignature);
      }
      r := Success(());
    }
  }

  // --------------------------------------------------------------------------------------------------
  // The promises
  // --------------------------------------------------------------------------------------------------

  lemma {:induction false} HexHasNoColon(bs: Bytes)
    ensures COLON !in Hex(bs)
  {
    if bs != [] {
      HexHasNoColon(bs[1..]);
    }
  }

  lemma {:induction false} HexInjective(a: Bytes, b: Bytes)
    requires Hex(a) == Hex(b)
    ensures a == b
  {
    if a != [] && b != [] {
      var x, y := Hex(a), Hex(b);
      assert x[0] == y[0] && x[1] == y[1] && x[2..] == y[2..];
      assert x[2..] == Hex(a[1..]) && y[2..] == Hex(b[1..]);
      HexInjective(a[1..], b[1..]);
      assert a[0] == a[0] / 16 * 16 + a[0] % 16 && b[0] == b[0] / 16 * 16 + b[0] % 16;
      assert a == [a[0]] + a[1..] && b == [b[0]] + b[1..];
    }
  }

  /** A header splits into its three fields, and the middle one reads back as the timestamp. */
  lemma HeaderFields(lib: Library, timestamp: int64, url: Url, payload: Bytes, secret: Bytes)
    ensures var mac := Hex(Mac(lib, timestamp, url, payload, secret));
      Split(AuthHeader(lib, timestamp, url, payload, secret), COLON) == [XV2, FormatInt(timestamp), mac]
    ensures ParseInt(FormatInt(timestamp)) == Some(timestamp)
  {
    var time, mac := FormatInt(timestamp), Hex(Mac(lib, timestamp, url, payload, secret));
    ParseFormat(timestamp);
    FormatIntChars(timestamp);
    HexHasNoColon(Mac(lib, timestamp, url, payload, secret));
    SplitPlain(mac, COLON);
    SplitFirst(time, COLON, mac);
    SplitFirst(XV2, COLON, time + [COLON] + mac);
    assert XV2 + [COLON] + (time + [COLON] + mac) == AuthHeader(lib, timestamp, url, payload, secret);
    assert [XV2] + ([time] + [mac]) == [XV2, time, mac];
  }

  /** A signed request is accepted by every verifier holding the key exactly while the signature is fresh. */
  lemma SignedIsAccepted(lib: Library, secrets: map<Bytes, Bytes>, key: Bytes, url: Url, body: Bytes,
                         timestamp: int64, now: int64)
    requires QueryLaw(lib)
    requires key != [] && key in secrets
    ensures var signed := SignedUrl(lib, url, key);
      Verified(lib, secrets, signed, body, AuthHeader(lib, timestamp, signed, body, secrets[key]), now)
        == if Fresh(now, timestamp) then Success(()) else Failure(Expired)
  {
    var q := lib.parseQuery(url.rawQuery)[API_KEY_PARAM := [key]];
    assert Plain(lib.parseQuery(url.rawQuery));
    assert Plain(q);
    HeaderFields(lib, timestamp, SignedUrl(lib, url, key), body, secrets[key]);
  }

  /** Fresh means at most 300 seconds old, unless the difference of the two times leaves 64 bits. */
  lemma FreshFor300Seconds(now: int64, timestamp: int64)
    ensures MIN_INT64 <= now - timestamp <= MAX_INT64 ==> (Fresh(now, timestamp) <==> now - timestamp <= 300)
    ensures now >= 0 ==> (Fresh(now, timestamp) <==> now - timestamp <= 300 || now - timestamp > MAX_INT64)
  {
    var age := now - timestamp;
    if MIN_INT64 <= age <= MAX_INT64 {
      assert WrapInt64(age) == age;
    } else if age > MAX_INT64 {
      assert WrapInt64(age) == age - 0x1_0000_0000_0000_0000;
    }
  }

  /** Whatever is accepted is, byte for byte, the canonical header of the time it states; its time field is canonical too. */
  lemma AcceptedIsCanonical(lib: Library, secrets: map<Bytes, Bytes>, url: Url, body: Bytes, signature: Bytes, now: int64)
    returns (timestamp: int64)
    requires Verified(lib, secrets, url, body, signature, now) == Success(())
    ensures QueryGet(lib.parseQuery(url.rawQuery), API_KEY_PARAM) in secrets
    ensures var secret := secrets[QueryGet(lib.parseQuery(url.rawQuery), API_KEY_PARAM)];
      signature == AuthHeader(lib, timestamp, url, body, secret)
    ensures |Split(signature, COLON)| == 3 && Split(signature, COLON)[1] == FormatInt(timestamp)
    ensures ParseInt(Split(signature, COLON)[1]) == Some(timestamp) && Fresh(now, timestamp)
  {
    timestamp := ParseInt(Split(signature, COLON)[1]).value;
    HeaderFields(lib, timestamp, url, body, secrets[QueryGet(lib.parseQuery(url.rawQuery), API_KEY_PARAM)]);
  }

  /** Acceptance is nothing but: a known key, and the canonical header of some fresh time. */
  lemma AcceptedIff(lib: Library, secrets: map<Bytes, Bytes>, url: Url, body: Bytes, signature: Bytes, now: int64)
    ensures var key := QueryGet(lib.parseQuery(url.rawQuery), API_KEY_PARAM);
      Verified(lib, secrets, url, body, signature, now) == Success(()) <==>
        key != [] && key in secrets &&
        exists timestamp: int64 :: Fresh(now, timestamp) && signature == AuthHeader(lib, timestamp, url, body, secrets[key])
  {
    var key := QueryGet(lib.parseQuery(url.rawQuery), API_KEY_PARAM);
    if Verified(lib, secrets, url, body, signature, now) == Success(()) {
      var t := AcceptedIsCanonical(lib, secrets, url, body, signature, now);
    }
    if key in secrets {
      forall timestamp: int64 | signature == AuthHeader(lib, timestamp, url, body, secrets[key])
        ensures Split(signature, COLON) == [XV2, FormatInt(timestamp), Hex(Mac(lib, timestamp, url, body, secrets[key]))]
        ensures ParseInt(FormatInt(timestamp)) == Some(timestamp)
      {
        HeaderFields(lib, timestamp, url, body, secrets[key]);
      }
    }
  }

  /** For one URL, body and timestamp value exactly one signature is ever accepted, however its time field is written. */
  lemma OneSignaturePerTime(lib: Library, secrets: map<Bytes, Bytes>, url: Url, body: Bytes,
                            signature: Bytes, now: int64, signature': Bytes, now': int64)
    requires Verified(lib, secrets, url, body, signature, now) == Success(())
    requires Verified(lib, secrets, url, body, signature', now') == Success(())
    requires ParseInt(Split(signature, COLON)[1]) == ParseInt(Split(signature', COLON)[1])
    ensures signature == signature'
  {
    var t := AcceptedIsCanonical(lib, secrets, url, body, signature, now);
    var t' := AcceptedIsCanonical(lib, secrets, url, body, signature', now');
  }

  /** Headers agree exactly when both the times and the MACs do: nothing else tells two requests apart. */
  lemma HeadersAgreeIff(lib: Library, timestamp: int64, url: Url, payload: Bytes, secret: Bytes,
                        timestamp': int64, url': Url, payload': Bytes, secret': Bytes)
    ensures AuthHeader(lib, timestamp, url, payload, secret) == AuthHeader(lib, timestamp', url', payload', secret')
       <==> timestamp == timestamp' && Mac(lib, timestamp, url, payload, secret) == Mac(lib, timestamp', url', payload', secret')
  {
    HeaderFields(lib, timestamp, url, payload, secret);
    HeaderFields(lib, timestamp', url', payload', secret');
    if AuthHeader(lib, timestamp, url, payload, secret) == AuthHeader(lib, timestamp', url', payload', secret') {
      var fields := [XV2, FormatInt(timestamp), Hex(Mac(lib, timestamp, url, payload, secret))];
      var fields' := [XV2, FormatInt(timestamp'), Hex(Mac(lib, timestamp', url', payload', secret'))];
      assert fields == fields';
      assert fields[1] == fields'[1] && fields[2] == fields'[2];
      HexInjective(Mac(lib, timestamp, url, payload, secret), Mac(lib, timestamp', url', payload', secret'));
    }
  }

  /** What is hashed besides the time: path, canonical query and body, one after the other with nothing in between. */
  function Hashed(lib: Library, url: Url, payload: Bytes): Bytes {
    TrimSlash(url.escapedPath) + lib.encodeQuery(lib.parseQuery(url.rawQuery)) + payload
  }

  /** A symbolic MAC: under one key different texts have different MACs. */
  ghost predicate InjectiveMac(lib: Library) {
    forall secret, m, m' :: lib.hmacSha256(secret, m) == lib.hmacSha256(secret, m') ==> m == m'
  }

  /** Under one secret and a symbolic MAC, two requests share a header exactly when their times and hashed texts agree. */
  lemma SameHeaderIff(lib: Library, timestamp: int64, url: Url, payload: Bytes,
                      timestamp': int64, url': Url, payload': Bytes, secret: Bytes)
    requires InjectiveMac(lib)
    ensures AuthHeader(lib, timestamp, url, payload, secret) == AuthHeader(lib, timestamp', url', payload', secret)
       <==> timestamp == timestamp' && Hashed(lib, url, payload) == Hashed(lib, url', payload')
  {
    HeadersAgreeIff(lib, timestamp, url, payload, secret, timestamp', url', payload', secret);
    var time, rest, rest' := FormatInt(timestamp), Hashed(lib, url, payload), Hashed(lib, url', payload');
    MacOfHashed(lib, timestamp, url, payload, secret);
    MacOfHashed(lib, timestamp', url', payload', secret);
    if timestamp == timestamp' && Mac(lib, timestamp, url, payload, secret) == Mac(lib, timestamp', url', payload', secret) {
      assert time + rest == time + rest';
      assert (time + rest)[|time|..] == rest && (time + rest')[|time|..] == rest';
    }
  }

  lemma MacOfHashed(lib: Library, timestamp: int64, url: Url, payload: Bytes, secret: Bytes)
    ensures Mac(lib, timestamp, url, payload, secret)
         == lib.hmacSha256(secret, FormatInt(timestamp) + Hashed(lib, url, payload))
  {
    var time, path := FormatInt(timestamp), TrimSlash(url.escapedPath);
    var query := lib.encodeQuery(lib.parseQuery(url.rawQuery));
    assert time + path + query + payload == time + (path + query + payload);
  }

  /** "/x", "a=1&apiKey=K", and the same with the first parameter of the query moved to the end of the path. */
  const PATH: Bytes := [47, 120]
  const QUERY: Bytes := [97, 61, 49, 38, 97, 112, 105, 75, 101, 121, 61, 75]
  const LONGER_PATH: Bytes := [47, 120, 97, 61, 49, 38]
  const SHORTER_QUERY: Bytes := [97, 112, 105, 75, 101, 121, 61, 75]

  /** So the boundary between path and query is not part of what is signed. */
  lemma BoundaryIsNotHashed(lib: Library, timestamp: int64, payload: Bytes, secret: Bytes)
    requires lib.encodeQuery(lib.parseQuery(QUERY)) == QUERY
    requires lib.encodeQuery(lib.parseQuery(SHORTER_QUERY)) == SHORTER_QUERY
    ensures AuthHeader(lib, timestamp, Url(PATH, QUERY), payload, secret)
         == AuthHeader(lib, timestamp, Url(LONGER_PATH, SHORTER_QUERY), payload, secret)
  {
    MacOfHashed(lib, timestamp, Url(PATH, QUERY), payload, secret);
    MacOfHashed(lib, timestamp, Url(LONGER_PATH, SHORTER_QUERY), payload, secret);
    assert TrimSlash(PATH) + QUERY == TrimSlash(LONGER_PATH) + SHORTER_QUERY;
  }

  // --------------------------------------------------------------------------------------------------
  // The texts themselves
  // --------------------------------------------------------------------------------------------------

  lemma NamesAreTexts()
    ensures XV2 + [COLON] == Ascii("xv2:") && API_KEY_PARAM == Ascii("apiKey") && TOKEN_HEADER == Ascii("x-pay-token")
    ensures [COLON] == Ascii(":") && [SLASH] == Ascii("/")
  {
    var a, b, c := "xv2:", "apiKey", "x-pay-token";
    assert forall i | 0 <= i < 4 :: (XV2 + [COLON])[i] == a[i] as int;
    assert forall i | 0 <= i < 6 :: API_KEY_PARAM[i] == b[i] as int;
    assert forall i | 0 <= i < 11 :: TOKEN_HEADER[i] == c[i] as int;
  }

  /** Two lower-case digits per byte, the high half first. */
  lemma {:induction false} HexExact(bs: Bytes, i: nat)
    requires i < |bs|
    ensures |Hex(bs)| == 2 * |bs|
    ensures var digits := "0123456789abcdef";
      Hex(bs)[2 * i] == digits[bs[i] / 16] as int && Hex(bs)[2 * i + 1] == digits[bs[i] % 16] as int
  {
    if i > 0 {
      HexExact(bs[1..], i - 1);
    } else if |bs| > 1 {
      HexExact(bs[1..], 0);
    } else {
      assert Hex(bs[1..]) == [];
    }
  }

  /**
   A header is "xv2:", the time, a colon and the MAC in hexadecimal; the MAC is over the time, the path without
   its one leading slash, the canonical query and the body.
   */
  lemma HeaderExact(lib: Library, timestamp: int64, url: Url, payload: Bytes, secret: Bytes) returns (path: Bytes)
    ensures if url.escapedPath != [] && url.escapedPath[0] == '/' as int then url.escapedPath == Ascii("/") + path
      else url.escapedPath == path
    ensures var query := lib.encodeQuery(lib.parseQuery(url.rawQuery));
      AuthHeader(lib, timestamp, url, payload, secret)
      == Ascii("xv2:") + FormatInt(timestamp) + Ascii(":")
         + Hex(lib.hmacSha256(secret, FormatInt(timestamp) + path + query + payload))
  {
    NamesAreTexts();
    path := TrimSlash(url.escapedPath);
    assert Ascii("/") == [SLASH] && Ascii(":") == [COLON];
  }

  /** Signing sets the one value of the key parameter, leaves the other parameters and the path alone, and prints the query. */
  lemma SignedUrlExact(lib: Library, url: Url, key: Bytes)
    requires QueryLaw(lib)
    ensures SignedUrl(lib, url, key).escapedPath == url.escapedPath
    ensures lib.parseQuery(SignedUrl(lib, url, key).rawQuery) == lib.parseQuery(url.rawQuery)[Ascii("apiKey") := [key]]
  {
    NamesAreTexts();
    var q := lib.parseQuery(url.rawQuery)[API_KEY_PARAM := [key]];
    assert Plain(lib.parseQuery(url.rawQuery));
    assert Plain(q);
  }

  /** The key of a request is the first value of its key parameter, or empty. */
  function RequestKey(lib: Library, url: Url): Bytes {
    var q := lib.parseQuery(url.rawQuery);
    if Ascii("apiKey") in q && q[Ascii("apiKey")] != [] then q[Ascii("apiKey")][0] else []
  }

  /** Every rejection is named after the first thing that is wrong. */
  lemma RejectionsAreNamed(lib: Library, secrets: map<Bytes, Bytes>, url: Url, body: Bytes, signature: Bytes, now: int64)
    ensures var key := RequestKey(lib, url);
      var parts := Split(signature, COLON);
      var wellFormed := |parts| == 3 && parts[0] == Ascii("xv2");
      var outcome := Verified(lib, secrets, url, body, signature, now);
      if signature == [] then outcome == Failure(EmptySignature)
      else if key == [] then outcome == Failure(MissingQueryKey)
      else if key !in secrets then outcome == Failure(UnknownKey)
      else if !wellFormed then outcome == Failure(WrongFormat)
      else if ParseInt(parts[1]).None? then outcome == Failure(BadTimestamp)
      else if !Fresh(now, ParseInt(parts[1]).value) then outcome == Failure(Expired)
      else if signature != AuthHeader(lib, ParseInt(parts[1]).value, url, body, secrets[key]) then
        outcome == Failure(WrongSignature)
      else outcome == Success(())
  {
    NamesAreTexts();
    assert XV2 == (XV2 + [COLON])[..3] && Ascii("xv2") == Ascii("xv2:")[..3];
  }
}
