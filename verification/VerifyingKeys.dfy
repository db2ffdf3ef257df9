/** The trusted root keys: parsing drops expired ones, lookup keeps one protocol version (verifying_keys.go). */
module VerifyingKeys {
  import opened Wrappers
  import opened ByteStrings
  import opened DecimalText
  import opened TokenPrimitives
  import opened PaymentToken

  const NANOS_PER_MILLI: int := 1_000_000

  datatype SenderVerifyingKey = SenderVerifyingKey(
    protocolVersion: Bytes,
    publicKey: VerifyingKey,
    expirationNanos: int64)

  datatype ParsedVerifyingKey = ParsedVerifyingKey(
    keyValue: Bytes,
    keyExpiration: Bytes,
    protocolVersion: Bytes)

  function ParseVerifyingKey(p: Primitives, key: ParsedVerifyingKey): Outcome<SenderVerifyingKey> {
    var ts :- OrError(ParseInt(key.keyExpiration), BadNumber);
    var publicKey :- ParseB64ECPublicKey(p, key.keyValue);
    Success(SenderVerifyingKey(key.protocolVersion, publicKey, WrapInt64(ts * NANOS_PER_MILLI)))
  }

  /** Every entry must parse; those expired before now are dropped, the others keep their order. */
  function UnexpiredKeys(p: Primitives, parsed: seq<ParsedVerifyingKey>, now: int): Outcome<seq<SenderVerifyingKey>>
  {
    if parsed == [] then Success([])
    else
      var n := |parsed| - 1;
      var keys :- UnexpiredKeys(p, parsed[..n], now);
      var key :- ParseVerifyingKey(p, parsed[n]);
      Success(if key.expirationNanos < now then keys else keys + [key])
  }

  function KeysOfVersion(keys: seq<SenderVerifyingKey>, version: Bytes): seq<VerifyingKey> {
    if keys == [] then []
    else
      var n := |keys| - 1;
      var rest := KeysOfVersion(keys[..n], version);
      if keys[n].protocolVersion != version then rest else rest + [keys[n].publicKey]
  }

  /** now is in nanoseconds. */
  method ParseSenderVerifyingKeys(p: Primitives, parsed: seq<ParsedVerifyingKey>, now: int)
    returns (r: Outcome<seq<SenderVerifyingKey>>)
    ensures r == UnexpiredKeys(p, parsed, now)
  {
    var keys: seq<SenderVerifyingKey> := [];
    for i := 0 to |parsed|
      invariant UnexpiredKeys(p, parsed[..i], now) == Success(keys)
    {
      assert parsed[..i + 1][..i] == parsed[..i];
      var parsedKey := ParseVerifyingKey(p, parsed[i]);
      if parsedKey.Failure? {
        FirstErrorStands(p, parsed, now, i + 1);
        return Failure(parsedKey.error);
      }
      var key := parsedKey.value;
      if key.expirationNanos < now {
        continue;
      }
      keys := keys + [key];
    }
    assert parsed[..|parsed|] == parsed;
    r := Success(keys);
  }

  method Get(keySet: seq<SenderVerifyingKey>, protocolVersion: Bytes) returns (keys: seq<VerifyingKey>)
    ensures keys == KeysOfVersion(keySet, protocolVersion)
  {
    keys := [];
    for i := 0 to |keySet|
      invariant keys == KeysOfVersion(keySet[..i], protocolVersion)
    {
      assert keySet[..i + 1][..i] == keySet[..i];
      if keySet[i].protocolVersion != protocolVersion {
        continue;
      }
      keys := keys + [keySet[i].publicKey];
    }
    assert keySet[..|keySet|] == keySet;
  }

  lemma {:induction false} FirstErrorStands(p: Primitives, parsed: seq<ParsedVerifyingKey>, now: int, n: nat)
    requires n <= |parsed|
    requires UnexpiredKeys(p, parsed[..n], now).Failure?
    ensures UnexpiredKeys(p, parsed, now) == UnexpiredKeys(p, parsed[..n], now)
    decreases |parsed|
  {
    if n < |parsed| {
      var shorter := parsed[..|parsed| - 1];
      assert shorter[..n] == parsed[..n];
      FirstErrorStands(p, shorter, now, n);
    } else {
      assert parsed[..n] == parsed;
    }
  }

  /** Some entry of the set reads as this key. */
  predicate Listed(p: Primitives, parsed: seq<ParsedVerifyingKey>, key: SenderVerifyingKey) {
    exists e | e in parsed :: ParseVerifyingKey(p, e) == Success(key)
  }

  lemma ListedLast(p: Primitives, parsed: seq<ParsedVerifyingKey>, key: SenderVerifyingKey)
    requires parsed != []
    ensures var n := |parsed| - 1;
      Listed(p, parsed, key) <==> Listed(p, parsed[..n], key) || ParseVerifyingKey(p, parsed[n]) == Success(key)
  {
    var n := |parsed| - 1;
    assert parsed == parsed[..n] + [parsed[n]];
    if Listed(p, parsed, key) {
      var e :| e in parsed && ParseVerifyingKey(p, e) == Success(key);
      assert e in parsed[..n] || e == parsed[n];
    }
  }

  /** The kept keys are exactly the listed ones that are unexpired now. */
  lemma {:induction false} KeptKeysAreUnexpired(p: Primitives, parsed: seq<ParsedVerifyingKey>, now: int,
                                                key: SenderVerifyingKey)
    requires UnexpiredKeys(p, parsed, now).Success?
    ensures key in UnexpiredKeys(p, parsed, now).value
       <==> key.expirationNanos >= now && Listed(p, parsed, key)
  {
    if parsed != [] {
      KeptKeysAreUnexpired(p, parsed[..|parsed| - 1], now, key);
      ListedLast(p, parsed, key);
    }
  }

  /** Lookup returns exactly the public keys of the root keys of that version. */
  lemma {:induction false} KeysOfVersionExact(keys: seq<SenderVerifyingKey>, version: Bytes, k: VerifyingKey)
    ensures k in KeysOfVersion(keys, version)
       <==> exists r | r in keys :: r.protocolVersion == version && r.publicKey == k
  {
    if keys != [] {
      var n := |keys| - 1;
      KeysOfVersionExact(keys[..n], version, k);
      assert keys == keys[..n] + [keys[n]];
    }
  }

  /** An expiry is the written number of milliseconds exactly when that many nanoseconds fit 64 bits. */
  lemma ExpiryExact(p: Primitives, key: ParsedVerifyingKey)
    requires ParseVerifyingKey(p, key).Success?
    ensures var millis := ParseInt(key.keyExpiration).value;
      ParseVerifyingKey(p, key).value.expirationNanos == millis * NANOS_PER_MILLI <==>
        MIN_INT64 <= millis * NANOS_PER_MILLI <= MAX_INT64
  {
    var millis := ParseInt(key.keyExpiration).value;
    var x := millis * NANOS_PER_MILLI;
    if MIN_INT64 <= x <= MAX_INT64 {
      assert WrapInt64(x) == x;
    }
  }

  /** Parsing the set reads every entry. */
  lemma {:induction false} EveryEntryReads(p: Primitives, parsed: seq<ParsedVerifyingKey>, now: int, i: nat)
    requires UnexpiredKeys(p, parsed, now).Success? && i < |parsed|
    ensures ParseVerifyingKey(p, parsed[i]).Success?
    decreases |parsed|
  {
    if i < |parsed| - 1 {
      EveryEntryReads(p, parsed[..|parsed| - 1], now, i);
    }
  }

  /** An entry whose milliseconds fit is kept exactly when its written expiry is not before now. */
  lemma WrittenExpiryDecides(p: Primitives, parsed: seq<ParsedVerifyingKey>, now: int, i: nat)
    requires UnexpiredKeys(p, parsed, now).Success? && i < |parsed|
    ensures ParseVerifyingKey(p, parsed[i]).Success?
    ensures var written := ParseInt(parsed[i].keyExpiration).value * NANOS_PER_MILLI;
      MIN_INT64 <= written <= MAX_INT64 ==>
        (ParseVerifyingKey(p, parsed[i]).value in UnexpiredKeys(p, parsed, now).value <==> now <= written)
  {
    EveryEntryReads(p, parsed, now, i);
    var key := ParseVerifyingKey(p, parsed[i]).value;
    assert Listed(p, parsed, key);
    KeptKeysAreUnexpired(p, parsed, now, key);
    ExpiryExact(p, parsed[i]);
  }

  /**
   Outside 64-bit nanoseconds the entry may be dropped although its written expiry is not before now, or kept
   although it is. When the decision is right: if the written expiry fits, if it lies above and its wrapped value
   is not before now either, or if it lies below and its wrapped value is before now, too.
   */
  lemma DecisionRightIff(p: Primitives, parsed: seq<ParsedVerifyingKey>, now: int64, i: nat)
    requires UnexpiredKeys(p, parsed, now).Success? && i < |parsed|
    ensures ParseVerifyingKey(p, parsed[i]).Success?
    ensures var written := ParseInt(parsed[i].keyExpiration).value * NANOS_PER_MILLI;
      (ParseVerifyingKey(p, parsed[i]).value in UnexpiredKeys(p, parsed, now).value <==> now <= written) <==>
        if written > MAX_INT64 then now <= WrapInt64(written)
        else written < MIN_INT64 ==> WrapInt64(written) < now
  {
    EveryEntryReads(p, parsed, now, i);
    var key := ParseVerifyingKey(p, parsed[i]).value;
    assert Listed(p, parsed, key);
    KeptKeysAreUnexpired(p, parsed, now, key);
    ExpiryExact(p, parsed[i]);
  }

  /** The end of the year 9999, in milliseconds: as nanoseconds it wraps to a time long past, and the key is dropped. */
  const FAR_EXPIRY: int := 253402300799000

  lemma FarExpiryDropped(p: Primitives, parsed: seq<ParsedVerifyingKey>, now: int64, i: nat)
    requires UnexpiredKeys(p, parsed, now).Success? && i < |parsed|
    requires ParseInt(parsed[i].keyExpiration) == Some(FAR_EXPIRY) && now >= 0
    ensures ParseVerifyingKey(p, parsed[i]).Success? && now <= FAR_EXPIRY * NANOS_PER_MILLI
    ensures ParseVerifyingKey(p, parsed[i]).value !in UnexpiredKeys(p, parsed, now).value
  {
    assert WrapInt64(FAR_EXPIRY * NANOS_PER_MILLI) < 0;
    DecisionRightIff(p, parsed, now, i);
  }

  // --------------------------------------------------------------------------------------------------
  // Entries and keys, one by one and in order
  // --------------------------------------------------------------------------------------------------

  /** The entry reads as this key: same version, the key it encodes, and its milliseconds in 64-bit nanoseconds. */
  predicate ReadsAs(p: Primitives, entry: ParsedVerifyingKey, key: SenderVerifyingKey) {
    && key.protocolVersion == entry.protocolVersion
    && p.base64Decode(entry.keyValue).Some?
    && p.parsePublicKey(p.base64Decode(entry.keyValue).value) == Some(key.publicKey)
    && ParseInt(entry.keyExpiration).Some?
    && key.expirationNanos == WrapInt64(ParseInt(entry.keyExpiration).value * 1_000_000)
  }

  lemma ReadsAsIff(p: Primitives, entry: ParsedVerifyingKey, key: SenderVerifyingKey)
    ensures ReadsAs(p, entry, key) <==> ParseVerifyingKey(p, entry) == Success(key)
  {
  }

  predicate Increasing(at: seq<nat>, bound: nat) {
    && (forall j | 0 <= j < |at| :: at[j] < bound)
    && (forall i, j | 0 <= i < j < |at| :: at[i] < at[j])
  }

  predicate Dropped(p: Primitives, entry: ParsedVerifyingKey, now: int) {
    ParseVerifyingKey(p, entry).Success? && ParseVerifyingKey(p, entry).value.expirationNanos < now
  }

  /** The entries kept: at[j] is the one that the j-th key was read from. */
  predicate KeptAt(p: Primitives, parsed: seq<ParsedVerifyingKey>, now: int, keys: seq<SenderVerifyingKey>, at: seq<nat>) {
    && |at| == |keys| && Increasing(at, |parsed|)
    && (forall j | 0 <= j < |at| :: ReadsAs(p, parsed[at[j]], keys[j]) && keys[j].expirationNanos >= now)
    && (forall i | 0 <= i < |parsed| && i !in at :: Dropped(p, parsed[i], now))
  }

  lemma KeptNoMore(p: Primitives, parsed: seq<ParsedVerifyingKey>, now: int, keys: seq<SenderVerifyingKey>, at: seq<nat>)
    requires parsed != [] && KeptAt(p, parsed[..|parsed| - 1], now, keys, at) && Dropped(p, parsed[|parsed| - 1], now)
    ensures KeptAt(p, parsed, now, keys, at)
  {
    var front := parsed[..|parsed| - 1];
    forall i | 0 <= i < |parsed| && i !in at
      ensures Dropped(p, parsed[i], now)
    {
      if i < |front| {
        assert front[i] == parsed[i];
      }
    }
  }

  lemma KeptOneMore(p: Primitives, parsed: seq<ParsedVerifyingKey>, now: int, keys: seq<SenderVerifyingKey>, at: seq<nat>,
                    key: SenderVerifyingKey)
    requires parsed != [] && KeptAt(p, parsed[..|parsed| - 1], now, keys, at)
    requires ReadsAs(p, parsed[|parsed| - 1], key) && key.expirationNanos >= now
    ensures KeptAt(p, parsed, now, keys + [key], at + [|parsed| - 1])
  {
    var front := parsed[..|parsed| - 1];
    var longer := at + [|front|];
    assert |front| in longer && forall i | i in at :: i in longer;
    forall i | 0 <= i < |parsed| && i !in longer
      ensures Dropped(p, parsed[i], now)
    {
      assert i != |front| && i !in at && front[i] == parsed[i];
    }
  }

  /** Every kept key is read from its own entry, in the order of the entries, and the others are expired. */
  lemma {:induction false} KeptInOrder(p: Primitives, parsed: seq<ParsedVerifyingKey>, now: int) returns (at: seq<nat>)
    requires UnexpiredKeys(p, parsed, now).Success?
    ensures KeptAt(p, parsed, now, UnexpiredKeys(p, parsed, now).value, at)
  {
    if parsed == [] {
      at := [];
    } else {
      var n := |parsed| - 1;
      var front := KeptInOrder(p, parsed[..n], now);
      var key := ParseVerifyingKey(p, parsed[n]).value;
      ReadsAsIff(p, parsed[n], key);
      var keys := UnexpiredKeys(p, parsed[..n], now).value;
      if key.expirationNanos < now {
        at := front;
        KeptNoMore(p, parsed, now, keys, at);
      } else {
        at := front + [n];
        KeptOneMore(p, parsed, now, keys, front, key);
      }
    }
  }

  /** The roots of a version, in order: the j-th key returned is that of roots[at[j]]. */
  predicate FoundAt(roots: seq<SenderVerifyingKey>, version: Bytes, keys: seq<VerifyingKey>, at: seq<nat>) {
    && |at| == |keys| && Increasing(at, |roots|)
    && (forall j | 0 <= j < |at| :: roots[at[j]].protocolVersion == version && roots[at[j]].publicKey == keys[j])
    && (forall i | 0 <= i < |roots| && roots[i].protocolVersion == version :: i in at)
  }

  lemma FoundNoMore(roots: seq<SenderVerifyingKey>, version: Bytes, keys: seq<VerifyingKey>, at: seq<nat>)
    requires roots != [] && FoundAt(roots[..|roots| - 1], version, keys, at)
    requires roots[|roots| - 1].protocolVersion != version
    ensures FoundAt(roots, version, keys, at)
  {
    var front := roots[..|roots| - 1];
    forall i | 0 <= i < |roots| && roots[i].protocolVersion == version
      ensures i in at
    {
      assert front[i] == roots[i];
    }
  }

  lemma FoundOneMore(roots: seq<SenderVerifyingKey>, version: Bytes, keys: seq<VerifyingKey>, at: seq<nat>)
    requires roots != [] && FoundAt(roots[..|roots| - 1], version, keys, at)
    requires roots[|roots| - 1].protocolVersion == version
    ensures FoundAt(roots, version, keys + [roots[|roots| - 1].publicKey], at + [|roots| - 1])
  {
    var front := roots[..|roots| - 1];
    var longer := at + [|front|];
    assert |front| in longer && forall i | i in at :: i in longer;
    forall i | 0 <= i < |roots| && roots[i].protocolVersion == version
      ensures i in longer
    {
      if i < |front| {
        assert front[i] == roots[i];
      }
    }
  }

  lemma {:induction false} FoundInOrder(roots: seq<SenderVerifyingKey>, version: Bytes) returns (at: seq<nat>)
    ensures FoundAt(roots, version, KeysOfVersion(roots, version), at)
  {
    if roots == [] {
      at := [];
    } else {
      var n := |roots| - 1;
      var front := FoundInOrder(roots[..n], version);
      if roots[n].protocolVersion != version {
        at := front;
        FoundNoMore(roots, version, KeysOfVersion(roots[..n], version), front);
      } else {
        at := front + [n];
        FoundOneMore(roots, version, KeysOfVersion(roots[..n], version), front);
      }
    }
  }
}
