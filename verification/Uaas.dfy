/** Merging experiment flags from a comma-separated header (utils/uaas.py). */
module Uaas {
  import opened Wrappers
  import opened Joining

  /** A JSON value; an object lists its members in order, and Atom is a number or a boolean. */
  datatype Json =
    | Null
    | Atom(text: string)
    | Text(text: string)
    | Array(elements: seq<Json>)
    | Object(members: seq<Member>)

  datatype Member = Member(key: string, value: Json)

  /** base64 and JSON decoding of a chunk: the two errors that are caught, those that are not, or a value. */
  datatype Decoded = Undecodable | Raises | Decoded(value: Json)

  /** The parsed flags and test IDs, or an exception that leaves the constructor. */
  datatype Parse = Raised | Parsed(flags: map<string, Json>, testids: set<Json>)

  const COMMA: char := ','

  /** dict.get: the member with this key, or the default. */
  function Get(members: seq<Member>, key: string, default: Json): Json {
    if members == [] then default
    else if members[0].key == key then members[0].value
    else Get(members[1..], key, default)
  }

  predicate Hashable(j: Json) {
    !j.Array? && !j.Object?
  }

  function Characters(s: string): set<Json> {
    set i | 0 <= i < |s| :: Text([s[i]])
  }

  function Keys(members: seq<Member>): set<Json> {
    set i | 0 <= i < |members| :: Text(members[i].key)
  }

  /** What set.update takes from a value; None when it raises. */
  function IterableAsSet(j: Json): Option<set<Json>> {
    match j
    case Array(es) =>
      if forall e | e in es :: Hashable(e) then Some(set e | e in es) else None
    case Text(s) => Some(Characters(s))
    case Object(ms) => Some(Keys(ms))
    case _ => None
  }

  /** What iterating over a decoded chunk yields; None when it cannot be iterated. */
  function Elements(j: Json): Option<seq<Json>> {
    match j
    case Array(es) => Some(es)
    case Text(s) => Some(seq(|s|, i requires 0 <= i < |s| => Text([s[i]])))
    case Object(ms) => Some(seq(|ms|, i requires 0 <= i < |ms| => Text(ms[i].key)))
    case _ => None
  }

  /** CONTEXT, then MAIN, then the handler; anything on the way that has no get() gives no flags. */
  function TestItemFlags(members: seq<Member>, handler: string): Json {
    var context := Get(members, "CONTEXT", Object([]));
    if !context.Object? then Object([])
    else
      var main := Get(context.members, "MAIN", Object([]));
      if !main.Object? then Object([]) else Get(main.members, handler, Object([]))
  }

  /** What was collected so far: flag occurrences in order, and test IDs. */
  datatype Collected = Collected(occurrences: seq<Member>, testids: set<Json>)

  const NOTHING := Collected([], {})

  function Both(a: Collected, b: Collected): Collected {
    Collected(a.occurrences + b.occurrences, a.testids + b.testids)
  }

  /** The contribution of one test item; None when it raises. */
  function FromItem(item: Json, handler: string): Option<Collected> {
    if !item.Object? then None
    else if Get(item.members, "HANDLER", Null) != Text(handler) then Some(NOTHING)
    else
      match IterableAsSet(Get(item.members, "TESTID", Array([])))
      case None => None
      case Some(ids) =>
        var flags := TestItemFlags(item.members, handler);
        if flags.Object? then Some(Collected(flags.members, ids)) else None
  }

  function FromItems(items: seq<Json>, handler: string): Option<Collected> {
    if items == [] then Some(NOTHING)
    else
      var n := |items| - 1;
      match (FromItems(items[..n], handler), FromItem(items[n], handler))
      case (Some(a), Some(b)) => Some(Both(a, b))
      case _ => None
  }

  function FromChunk(d: Decoded, handler: string): Option<Collected> {
    match d
    case Undecodable => Some(NOTHING)
    case Raises => None
    case Decoded(value) =>
      match Elements(value)
      case None => None
      case Some(items) => FromItems(items, handler)
  }

  function FromChunks(decode: string -> Decoded, chunks: seq<string>, handler: string): Option<Collected> {
    if chunks == [] then Some(NOTHING)
    else
      var n := |chunks| - 1;
      match (FromChunks(decode, chunks[..n], handler), FromChunk(decode(chunks[n]), handler))
      case (Some(a), Some(b)) => Some(Both(a, b))
      case _ => None
  }

  /** Adding an occurrence keeps the value that was there first. */
  function AddFlag(flags: map<string, Json>, m: Member): map<string, Json> {
    if m.key in flags then flags else flags[m.key := m.value]
  }

  function AddFlags(flags: map<string, Json>, ms: seq<Member>): map<string, Json> {
    if ms == [] then flags else AddFlag(AddFlags(flags, ms[..|ms| - 1]), ms[|ms| - 1])
  }

  predicate Comparable(x: Json, y: Json) {
    (x.Text? && y.Text?) || (x.Atom? && y.Atom?)
  }

  /** Whether sorted() accepts the set: it compares distinct elements, and texts, numbers and null do not mix. */
  predicate Sortable(ids: set<Json>) {
    forall x, y | x in ids && y in ids && x != y :: Comparable(x, y)
  }

  /** The state the constructor leaves, for a header that may be absent. */
  function ParsedHeader(decode: string -> Decoded, header: Option<string>, handler: string): Parse {
    if header.None? || header.value == "" then Parsed(map[], {})
    else
      match FromChunks(decode, Split(header.value, COMMA), handler)
      case None => Raised
      case Some(c) => if Sortable(c.testids) then Parsed(AddFlags(map[], c.occurrences), c.testids) else Raised
  }

  // --------------------------------------------------------------------------------------------------
  // The parser object
  // --------------------------------------------------------------------------------------------------

  class UaasParser {
    const handlerName: string
    var expFlags: map<string, Json>
    var testids: set<Json>

    constructor (handlerName: string)
      ensures this.handlerName == handlerName && expFlags == map[] && testids == {}
    {
      this.handlerName := handlerName;
      expFlags := map[];
      testids := {};
    }

    /** Called once, by the constructor; raised stands for an exception that leaves it. */
    method ParseFlags(decode: string -> Decoded, header: Option<string>) returns (raised: bool)
      requires expFlags == map[] && testids == {}
      modifies this
      ensures raised <==> ParsedHeader(decode, header, handlerName).Raised?
      ensures !raised ==> ParsedHeader(decode, header, handlerName) == Parsed(expFlags, testids)
    {
      if header.None? || header.value == "" {
        return false;
      }
      var chunks := Split(header.value, COMMA);
      var parsedFlags: map<string, Json> := map[];
      var triggered: set<Json> := {};
      ghost var done := NOTHING;
      for i := 0 to |chunks|
        invariant FromChunks(decode, chunks[..i], handlerName) == Some(done)
        invariant parsedFlags == AddFlags(map[], done.occurrences) && triggered == done.testids
        invariant expFlags == parsedFlags && testids == triggered
      {
        assert chunks[..i + 1][..i] == chunks[..i];
        var expFlag := decode(chunks[i]);
        if expFlag.Undecodable? {
          assert Both(done, NOTHING) == done;
          continue;
        }
        if expFlag.Raises? || Elements(expFlag.value).None? {
          ChunkRaises(decode, chunks, handlerName, i + 1);
          return true;
        }
        ghost var before := done;
        var items := Elements(expFlag.value).value;
        raised, parsedFlags, triggered, done := MergeItems(items, parsedFlags, triggered, before);
        if raised {
          ChunkRaises(decode, chunks, handlerName, i + 1);
          return true;
        }
        testids := triggered;
        expFlags := parsedFlags;
      }
      assert chunks[..|chunks|] == chunks;
      raised := !Sortable(triggered);
    }

    method MergeItems(items: seq<Json>, flags: map<string, Json>, ids: set<Json>, ghost before: Collected)
      returns (raised: bool, flags': map<string, Json>, ids': set<Json>, ghost after: Collected)
      requires flags == AddFlags(map[], before.occurrences) && ids == before.testids
      ensures raised <==> FromItems(items, handlerName).None?
      ensures !raised ==> after == Both(before, FromItems(items, handlerName).value)
      ensures !raised ==> flags' == AddFlags(map[], after.occurrences) && ids' == after.testids
    {
      flags', ids', after := flags, ids, before;
      BothAssociative(before, NOTHING, NOTHING);
      for i := 0 to |items|
        invariant FromItems(items[..i], handlerName).Some?
        invariant after == Both(before, FromItems(items[..i], handlerName).value)
        invariant flags' == AddFlags(map[], after.occurrences) && ids' == after.testids
      {
        assert items[..i + 1][..i] == items[..i];
        ghost var soFar := FromItems(items[..i], handlerName).value;
        raised, flags', ids', after := MergeItem(items[i], flags', ids', after);
        if raised {
          ItemRaises(items, handlerName, i + 1);
          return;
        }
        BothAssociative(before, soFar, FromItem(items[i], handlerName).value);
      }
      assert items[..|items|] == items;
      raised := false;
    }

    /** The body of the loop over test items. */
    method MergeItem(item: Json, flags: map<string, Json>, ids: set<Json>, ghost before: Collected)
      returns (raised: bool, flags': map<string, Json>, ids': set<Json>, ghost after: Collected)
      requires flags == AddFlags(map[], before.occurrences) && ids == before.testids
      ensures raised <==> FromItem(item, handlerName).None?
      ensures !raised ==> after == Both(before, FromItem(item, handlerName).value)
      ensures !raised ==> flags' == AddFlags(map[], after.occurrences) && ids' == after.testids
    {
      flags', ids', after := flags, ids, before;
      if !item.Object? {
        return true, flags', ids', after;
      }
      if Get(item.members, "HANDLER", Null) != Text(handlerName) {
        BothAssociative(before, NOTHING, NOTHING);
        return false, flags', ids', after;
      }
      var testids := IterableAsSet(Get(item.members, "TESTID", Array([])));
      var found := TestItemFlags(item.members, handlerName);
      if testids.None? || !found.Object? {
        return true, flags', ids', after;
      }
      ids' := ids' + testids.value;
      flags' := MergeFlags(found.members, flags', before.occurrences);
      after := Both(before, Collected(found.members, testids.value));
      raised := false;
    }
  }

  /** The innermost loop: known keys keep their value. */
  method MergeFlags(found: seq<Member>, flags: map<string, Json>, ghost occurrences: seq<Member>)
    returns (flags': map<string, Json>)
    requires flags == AddFlags(map[], occurrences)
    ensures flags' == AddFlags(map[], occurrences + found)
  {
    flags' := flags;
    assert occurrences + found[..0] == occurrences;
    for j := 0 to |found|
      invariant flags' == AddFlags(map[], occurrences + found[..j])
    {
      ghost var longer := occurrences + found[..j + 1];
      assert longer[..|longer| - 1] == occurrences + found[..j];
      if found[j].key in flags' {
        continue;
      }
      flags' := flags'[found[j].key := found[j].value];
    }
    assert found[..|found|] == found;
  }

  lemma {:induction false} ItemRaises(items: seq<Json>, handler: string, n: nat)
    requires n <= |items| && FromItems(items[..n], handler).None?
    ensures FromItems(items, handler).None?
    decreases |items|
  {
    if n < |items| {
      var shorter := items[..|items| - 1];
      assert shorter[..n] == items[..n];
      ItemRaises(shorter, handler, n);
    } else {
      assert items[..n] == items;
    }
  }

  lemma {:induction false} ChunkRaises(decode: string -> Decoded, chunks: seq<string>, handler: string, n: nat)
    requires n <= |chunks| && FromChunks(decode, chunks[..n], handler).None?
    ensures FromChunks(decode, chunks, handler).None?
    decreases |chunks|
  {
    if n < |chunks| {
      var shorter := chunks[..|chunks| - 1];
      assert shorter[..n] == chunks[..n];
      ChunkRaises(decode, shorter, handler, n);
    } else {
      assert chunks[..n] == chunks;
    }
  }

  // --------------------------------------------------------------------------------------------------
  // The promises
  // --------------------------------------------------------------------------------------------------

  /** ms[i] is the first occurrence of its key. */
  predicate First(ms: seq<Member>, i: nat) {
    i < |ms| && forall j | 0 <= j < i :: ms[j].key != ms[i].key
  }

  predicate Occurs(ms: seq<Member>, key: string) {
    exists i | 0 <= i < |ms| :: ms[i].key == key
  }

  predicate FirstIs(ms: seq<Member>, key: string, value: Json) {
    exists i: nat | i < |ms| :: First(ms, i) && ms[i] == Member(key, value)
  }

  lemma OccursInPrefix(ms: seq<Member>, key: string)
    requires ms != []
    ensures Occurs(ms, key) <==> Occurs(ms[..|ms| - 1], key) || ms[|ms| - 1].key == key
  {
    var shorter := ms[..|ms| - 1];
    assert forall j | 0 <= j < |shorter| :: ms[j] == shorter[j];
  }

  lemma FirstOfPrefixIsFirst(ms: seq<Member>, key: string, value: Json)
    requires ms != []
    ensures FirstIs(ms[..|ms| - 1], key, value) ==> FirstIs(ms, key, value)
  {
    var shorter := ms[..|ms| - 1];
    if FirstIs(shorter, key, value) {
      var i: nat :| i < |shorter| && First(shorter, i) && shorter[i] == Member(key, value);
      assert forall j | 0 <= j < |shorter| :: ms[j] == shorter[j];
      assert First(ms, i);
    }
  }

  lemma NewKeyIsFirst(ms: seq<Member>, key: string, value: Json)
    requires ms != []
    ensures ms[|ms| - 1] == Member(key, value) && !Occurs(ms[..|ms| - 1], key) ==> FirstIs(ms, key, value)
  {
    var shorter := ms[..|ms| - 1];
    assert forall j | 0 <= j < |shorter| :: ms[j] == shorter[j];
    if ms[|ms| - 1] == Member(key, value) && !Occurs(shorter, key) {
      assert First(ms, |ms| - 1);
    }
  }

  lemma FirstIsInPrefixOrNew(ms: seq<Member>, key: string, value: Json)
    requires ms != []
    ensures FirstIs(ms, key, value) ==>
      FirstIs(ms[..|ms| - 1], key, value) || (ms[|ms| - 1] == Member(key, value) && !Occurs(ms[..|ms| - 1], key))
  {
    var n := |ms| - 1;
    var shorter := ms[..n];
    if FirstIs(ms, key, value) {
      var i: nat :| i < |ms| && First(ms, i) && ms[i] == Member(key, value);
      assert forall j | 0 <= j < n :: ms[j] == shorter[j];
      if i < n {
        assert First(shorter, i);
      }
    }
  }

  lemma FirstIsLast(ms: seq<Member>, key: string, value: Json)
    requires ms != []
    ensures var n := |ms| - 1;
      FirstIs(ms, key, value) <==>
        FirstIs(ms[..n], key, value) || (ms[n] == Member(key, value) && !Occurs(ms[..n], key))
  {
    FirstOfPrefixIsFirst(ms, key, value);
    NewKeyIsFirst(ms, key, value);
    FirstIsInPrefixOrNew(ms, key, value);
  }

  /** Adding occurrences one after the other keeps exactly the keys that occur, each with its first value. */
  lemma {:induction false} AddedAreFirst(ms: seq<Member>, key: string, value: Json)
    ensures key in AddFlags(map[], ms) <==> Occurs(ms, key)
    ensures key in AddFlags(map[], ms) && AddFlags(map[], ms)[key] == value <==> FirstIs(ms, key, value)
  {
    if ms != [] {
      AddedAreFirst(ms[..|ms| - 1], key, value);
      OccursInPrefix(ms, key);
      FirstIsLast(ms, key, value);
    }
  }

  // --------------------------------------------------------------------------------------------------
  // What one item contributes
  // --------------------------------------------------------------------------------------------------

  lemma OccursConcat(a: seq<Member>, b: seq<Member>, key: string)
    ensures Occurs(a + b, key) <==> Occurs(a, key) || Occurs(b, key)
  {
    if Occurs(a, key) {
      var i :| 0 <= i < |a| && a[i].key == key;
      assert (a + b)[i].key == key;
    }
    if Occurs(b, key) {
      var i :| 0 <= i < |b| && b[i].key == key;
      assert (a + b)[|a| + i].key == key;
    }
  }

  lemma {:induction false} FirstIsConcat(a: seq<Member>, b: seq<Member>, key: string, value: Json)
    ensures FirstIs(a + b, key, value) <==> FirstIs(a, key, value) || (!Occurs(a, key) && FirstIs(b, key, value))
  {
    if b == [] {
      assert a + b == a;
    } else {
      var front := b[..|b| - 1];
      assert (a + b)[..|a + b| - 1] == a + front;
      FirstIsConcat(a, front, key, value);
      OccursConcat(a, front, key);
      FirstIsLast(a + b, key, value);
      FirstIsLast(b, key, value);
    }
  }

  lemma {:induction false} GetIff(members: seq<Member>, key: string, default: Json, value: Json)
    ensures Get(members, key, default) == value <==>
      FirstIs(members, key, value) || (!Occurs(members, key) && value == default)
  {
    if members != [] {
      var first, rest := [members[0]], members[1..];
      GetIff(rest, key, default, value);
      assert members == first + rest;
      FirstIsConcat(first, rest, key, value);
      OccursConcat(first, rest, key);
      assert First(first, 0);
      assert Occurs(first, key) <==> first[0].key == key;
    }
  }

  lemma FirstIsUnique(members: seq<Member>, key: string, value: Json, value': Json)
    requires FirstIs(members, key, value)
    ensures Occurs(members, key) && (FirstIs(members, key, value') ==> value == value')
  {
    GetIff(members, key, value, value);
    GetIff(members, key, value, value');
  }

  lemma OccursIsFirst(members: seq<Member>, key: string)
    ensures Occurs(members, key) <==> exists value :: FirstIs(members, key, value)
  {
    GetIff(members, key, Null, Get(members, key, Null));
    if value :| FirstIs(members, key, value) {
      FirstIsUnique(members, key, value, value);
    }
  }

  /** The item is an object whose handler is this one. */
  predicate Mine(item: Json, handler: string) {
    item.Object? && FirstIs(item.members, "HANDLER", Text(handler))
  }

  /** Through CONTEXT, then MAIN, both objects, this value stands under the handler's name. */
  ghost predicate FlagsValue(members: seq<Member>, handler: string, value: Json) {
    exists context, main ::
      && FirstIs(members, "CONTEXT", Object(context))
      && FirstIs(context, "MAIN", Object(main))
      && FirstIs(main, handler, value)
  }

  lemma FoundOrEmpty(members: seq<Member>, handler: string)
    ensures FlagsValue(members, handler, TestItemFlags(members, handler)) || TestItemFlags(members, handler) == Object([])
  {
    var empty := Object([]);
    var context := Get(members, "CONTEXT", empty);
    GetIff(members, "CONTEXT", empty, context);
    if context.Object? {
      var main := Get(context.members, "MAIN", empty);
      GetIff(context.members, "MAIN", empty, main);
      if main.Object? {
        var value := Get(main.members, handler, empty);
        GetIff(main.members, handler, empty, value);
        assert context == Object(context.members) && main == Object(main.members);
        if FirstIs(main.members, handler, value) && FirstIs(context.members, "MAIN", main) && FirstIs(members, "CONTEXT", context) {
          assert FlagsValue(members, handler, value);
        }
      }
    }
  }

  /** The lookup finds that value, and without one, for whatever reason, no flags. */
  lemma TestItemFlagsIff(members: seq<Member>, handler: string, value: Json)
    ensures TestItemFlags(members, handler) == value <==>
      FlagsValue(members, handler, value) || (value == Object([]) && forall other :: !FlagsValue(members, handler, other))
  {
    FoundOrEmpty(members, handler);
    FlagsValueIsFound(members, handler);
  }

  lemma FlagsValueIsFound(members: seq<Member>, handler: string)
    ensures forall value | FlagsValue(members, handler, value) :: TestItemFlags(members, handler) == value
  {
    var empty := Object([]);
    forall value | FlagsValue(members, handler, value)
      ensures TestItemFlags(members, handler) == value
    {
      var context, main :|
        FirstIs(members, "CONTEXT", Object(context)) && FirstIs(context, "MAIN", Object(main)) && FirstIs(main, handler, value);
      GetIff(members, "CONTEXT", empty, Object(context));
      GetIff(context, "MAIN", empty, Object(main));
      GetIff(main, handler, empty, value);
    }
  }

  /** The item carries these flags for this handler. */
  ghost predicate CarriesFlags(item: Json, handler: string, flags: seq<Member>) {
    Mine(item, handler) && FlagsValue(item.members, handler, Object(flags))
  }

  ghost predicate HasFlag(item: Json, handler: string, key: string) {
    exists flags :: CarriesFlags(item, handler, flags) && Occurs(flags, key)
  }

  ghost predicate HasFlagFirst(item: Json, handler: string, key: string, value: Json) {
    exists flags :: CarriesFlags(item, handler, flags) && FirstIs(flags, key, value)
  }

  /** A test ID of a collection: an element, a character, or a key. */
  predicate IdAmong(ids: Json, id: Json) {
    match ids
    case Array(es) => id in es
    case Text(s) => exists i | 0 <= i < |s| :: id == Text([s[i]])
    case Object(ms) => exists i | 0 <= i < |ms| :: id == Text(ms[i].key)
    case _ => false
  }

  ghost predicate Triggers(item: Json, handler: string, id: Json) {
    Mine(item, handler) && exists ids :: FirstIs(item.members, "TESTID", ids) && IdAmong(ids, id)
  }

  predicate BadIds(ids: Json) {
    ids.Null? || ids.Atom? || (ids.Array? && exists e | e in ids.elements :: e.Array? || e.Object?)
  }

  /** No object; or this handler's, with test IDs that are no collection of hashable values, or flags that are no object. */
  ghost predicate Malformed(item: Json, handler: string) {
    || !item.Object?
    || (Mine(item, handler) && exists ids :: FirstIs(item.members, "TESTID", ids) && BadIds(ids))
    || (Mine(item, handler) && exists flags :: FlagsValue(item.members, handler, flags) && !flags.Object?)
  }

  lemma MineIff(item: Json, handler: string)
    requires item.Object?
    ensures Mine(item, handler) <==> Get(item.members, "HANDLER", Null) == Text(handler)
  {
    GetIff(item.members, "HANDLER", Null, Text(handler));
  }

  /** The value of TESTID, an empty list when it is missing. */
  lemma IdsExact(item: Json, handler: string, id: Json)
    requires Mine(item, handler)
    ensures var ids := IterableAsSet(Get(item.members, "TESTID", Array([])));
      && (ids.None? <==> exists v :: FirstIs(item.members, "TESTID", v) && BadIds(v))
      && (ids.Some? ==> (id in ids.value <==> Triggers(item, handler, id)))
  {
    var ids := Get(item.members, "TESTID", Array([]));
    GetIff(item.members, "TESTID", Array([]), ids);
    forall v | FirstIs(item.members, "TESTID", v)
      ensures v == ids
    {
      GetIff(item.members, "TESTID", Array([]), v);
    }
  }

  lemma FlagsExact(item: Json, handler: string)
    requires Mine(item, handler)
    ensures var flags := TestItemFlags(item.members, handler);
      && (flags.Object? <==> !exists v :: FlagsValue(item.members, handler, v) && !v.Object?)
      && (flags.Object? && flags.members != [] ==> CarriesFlags(item, handler, flags.members))
      && forall fs | CarriesFlags(item, handler, fs) :: flags == Object(fs)
  {
    TestItemFlagsIff(item.members, handler, TestItemFlags(item.members, handler));
    FlagsValueIsFound(item.members, handler);
  }

  /** What an item adds: nothing if it is another handler's; otherwise its flags, if it has any, and its test IDs. */
  lemma FromItemExact(item: Json, handler: string, key: string, value: Json, id: Json)
    ensures FromItem(item, handler).None? <==> Malformed(item, handler)
    ensures FromItem(item, handler).Some? ==>
      var c := FromItem(item, handler).value;
      && (Occurs(c.occurrences, key) <==> HasFlag(item, handler, key))
      && (FirstIs(c.occurrences, key, value) <==> HasFlagFirst(item, handler, key, value))
      && (id in c.testids <==> Triggers(item, handler, id))
  {
    if item.Object? {
      MineIff(item, handler);
      if Mine(item, handler) {
        IdsExact(item, handler, id);
        FlagsExact(item, handler);
      }
    }
  }

  /** Some item has this flag. */
  ghost predicate Flagged(items: seq<Json>, handler: string, key: string) {
    exists k | 0 <= k < |items| :: HasFlag(items[k], handler, key)
  }

  /** items[k] has this flag with this value, and no item before it has it. */
  ghost predicate FirstFlagAt(items: seq<Json>, handler: string, key: string, value: Json, k: nat) {
    k < |items| && HasFlagFirst(items[k], handler, key, value) && !Flagged(items[..k], handler, key)
  }

  ghost predicate FirstFlag(items: seq<Json>, handler: string, key: string, value: Json) {
    exists k: nat :: FirstFlagAt(items, handler, key, value, k)
  }

  ghost predicate Triggered(items: seq<Json>, handler: string, id: Json) {
    exists item | item in items :: Triggers(item, handler, id)
  }

  // --------------------------------------------------------------------------------------------------
  // What a list of items contributes
  // --------------------------------------------------------------------------------------------------

  lemma FlaggedLast(items: seq<Json>, handler: string, key: string)
    requires items != []
    ensures var n := |items| - 1;
      Flagged(items, handler, key) <==> Flagged(items[..n], handler, key) || HasFlag(items[n], handler, key)
  {
    var front := items[..|items| - 1];
    if Flagged(front, handler, key) {
      var k :| 0 <= k < |front| && HasFlag(front[k], handler, key);
      assert items[k] == front[k];
    }
  }

  lemma FirstFlagInPrefix(items: seq<Json>, handler: string, key: string, value: Json, k: nat, n: nat)
    requires k < n <= |items|
    ensures FirstFlagAt(items, handler, key, value, k) <==> FirstFlagAt(items[..n], handler, key, value, k)
  {
    assert items[..n][..k] == items[..k];
  }

  lemma FirstFlagLast(items: seq<Json>, handler: string, key: string, value: Json)
    requires items != []
    ensures var n := |items| - 1;
      FirstFlag(items, handler, key, value) <==>
        FirstFlag(items[..n], handler, key, value) || FirstFlagAt(items, handler, key, value, n)
  {
    var n := |items| - 1;
    if FirstFlag(items[..n], handler, key, value) {
      var k: nat :| FirstFlagAt(items[..n], handler, key, value, k);
      FirstFlagInPrefix(items, handler, key, value, k, n);
    }
    if FirstFlag(items, handler, key, value) {
      var k: nat :| FirstFlagAt(items, handler, key, value, k);
      if k < n {
        FirstFlagInPrefix(items, handler, key, value, k, n);
      }
    }
  }

  /** The occurrences collected from the items are those of the items, in order. */
  lemma {:induction false} OccurrencesAreFlags(items: seq<Json>, handler: string, key: string, value: Json)
    requires FromItems(items, handler).Some?
    ensures Occurs(FromItems(items, handler).value.occurrences, key) <==> Flagged(items, handler, key)
    ensures FirstIs(FromItems(items, handler).value.occurrences, key, value) <==> FirstFlag(items, handler, key, value)
  {
    if items != [] {
      var n := |items| - 1;
      OccurrencesAreFlags(items[..n], handler, key, value);
      FromItemExact(items[n], handler, key, value, Null);
      var before, last := FromItems(items[..n], handler).value.occurrences, FromItem(items[n], handler).value.occurrences;
      OccursConcat(before, last, key);
      FirstIsConcat(before, last, key, value);
      FlaggedLast(items, handler, key);
      FirstFlagLast(items, handler, key, value);
    }
  }

  lemma {:induction false} IdsAreTriggered(items: seq<Json>, handler: string, id: Json)
    requires FromItems(items, handler).Some?
    ensures id in FromItems(items, handler).value.testids <==> Triggered(items, handler, id)
  {
    if items != [] {
      var n := |items| - 1;
      IdsAreTriggered(items[..n], handler, id);
      FromItemExact(items[n], handler, "", Null, id);
      assert items == items[..n] + [items[n]];
    }
  }

  /** One malformed item among them is enough to raise. */
  lemma {:induction false} MalformedRaises(items: seq<Json>, handler: string)
    ensures FromItems(items, handler).None? <==> exists item | item in items :: Malformed(item, handler)
  {
    if items != [] {
      var n := |items| - 1;
      MalformedRaises(items[..n], handler);
      FromItemExact(items[n], handler, "", Null, Null);
      assert items == items[..n] + [items[n]];
    }
  }

  /** All items in (chunk, item) order. */
  function AllItems(decode: string -> Decoded, chunks: seq<string>): Option<seq<Json>> {
    if chunks == [] then Some([])
    else
      var n := |chunks| - 1;
      match (AllItems(decode, chunks[..n]), decode(chunks[n]))
      case (Some(items), Undecodable) => Some(items)
      case (Some(items), Decoded(value)) =>
        (match Elements(value)
         case Some(more) => Some(items + more)
         case None => None)
      case _ => None
  }

  lemma BothAssociative(a: Collected, b: Collected, c: Collected)
    ensures Both(a, Both(b, c)) == Both(Both(a, b), c)
    ensures Both(a, NOTHING) == a
  {
  }

  lemma {:induction false} FromItemsConcat(a: seq<Json>, b: seq<Json>, handler: string)
    ensures FromItems(a + b, handler)
         == match (FromItems(a, handler), FromItems(b, handler))
            case (Some(x), Some(y)) => Some(Both(x, y))
            case _ => None
  {
    if b == [] {
      assert a + b == a;
      if FromItems(a, handler).Some? {
        BothAssociative(FromItems(a, handler).value, NOTHING, NOTHING);
      }
    } else {
      var n := |b| - 1;
      FromItemsConcat(a, b[..n], handler);
      assert (a + b)[..|a + b| - 1] == a + b[..n];
      if FromItems(a, handler).Some? && FromItems(b, handler).Some? {
        BothAssociative(FromItems(a, handler).value, FromItems(b[..n], handler).value, FromItem(b[n], handler).value);
      }
    }
  }

  /** The nested loops over chunks and items collect what one loop over all the items would. */
  lemma {:induction false} ChunksAreItems(decode: string -> Decoded, chunks: seq<string>, handler: string)
    ensures FromChunks(decode, chunks, handler)
         == match AllItems(decode, chunks) { case Some(items) => FromItems(items, handler) case None => None }
  {
    if chunks != [] {
      var n := |chunks| - 1;
      var front := chunks[..n];
      ChunksAreItems(decode, front, handler);
      var d := decode(chunks[n]);
      if AllItems(decode, front).Some? {
        var items := AllItems(decode, front).value;
        if d.Undecodable? && FromItems(items, handler).Some? {
          BothAssociative(FromItems(items, handler).value, NOTHING, NOTHING);
        }
        if d.Decoded? && Elements(d.value).Some? {
          FromItemsConcat(items, Elements(d.value).value, handler);
        }
      }
    }
  }

  function Decodable(decode: string -> Decoded, chunks: seq<string>): (r: seq<string>)
    ensures forall c | c in r :: c in chunks && !decode(c).Undecodable?
  {
    if chunks == [] then []
    else
      var n := |chunks| - 1;
      var rest := Decodable(decode, chunks[..n]);
      if decode(chunks[n]).Undecodable? then rest else rest + [chunks[n]]
  }

  lemma FromChunksAppend(decode: string -> Decoded, chunks: seq<string>, c: string, handler: string)
    ensures FromChunks(decode, chunks + [c], handler)
         == match (FromChunks(decode, chunks, handler), FromChunk(decode(c), handler))
            case (Some(a), Some(b)) => Some(Both(a, b))
            case _ => None
  {
    assert (chunks + [c])[..|chunks|] == chunks;
  }

  lemma {:induction false} DecodableSuffices(decode: string -> Decoded, chunks: seq<string>, handler: string)
    ensures FromChunks(decode, Decodable(decode, chunks), handler) == FromChunks(decode, chunks, handler)
  {
    if chunks != [] {
      var front, c := chunks[..|chunks| - 1], chunks[|chunks| - 1];
      DecodableSuffices(decode, front, handler);
      assert chunks == front + [c];
      FromChunksAppend(decode, front, c, handler);
      if !decode(c).Undecodable? {
        FromChunksAppend(decode, Decodable(decode, front), c, handler);
      } else if FromChunks(decode, front, handler).Some? {
        BothAssociative(FromChunks(decode, front, handler).value, NOTHING, NOTHING);
      }
    }
  }

  /**
   Deleting the undecodable chunks from the header does not change the result. The empty chunk is undecodable:
   it is the base64 text of no bytes, which is not JSON.
   */
  lemma UndecodableChunksDoNotMatter(decode: string -> Decoded, header: string, handler: string)
    requires decode("") == Undecodable
    ensures var kept := Decodable(decode, Split(header, COMMA));
      ParsedHeader(decode, Some(Join(kept, COMMA)), handler) == ParsedHeader(decode, Some(header), handler)
  {
    var chunks := Split(header, COMMA);
    var kept := Decodable(decode, chunks);
    DecodableSuffices(decode, chunks, handler);
    SplitPartsPlain(header, COMMA);
    if kept != [] {
      SplitJoin(kept, COMMA);
      assert kept[0] in kept;
      assert Split("", COMMA) == [""];
      assert "" !in kept;
    }
  }

  // --------------------------------------------------------------------------------------------------
  // Whole headers
  // --------------------------------------------------------------------------------------------------

  /** The items of a header in (chunk, item) order; an absent or empty header has none. */
  function HeaderItems(decode: string -> Decoded, header: Option<string>): Option<seq<Json>> {
    if header.None? || header.value == "" then Some([]) else AllItems(decode, Split(header.value, COMMA))
  }

  /** A chunk that decodes with an uncaught exception, or to a number, a boolean or null. */
  predicate BadChunk(d: Decoded) {
    d.Raises? || (d.Decoded? && (d.value.Null? || d.value.Atom?))
  }

  lemma AllItemsLast(decode: string -> Decoded, chunks: seq<string>)
    requires chunks != []
    ensures AllItems(decode, chunks).None? <==>
      AllItems(decode, chunks[..|chunks| - 1]).None? || BadChunk(decode(chunks[|chunks| - 1]))
  {
  }

  lemma {:induction false} BadChunksRaise(decode: string -> Decoded, chunks: seq<string>)
    ensures AllItems(decode, chunks).None? <==> exists c | c in chunks :: BadChunk(decode(c))
  {
    if chunks != [] {
      var n := |chunks| - 1;
      BadChunksRaise(decode, chunks[..n]);
      AllItemsLast(decode, chunks);
      assert chunks == chunks[..n] + [chunks[n]];
    }
  }

  /** What the constructor leaves, as a function of the items of the header alone. */
  lemma ParsedHeaderOfItems(decode: string -> Decoded, header: Option<string>, handler: string)
    ensures ParsedHeader(decode, header, handler)
         == match HeaderItems(decode, header)
            case None => Raised
            case Some(items) =>
              match FromItems(items, handler)
              case None => Raised
              case Some(c) => if Sortable(c.testids) then Parsed(AddFlags(map[], c.occurrences), c.testids) else Raised
  {
    if header.Some? && header.value != "" {
      ChunksAreItems(decode, Split(header.value, COMMA), handler);
    }
  }

  /**
   For every header that parses, the flags map each key to its value in the first of this handler's items, in
   (chunk, item) order, that has it, and no other key.
   */
  lemma FlagsAreFirstOccurrences(decode: string -> Decoded, header: Option<string>, handler: string, key: string, value: Json)
    requires ParsedHeader(decode, header, handler).Parsed?
    ensures HeaderItems(decode, header).Some?
    ensures var flags := ParsedHeader(decode, header, handler).flags;
      var items := HeaderItems(decode, header).value;
      && (key in flags <==> Flagged(items, handler, key))
      && (key in flags && flags[key] == value <==> FirstFlag(items, handler, key, value))
  {
    ParsedHeaderOfItems(decode, header, handler);
    var items := HeaderItems(decode, header).value;
    AddedAreFirst(FromItems(items, handler).value.occurrences, key, value);
    OccurrencesAreFlags(items, handler, key, value);
  }

  /** For every header that parses, the test IDs are the union over this handler's items. */
  lemma TestIdsAreUnion(decode: string -> Decoded, header: Option<string>, handler: string, id: Json)
    requires ParsedHeader(decode, header, handler).Parsed?
    ensures HeaderItems(decode, header).Some?
    ensures id in ParsedHeader(decode, header, handler).testids <==>
      Triggered(HeaderItems(decode, header).value, handler, id)
  {
    ParsedHeaderOfItems(decode, header, handler);
    IdsAreTriggered(HeaderItems(decode, header).value, handler, id);
  }

  /**
   When the constructor raises: a chunk that cannot be decoded or iterated, an item that is malformed, or two
   test IDs of this handler that cannot be ordered against each other.
   */
  lemma RaisesIff(decode: string -> Decoded, header: string, handler: string)
    requires header != ""
    ensures ParsedHeader(decode, Some(header), handler).Raised? <==>
      || (exists c | c in Split(header, COMMA) :: BadChunk(decode(c)))
      || var items := HeaderItems(decode, Some(header));
         items.Some? &&
         (|| (exists item | item in items.value :: Malformed(item, handler))
          || (exists x, y | Triggered(items.value, handler, x) && Triggered(items.value, handler, y) && x != y ::
                !Comparable(x, y)))
  {
    ParsedHeaderOfItems(decode, Some(header), handler);
    BadChunksRaise(decode, Split(header, COMMA));
    var all := HeaderItems(decode, Some(header));
    if all.Some? {
      MalformedRaises(all.value, handler);
      if FromItems(all.value, handler).Some? {
        forall id
          ensures id in FromItems(all.value, handler).value.testids <==> Triggered(all.value, handler, id)
        {
          IdsAreTriggered(all.value, handler, id);
        }
      }
    }
  }

  /** An item of this handler with one test ID and no flags. */
  function ItemWith(handler: string, id: Json): Json {
    Object([Member("HANDLER", Text(handler)), Member("TESTID", Array([id]))])
  }

  /** A header of one chunk with a textual and a numeric test ID raises. */
  lemma MixedIdsRaise(decode: string -> Decoded, header: string, handler: string)
    requires header != "" && COMMA !in header
    requires decode(header) == Decoded(Array([ItemWith(handler, Text("a")), ItemWith(handler, Atom("1"))]))
    ensures ParsedHeader(decode, Some(header), handler).Raised?
  {
    SplitPlain(header, COMMA);
    var items := [ItemWith(handler, Text("a")), ItemWith(handler, Atom("1"))];
    var chunks := [header];
    assert chunks[..0] == [] && chunks[0] == header;
    assert AllItems(decode, chunks[..0]) == Some([]);
    assert Elements(decode(header).value) == Some(items);
    assert AllItems(decode, chunks) == Some([] + items);
    ItemTriggers(handler, Text("a"));
    ItemTriggers(handler, Atom("1"));
    assert items[0] in items && items[1] in items;
    assert Triggered(items, handler, Text("a")) && Triggered(items, handler, Atom("1"));
    assert !Comparable(Text("a"), Atom("1"));
    RaisesIff(decode, header, handler);
  }

  lemma ItemTriggers(handler: string, id: Json)
    ensures Triggers(ItemWith(handler, id), handler, id)
  {
    var members := ItemWith(handler, id).members;
    assert First(members, 0) && First(members, 1);
    assert members[0] == Member("HANDLER", Text(handler)) && members[1] == Member("TESTID", Array([id]));
    assert FirstIs(members, "TESTID", Array([id])) && IdAmong(Array([id]), id);
  }

  // --------------------------------------------------------------------------------------------------
  // Where the items of a header come from
  // --------------------------------------------------------------------------------------------------

  /** What one chunk yields: nothing when it cannot be decoded, else the elements, characters or keys of its value. */
  predicate Yields(d: Decoded, items: seq<Json>) {
    match d
    case Undecodable => items == []
    case Raises => false
    case Decoded(Array(es)) => items == es
    case Decoded(Text(s)) => |items| == |s| && forall i | 0 <= i < |s| :: items[i] == Text([s[i]])
    case Decoded(Object(ms)) => |items| == |ms| && forall i | 0 <= i < |ms| :: items[i] == Text(ms[i].key)
    case Decoded(_) => false
  }

  function Concatenated(parts: seq<seq<Json>>): seq<Json> {
    if parts == [] then [] else Concatenated(parts[..|parts| - 1]) + parts[|parts| - 1]
  }

  /** The items are those of the chunks, chunk by chunk. */
  lemma {:induction false} ItemsAreChunks(decode: string -> Decoded, chunks: seq<string>) returns (parts: seq<seq<Json>>)
    requires AllItems(decode, chunks).Some?
    ensures |parts| == |chunks| && forall c | 0 <= c < |chunks| :: Yields(decode(chunks[c]), parts[c])
    ensures AllItems(decode, chunks).value == Concatenated(parts)
  {
    if chunks == [] {
      parts := [];
    } else {
      var n := |chunks| - 1;
      var front := ItemsAreChunks(decode, chunks[..n]);
      assert forall c | 0 <= c < n :: chunks[..n][c] == chunks[c];
      var d := decode(chunks[n]);
      var last := if d.Decoded? && Elements(d.value).Some? then Elements(d.value).value else [];
      parts := front + [last];
      assert parts[..n] == front;
    }
  }

  /** For every header that parses: it is cut at the commas, and its items are those of the pieces, in order. */
  lemma HeaderItemsExact(decode: string -> Decoded, header: string, handler: string)
    returns (chunks: seq<string>, parts: seq<seq<Json>>)
    requires header != "" && ParsedHeader(decode, Some(header), handler).Parsed?
    ensures Join(chunks, ',') == header && forall c | c in chunks :: ',' !in c
    ensures |parts| == |chunks| && forall c | 0 <= c < |chunks| :: Yields(decode(chunks[c]), parts[c])
    ensures HeaderItems(decode, Some(header)) == Some(Concatenated(parts))
  {
    chunks := Split(header, COMMA);
    JoinSplit(header, COMMA);
    SplitPartsPlain(header, COMMA);
    ParsedHeaderOfItems(decode, Some(header), handler);
    parts := ItemsAreChunks(decode, chunks);
  }
}
