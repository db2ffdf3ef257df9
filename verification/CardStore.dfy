/** The enrolment store of the Mastercard SRC mock: cards, consumers and the keys that find them (mcmock/server.go). */
module CardStore {
  import opened Wrappers
  import opened ByteStrings

  datatype Card = Card(primaryAccountNumber: Bytes, panExpirationMonth: Bytes, panExpirationYear: Bytes)

  datatype MaskedCard = MaskedCard(
    srcDigitalCardID: Bytes,
    panExpirationMonth: Bytes,
    panExpirationYear: Bytes,
    panBin: Bytes,
    panLastFour: Bytes,
    tokenLastFour: Bytes,
    serviceID: Bytes,
    paymentAccountReference: Bytes,
    dateOfCardCreated: Bytes)

  datatype EnrolledCard = EnrolledCard(
    cardID: Bytes,
    primaryAccountNumber: Bytes,
    par: Bytes,
    dpan: Bytes,
    maskedCard: MaskedCard)

  /** One request: who enrols what, the identifiers drawn for it, and the time it is made. */
  datatype Enrolment = Enrolment(
    serviceID: Bytes,
    identityValue: Bytes,
    card: Card,
    cardID: Bytes,
    guid: Bytes,
    date: Bytes)

  /** The number is sliced without a length check. */
  predicate Sliceable(e: Enrolment) {
    |e.card.primaryAccountNumber| >= 6
  }

  /** "5105105105105100" */
  const DPAN: Bytes := [53, 49, 48, 53, 49, 48, 53, 49, 48, 53, 49, 48, 53, 49, 48, 48]

  datatype Store = Store(
    cards: map<Bytes, EnrolledCard>,
    consumerIDByKey: map<Bytes, Bytes>,
    consumers: map<Bytes, seq<EnrolledCard>>)

  const EMPTY := Store(map[], map[], map[])

  function ConsumerKey(serviceID: Bytes, identityValue: Bytes): Bytes {
    serviceID + [COLON] + identityValue
  }

  function KeyOf(e: Enrolment): Bytes {
    ConsumerKey(e.serviceID, e.identityValue)
  }

  function NewCard(sha1Hex: Bytes -> Bytes, e: Enrolment): EnrolledCard
    requires Sliceable(e)
  {
    var pan := e.card.primaryAccountNumber;
    var par := sha1Hex(pan);
    EnrolledCard(e.cardID, pan, par, DPAN,
                 MaskedCard(e.cardID, e.card.panExpirationMonth, e.card.panExpirationYear, pan[..6], pan[|pan| - 4..],
                            DPAN[|DPAN| - 4..], e.serviceID, par, e.date))
  }

  /** The first card of the list with this number. */
  function FindPan(list: seq<EnrolledCard>, pan: Bytes): (r: Option<EnrolledCard>)
    ensures r.Some? <==> exists i | 0 <= i < |list| :: list[i].primaryAccountNumber == pan
    ensures r.Some? ==> r.value in list && r.value.primaryAccountNumber == pan
  {
    if list == [] then None
    else if list[0].primaryAccountNumber == pan then Some(list[0])
    else FindPan(list[1..], pan)
  }

  function ConsumerID(s: Store, e: Enrolment): Bytes {
    if KeyOf(e) in s.consumerIDByKey then s.consumerIDByKey[KeyOf(e)] else e.guid
  }

  function CardsOf(s: Store, id: Bytes): seq<EnrolledCard> {
    if id in s.consumers then s.consumers[id] else []
  }

  function WithConsumer(s: Store, e: Enrolment): Store {
    var id := ConsumerID(s, e);
    s.(consumerIDByKey := s.consumerIDByKey[KeyOf(e) := id], consumers := s.consumers[id := CardsOf(s, id)])
  }

  /** The store after the enrolment, and the card it returns. */
  function Enrolled(sha1Hex: Bytes -> Bytes, s: Store, e: Enrolment): (Store, EnrolledCard)
    requires Sliceable(e)
  {
    var id := ConsumerID(s, e);
    match FindPan(CardsOf(s, id), e.card.primaryAccountNumber)
    case Some(card) => (WithConsumer(s, e), card)
    case None =>
      var card := NewCard(sha1Hex, e);
      var s' := WithConsumer(s, e);
      (s'.(cards := s.cards[e.cardID := card], consumers := s'.consumers[id := CardsOf(s, id) + [card]]), card)
  }

  function Run(sha1Hex: Bytes -> Bytes, s: Store, es: seq<Enrolment>): Store
    requires forall e | e in es :: Sliceable(e)
    decreases es
  {
    if es == [] then s
    else
      assert es[0] in es;
      Run(sha1Hex, Enrolled(sha1Hex, s, es[0]).0, es[1..])
  }

  // --------------------------------------------------------------------------------------------------
  // The objects
  // --------------------------------------------------------------------------------------------------

  class EnrolledConsumer {
    const consumerID: Bytes
    var enrolledCards: seq<EnrolledCard>

    constructor (id: Bytes)
      ensures consumerID == id && enrolledCards == []
    {
      consumerID := id;
      enrolledCards := [];
    }
  }

  class SRCServer {
    var cards: map<Bytes, EnrolledCard>
    var consumerIDByKey: map<Bytes, Bytes>
    var consumers: map<Bytes, EnrolledConsumer>

    /** Each consumer object is stored under its own ID, so no two IDs share one. */
    ghost predicate Valid()
      reads this
    {
      forall id | id in consumers :: consumers[id].consumerID == id
    }

    ghost function View(): Store
      reads this, consumers.Values
    {
      Store(cards, consumerIDByKey, map id | id in consumers :: consumers[id].enrolledCards)
    }

    constructor ()
      ensures Valid() && View() == EMPTY
    {
      cards := map[];
      consumerIDByKey := map[];
      consumers := map[];
    }

    method EnrollCardWithFixedCardID(sha1Hex: Bytes -> Bytes, e: Enrolment)
      returns (card: EnrolledCard, consumer: EnrolledConsumer)
      requires Valid() && Sliceable(e)
      modifies this, consumers.Values
      ensures Valid()
      ensures (View(), card) == Enrolled(sha1Hex, old(View()), e)
      ensures consumer.consumerID == ConsumerID(old(View()), e)
      ensures consumer.consumerID in consumers && consumers[consumer.consumerID] == consumer
    {
      consumer := GetOrCreateConsumer(e);
      assert consumer in consumers.Values;
      assert consumer.enrolledCards == View().consumers[consumer.consumerID] == CardsOf(old(View()), consumer.consumerID);
      var par := sha1Hex(e.card.primaryAccountNumber);
      card := GetOrCreateCard(par, sha1Hex, consumer, e);
    }

    method GetOrCreateConsumer(e: Enrolment) returns (consumer: EnrolledConsumer)
      requires Valid()
      modifies this
      ensures Valid()
      ensures View() == WithConsumer(old(View()), e)
      ensures consumer.consumerID == ConsumerID(old(View()), e)
      ensures consumer.consumerID in consumers && consumers[consumer.consumerID] == consumer
      ensures fresh(consumers.Values - old(consumers.Values))
    {
      var consumerKey := KeyOf(e);
      var consumerID := e.guid;
      if consumerKey in consumerIDByKey {
        consumerID := consumerIDByKey[consumerKey];
      } else {
        consumerIDByKey := consumerIDByKey[consumerKey := consumerID];
      }
      assert consumerIDByKey == old(consumerIDByKey)[consumerKey := consumerID];
      if consumerID in consumers {
        consumer := consumers[consumerID];
      } else {
        consumer := new EnrolledConsumer(consumerID);
        consumers := consumers[consumerID := consumer];
      }
      assert View().consumers == WithConsumer(old(View()), e).consumers;
    }

    method GetOrCreateCard(par: Bytes, ghost sha1Hex: Bytes -> Bytes, consumer: EnrolledConsumer, e: Enrolment)
      returns (card: EnrolledCard)
      requires Valid() && Sliceable(e) && par == sha1Hex(e.card.primaryAccountNumber)
      requires consumer.consumerID in consumers && consumers[consumer.consumerID] == consumer
      modifies this`cards, consumer
      ensures match FindPan(old(consumer.enrolledCards), e.card.primaryAccountNumber)
        case Some(found) => card == found && View() == old(View())
        case None =>
          && card == NewCard(sha1Hex, e)
          && View() == old(View()).(cards := old(cards)[e.cardID := card],
                                    consumers := old(View()).consumers[consumer.consumerID := old(consumer.enrolledCards) + [card]])
    {
      var pan := e.card.primaryAccountNumber;
      for i := 0 to |consumer.enrolledCards|
        invariant FindPan(consumer.enrolledCards, pan) == FindPan(consumer.enrolledCards[i..], pan)
      {
        if consumer.enrolledCards[i].primaryAccountNumber == pan {
          return consumer.enrolledCards[i];
        }
        assert consumer.enrolledCards[i..][1..] == consumer.enrolledCards[i + 1..];
      }
      card := EnrolledCard(e.cardID, pan, par, DPAN,
                           MaskedCard(e.cardID, e.card.panExpirationMonth, e.card.panExpirationYear, pan[..6],
                                      pan[|pan| - 4..], DPAN[|DPAN| - 4..], e.serviceID, par, e.date));
      consumer.enrolledCards := consumer.enrolledCards + [card];
      cards := cards[card.cardID := card];
    }
  }

  // --------------------------------------------------------------------------------------------------
  // The invariant
  // --------------------------------------------------------------------------------------------------

  /** Keys find stored consumers, each consumer is found by one key. */
  ghost predicate KeysInv(s: Store) {
    && (forall k | k in s.consumerIDByKey :: s.consumerIDByKey[k] in s.consumers)
    && (forall k, k' | k in s.consumerIDByKey && k' in s.consumerIDByKey && k != k' ::
          s.consumerIDByKey[k] != s.consumerIDByKey[k'])
    && (forall id | id in s.consumers :: exists k | k in s.consumerIDByKey :: s.consumerIDByKey[k] == id)
  }

  predicate DistinctPans(list: seq<EnrolledCard>) {
    forall i, j | 0 <= i < j < |list| :: list[i].primaryAccountNumber != list[j].primaryAccountNumber
  }

  predicate Holds(s: Store, id: Bytes, i: nat, card: EnrolledCard) {
    id in s.consumers && i < |s.consumers[id]| && s.consumers[id][i] == card
  }

  /** cards is the index by ID of all the consumers' lists: the same cards, each held once. */
  ghost predicate IndexInv(s: Store) {
    HeldAreIndexed(s) && IndexedAreHeld(s) && HeldOnce(s)
  }

  ghost predicate HeldAreIndexed(s: Store) {
    forall id, i: nat, card | Holds(s, id, i, card) :: card.cardID in s.cards && s.cards[card.cardID] == card
  }

  ghost predicate IndexedAreHeld(s: Store) {
    forall cardID | cardID in s.cards ::
      s.cards[cardID].cardID == cardID && exists id, i: nat :: Holds(s, id, i, s.cards[cardID])
  }

  ghost predicate HeldOnce(s: Store) {
    forall id, i: nat, card, id', i': nat, card' | Holds(s, id, i, card) && Holds(s, id', i', card') ::
      card.cardID == card'.cardID ==> id == id' && i == i'
  }

  ghost predicate Inv(s: Store) {
    && KeysInv(s)
    && (forall id | id in s.consumers :: DistinctPans(s.consumers[id]))
    && IndexInv(s)
  }

  predicate KnownCard(s: Store, e: Enrolment) {
    KeyOf(e) in s.consumerIDByKey && FindPan(CardsOf(s, ConsumerID(s, e)), e.card.primaryAccountNumber).Some?
  }

  predicate UsableGuid(s: Store, e: Enrolment) {
    KeyOf(e) in s.consumerIDByKey || e.guid !in s.consumers
  }

  predicate UsableCardID(s: Store, e: Enrolment) {
    KnownCard(s, e) || e.cardID !in s.cards
  }

  lemma KnownCardChangesNothing(sha1Hex: Bytes -> Bytes, s: Store, e: Enrolment)
    requires KeysInv(s) && Sliceable(e) && KnownCard(s, e)
    ensures Enrolled(sha1Hex, s, e).0 == s
  {
    var id := ConsumerID(s, e);
    assert s.consumerIDByKey[KeyOf(e) := id] == s.consumerIDByKey;
    assert s.consumers[id := CardsOf(s, id)] == s.consumers;
  }

  lemma KeysKept(sha1Hex: Bytes -> Bytes, s: Store, e: Enrolment)
    requires KeysInv(s) && Sliceable(e) && UsableGuid(s, e)
    ensures KeysInv(Enrolled(sha1Hex, s, e).0)
  {
    var s' := Enrolled(sha1Hex, s, e).0;
    forall id | id in s'.consumers
      ensures exists k | k in s'.consumerIDByKey :: s'.consumerIDByKey[k] == id
    {
      if id == ConsumerID(s, e) {
        assert s'.consumerIDByKey[KeyOf(e)] == id;
      } else {
        var k :| k in s.consumerIDByKey && s.consumerIDByKey[k] == id;
        assert k in s'.consumerIDByKey && s'.consumerIDByKey[k] == id;
      }
    }
  }

  /** What is held after a new card was added: what was held before, and that card at the end of its list. */
  lemma HeldAfter(sha1Hex: Bytes -> Bytes, s: Store, e: Enrolment, id: Bytes, i: nat, card: EnrolledCard)
    requires KeysInv(s) && Sliceable(e) && UsableGuid(s, e) && !KnownCard(s, e)
    ensures Holds(Enrolled(sha1Hex, s, e).0, id, i, card)
       <==> Holds(s, id, i, card) || (id == ConsumerID(s, e) && i == |CardsOf(s, id)| && card == NewCard(sha1Hex, e))
    ensures Enrolled(sha1Hex, s, e).0.cards == s.cards[e.cardID := NewCard(sha1Hex, e)]
  {
  }

  lemma NewCardIndexed(sha1Hex: Bytes -> Bytes, s: Store, e: Enrolment)
    requires Inv(s) && Sliceable(e) && UsableGuid(s, e) && !KnownCard(s, e) && e.cardID !in s.cards
    ensures IndexInv(Enrolled(sha1Hex, s, e).0)
  {
    var s' := Enrolled(sha1Hex, s, e).0;
    var target, added := ConsumerID(s, e), NewCard(sha1Hex, e);
    var end := |CardsOf(s, target)|;
    forall id, i: nat, card
      ensures Holds(s', id, i, card) <==> Holds(s, id, i, card) || (id == target && i == end && card == added)
    {
      HeldAfter(sha1Hex, s, e, id, i, card);
    }
    HeldAfter(sha1Hex, s, e, target, end, added);
    IndexExtended(s, s', target, end, added);
  }

  /** s' is s with a card under an unused ID added to the cards and at one place. */
  ghost predicate Grown(s: Store, s': Store, target: Bytes, end: nat, added: EnrolledCard) {
    && added.cardID !in s.cards && s'.cards == s.cards[added.cardID := added]
    && (forall id, i: nat, card ::
          Holds(s', id, i, card) <==> Holds(s, id, i, card) || (id == target && i == end && card == added))
  }

  lemma GrownHeldOnce(s: Store, s': Store, target: Bytes, end: nat, added: EnrolledCard)
    requires HeldAreIndexed(s) && HeldOnce(s) && Grown(s, s', target, end, added)
    ensures HeldOnce(s')
  {
  }

  /** The index stays exact in a grown store. */
  lemma IndexExtended(s: Store, s': Store, target: Bytes, end: nat, added: EnrolledCard)
    requires IndexInv(s) && Grown(s, s', target, end, added)
    ensures IndexInv(s')
  {
    GrownHeldOnce(s, s', target, end, added);
    assert Holds(s', target, end, added);
    forall cardID | cardID in s'.cards
      ensures s'.cards[cardID].cardID == cardID && exists id, i: nat :: Holds(s', id, i, s'.cards[cardID])
    {
      if cardID != added.cardID {
        var id, i: nat :| Holds(s, id, i, s.cards[cardID]);
        assert Holds(s', id, i, s'.cards[cardID]);
      }
    }
  }

  lemma PansKept(sha1Hex: Bytes -> Bytes, s: Store, e: Enrolment)
    requires Inv(s) && Sliceable(e) && UsableGuid(s, e) && !KnownCard(s, e)
    ensures forall id | id in Enrolled(sha1Hex, s, e).0.consumers :: DistinctPans(Enrolled(sha1Hex, s, e).0.consumers[id])
  {
    assert DistinctPans(CardsOf(s, ConsumerID(s, e)));
  }

  /**
   An enrolment keeps the store consistent exactly when the identifiers it may need are unused:
   the consumer ID unless the consumer is known, the card ID unless the consumer has that card already.
   */
  lemma EnrolKeepsInv(sha1Hex: Bytes -> Bytes, s: Store, e: Enrolment)
    requires Inv(s) && Sliceable(e)
    ensures Inv(Enrolled(sha1Hex, s, e).0) <==> UsableGuid(s, e) && UsableCardID(s, e)
  {
    var s' := Enrolled(sha1Hex, s, e).0;
    if KnownCard(s, e) {
      KnownCardChangesNothing(sha1Hex, s, e);
    } else if !UsableGuid(s, e) {
      var k :| k in s.consumerIDByKey && s.consumerIDByKey[k] == e.guid;
      assert s'.consumerIDByKey[k] == s'.consumerIDByKey[KeyOf(e)] && k != KeyOf(e);
    } else if e.cardID in s.cards {
      ReusedCardID(sha1Hex, s, e);
    } else {
      KeysKept(sha1Hex, s, e);
      PansKept(sha1Hex, s, e);
      NewCardIndexed(sha1Hex, s, e);
    }
  }

  lemma ReusedCardID(sha1Hex: Bytes -> Bytes, s: Store, e: Enrolment)
    requires Inv(s) && Sliceable(e) && UsableGuid(s, e) && !KnownCard(s, e) && e.cardID in s.cards
    ensures !IndexInv(Enrolled(sha1Hex, s, e).0)
  {
    var s' := Enrolled(sha1Hex, s, e).0;
    var id, i: nat :| Holds(s, id, i, s.cards[e.cardID]);
    var target := ConsumerID(s, e);
    var added := NewCard(sha1Hex, e);
    HeldAfter(sha1Hex, s, e, id, i, s.cards[e.cardID]);
    HeldAfter(sha1Hex, s, e, target, |CardsOf(s, target)|, added);
    assert Holds(s', id, i, s.cards[e.cardID]) && Holds(s', target, |CardsOf(s, target)|, added);
    assert id != target || i != |CardsOf(s, target)|;
  }

  // --------------------------------------------------------------------------------------------------
  // Whole runs
  // --------------------------------------------------------------------------------------------------

  /** Every enrolment of the run finds the identifiers it needs unused. */
  predicate FreshRun(sha1Hex: Bytes -> Bytes, s: Store, es: seq<Enrolment>)
    requires forall e | e in es :: Sliceable(e)
    decreases es
  {
    es == [] || (
      assert es[0] in es;
      && UsableGuid(s, es[0]) && UsableCardID(s, es[0])
      && FreshRun(sha1Hex, Enrolled(sha1Hex, s, es[0]).0, es[1..]))
  }

  lemma {:induction false} RunKeepsInv(sha1Hex: Bytes -> Bytes, s: Store, es: seq<Enrolment>)
    requires Inv(s)
    requires forall e | e in es :: Sliceable(e)
    requires FreshRun(sha1Hex, s, es)
    ensures Inv(Run(sha1Hex, s, es))
    decreases es
  {
    if es != [] {
      assert es[0] in es;
      EnrolKeepsInv(sha1Hex, s, es[0]);
      RunKeepsInv(sha1Hex, Enrolled(sha1Hex, s, es[0]).0, es[1..]);
    }
  }

  lemma EveryRunConsistent(sha1Hex: Bytes -> Bytes, es: seq<Enrolment>)
    requires forall e | e in es :: Sliceable(e)
    requires FreshRun(sha1Hex, EMPTY, es)
    ensures Inv(Run(sha1Hex, EMPTY, es))
  {
    RunKeepsInv(sha1Hex, EMPTY, es);
  }

  /** A card as it was made: its ID, number and reference agree with what its masked form shows. */
  predicate WellMade(sha1Hex: Bytes -> Bytes, c: EnrolledCard) {
    var pan, m := c.primaryAccountNumber, c.maskedCard;
    && |pan| >= 6
    && m.srcDigitalCardID == c.cardID
    && m.panBin <= pan && |m.panBin| == 6
    && |m.panLastFour| == 4 && pan[|pan| - 4..] == m.panLastFour
    && c.par == m.paymentAccountReference == sha1Hex(pan)
    && |c.dpan| >= 4 && c.dpan[|c.dpan| - 4..] == m.tokenLastFour
  }

  ghost predicate AllWellMade(sha1Hex: Bytes -> Bytes, s: Store) {
    && (forall cardID | cardID in s.cards :: WellMade(sha1Hex, s.cards[cardID]))
    && (forall id, i: nat, card | Holds(s, id, i, card) :: WellMade(sha1Hex, card))
  }

  lemma EnrolWellMade(sha1Hex: Bytes -> Bytes, s: Store, e: Enrolment)
    requires AllWellMade(sha1Hex, s) && Sliceable(e)
    ensures AllWellMade(sha1Hex, Enrolled(sha1Hex, s, e).0)
  {
    var s' := Enrolled(sha1Hex, s, e).0;
    forall id, i: nat, card | Holds(s', id, i, card)
      ensures WellMade(sha1Hex, card)
    {
      if !Holds(s, id, i, card) {
        assert card == NewCard(sha1Hex, e);
      }
    }
  }

  /** Whatever is enrolled, every stored card shows the right ends of its own number and its own reference. */
  lemma {:induction false} EveryCardWellMade(sha1Hex: Bytes -> Bytes, s: Store, es: seq<Enrolment>)
    requires AllWellMade(sha1Hex, s)
    requires forall e | e in es :: Sliceable(e)
    ensures AllWellMade(sha1Hex, Run(sha1Hex, s, es))
    decreases es
  {
    if es != [] {
      assert es[0] in es;
      EnrolWellMade(sha1Hex, s, es[0]);
      EveryCardWellMade(sha1Hex, Enrolled(sha1Hex, s, es[0]).0, es[1..]);
    }
  }

  /** Keys keep their consumer and lists only grow at the end. */
  ghost predicate Extends(s: Store, s': Store) {
    && (forall k | k in s.consumerIDByKey :: k in s'.consumerIDByKey && s'.consumerIDByKey[k] == s.consumerIDByKey[k])
    && (forall id | id in s.consumers :: id in s'.consumers && s.consumers[id] <= s'.consumers[id])
  }

  lemma {:induction false} RunExtends(sha1Hex: Bytes -> Bytes, s: Store, es: seq<Enrolment>)
    requires forall e | e in es :: Sliceable(e)
    ensures Extends(s, Run(sha1Hex, s, es))
    decreases es
  {
    if es != [] {
      assert es[0] in es;
      var s1 := Enrolled(sha1Hex, s, es[0]).0;
      assert Extends(s, s1);
      RunExtends(sha1Hex, s1, es[1..]);
    }
  }

  lemma {:induction false} FindPanGrown(list: seq<EnrolledCard>, list': seq<EnrolledCard>, pan: Bytes)
    requires list <= list' && FindPan(list, pan).Some?
    ensures FindPan(list', pan) == FindPan(list, pan)
  {
    if list[0].primaryAccountNumber != pan {
      FindPanGrown(list[1..], list'[1..], pan);
    }
  }

  lemma {:induction false} FindPanAppended(list: seq<EnrolledCard>, card: EnrolledCard)
    requires FindPan(list, card.primaryAccountNumber).None?
    ensures FindPan(list + [card], card.primaryAccountNumber) == Some(card)
  {
    if list != [] {
      assert list[0].primaryAccountNumber != card.primaryAccountNumber;
      FindPanAppended(list[1..], card);
      assert (list + [card])[1..] == list[1..] + [card];
    }
  }

  /**
   Enrolling the same number for the same service and identity again, after anything whatever was enrolled in
   between and whatever identifiers are drawn, returns the same card and leaves the store as it is.
   */
  lemma ReenrolReturnsSameCard(sha1Hex: Bytes -> Bytes, s: Store, e: Enrolment, es: seq<Enrolment>, again: Enrolment)
    requires Sliceable(e) && Sliceable(again) && forall x | x in es :: Sliceable(x)
    requires again.serviceID == e.serviceID && again.identityValue == e.identityValue
    requires again.card.primaryAccountNumber == e.card.primaryAccountNumber
    ensures var later := Run(sha1Hex, Enrolled(sha1Hex, s, e).0, es);
      Enrolled(sha1Hex, later, again) == (later, Enrolled(sha1Hex, s, e).1)
  {
    var (first, card) := Enrolled(sha1Hex, s, e);
    var pan := e.card.primaryAccountNumber;
    var id := ConsumerID(s, e);
    if FindPan(CardsOf(s, id), pan).None? {
      FindPanAppended(CardsOf(s, id), card);
    }
    assert first.consumerIDByKey[KeyOf(e)] == id && FindPan(first.consumers[id], pan) == Some(card);
    var later := Run(sha1Hex, first, es);
    RunExtends(sha1Hex, first, es);
    FindPanGrown(first.consumers[id], later.consumers[id], pan);
    assert later.consumerIDByKey[KeyOf(again) := id] == later.consumerIDByKey;
    assert later.consumers[id := later.consumers[id]] == later.consumers;
  }

  // --------------------------------------------------------------------------------------------------
  // Keys of consumers
  // --------------------------------------------------------------------------------------------------

  /** Two services can be confused with each other exactly when one ID continues the other after a colon. */
  lemma KeysCollideIff(serviceID: Bytes, serviceID': Bytes)
    requires serviceID != serviceID'
    ensures (exists i, i' :: ConsumerKey(serviceID, i) == ConsumerKey(serviceID', i'))
       <==> serviceID + [COLON] <= serviceID' || serviceID' + [COLON] <= serviceID
  {
    if serviceID + [COLON] <= serviceID' {
      var i := serviceID'[|serviceID| + 1..] + [COLON];
      assert ConsumerKey(serviceID, i) == ConsumerKey(serviceID', []);
    }
    if serviceID' + [COLON] <= serviceID {
      var i := serviceID[|serviceID'| + 1..] + [COLON];
      assert ConsumerKey(serviceID', i) == ConsumerKey(serviceID, []);
    }
    forall i, i' | ConsumerKey(serviceID, i) == ConsumerKey(serviceID', i')
      ensures serviceID + [COLON] <= serviceID' || serviceID' + [COLON] <= serviceID
    {
      ShorterIsPrefix(serviceID, i, serviceID', i');
      ShorterIsPrefix(serviceID', i', serviceID, i);
    }
  }

  lemma ShorterIsPrefix(a: Bytes, i: Bytes, b: Bytes, i': Bytes)
    requires ConsumerKey(a, i) == ConsumerKey(b, i')
    ensures |a| < |b| ==> a + [COLON] <= b
    ensures |a| == |b| ==> a == b && i == i'
  {
    var key := ConsumerKey(a, i);
    assert key[..|a|] == a && key[..|b|] == b;
    if |a| < |b| {
      assert key[..|a| + 1] == a + [COLON];
      assert key[..|a| + 1] <= key[..|b|];
    } else if |a| == |b| {
      assert key[|a| + 1..] == i && key[|a| + 1..] == i';
    }
  }

  lemma ContinuedHasColon(a: Bytes, b: Bytes)
    requires a + [COLON] <= b
    ensures COLON in b
  {
    assert b[|a|] == COLON;
  }

  /** With colon-free service IDs, services and identities never share a consumer. */
  lemma ColonFreeKeysDistinct(serviceID: Bytes, identity: Bytes, serviceID': Bytes, identity': Bytes)
    requires COLON !in serviceID && COLON !in serviceID'
    requires ConsumerKey(serviceID, identity) == ConsumerKey(serviceID', identity')
    ensures serviceID == serviceID' && identity == identity'
  {
    if serviceID + [COLON] <= serviceID' {
      ContinuedHasColon(serviceID, serviceID');
    }
    if serviceID' + [COLON] <= serviceID {
      ContinuedHasColon(serviceID', serviceID);
    }
    if serviceID != serviceID' {
      KeysCollideIff(serviceID, serviceID');
    }
    ShorterIsPrefix(serviceID, identity, serviceID', identity');
  }

  /** A card that is new is made of the request alone; a known one is the consumer's, with that number. */
  lemma ReturnedCard(sha1Hex: Bytes -> Bytes, s: Store, e: Enrolment)
    requires Sliceable(e)
    ensures var (s', card) := Enrolled(sha1Hex, s, e);
      var pan := e.card.primaryAccountNumber;
      if FindPan(CardsOf(s, ConsumerID(s, e)), pan).None? then
        && card == EnrolledCard(
             cardID := e.cardID,
             primaryAccountNumber := pan,
             par := sha1Hex(pan),
             dpan := Ascii("5105105105105100"),
             maskedCard := MaskedCard(
               srcDigitalCardID := e.cardID,
               panExpirationMonth := e.card.panExpirationMonth,
               panExpirationYear := e.card.panExpirationYear,
               panBin := pan[..6],
               panLastFour := pan[|pan| - 4..],
               tokenLastFour := Ascii("5100"),
               serviceID := e.serviceID,
               paymentAccountReference := sha1Hex(pan),
               dateOfCardCreated := e.date))
        && s'.cards == s.cards[e.cardID := card]
        && CardsOf(s', ConsumerID(s, e)) == CardsOf(s, ConsumerID(s, e)) + [card]
      else
        card in CardsOf(s, ConsumerID(s, e)) && card.primaryAccountNumber == pan && s'.cards == s.cards
  {
    DpanIsText();
  }

  lemma DpanIsText()
    ensures DPAN == Ascii("5105105105105100") && DPAN[12..] == Ascii("5100")
  {
    var text := "5105105105105100";
    assert forall i | 0 <= i < 16 :: DPAN[i] == text[i] as int;
  }

  /** The consumer is found, or made under the drawn ID, by service and identity joined with a colon; the others stay as they are. */
  lemma ConsumerExact(sha1Hex: Bytes -> Bytes, s: Store, e: Enrolment)
    requires Sliceable(e)
    ensures var key := e.serviceID + Ascii(":") + e.identityValue;
      var id := if key in s.consumerIDByKey then s.consumerIDByKey[key] else e.guid;
      var s' := Enrolled(sha1Hex, s, e).0;
      && ConsumerID(s, e) == id
      && s'.consumerIDByKey == s.consumerIDByKey[key := id]
      && s'.consumers.Keys == s.consumers.Keys + {id}
      && forall other | other in s.consumers && other != id :: s'.consumers[other] == s.consumers[other]
  {
    assert Ascii(":") == [COLON];
    assert KeyOf(e) == e.serviceID + Ascii(":") + e.identityValue;
  }
}
