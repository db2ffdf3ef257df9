/** The text a cart's hash is taken of (entities/cart.py). */
module CartHash {
  import opened Wrappers
  import opened Joining
  import opened Sorting

  /** Numbers as str() prints them. */
  datatype Measurements = Measurements(length: string, height: string, width: string, weight: string)

  /** The fields of an item that the hash reads. */
  datatype CartItem = CartItem(productID: string, count: string, measurements: Option<Measurements>)

  datatype Cart = Cart(items: seq<CartItem>, measurements: Option<Measurements>)

  const COLON: char := ':'

  function ProductID(i: CartItem): string {
    i.productID
  }

  function Sizes(m: Option<Measurements>): seq<string> {
    match m
    case Some(x) => [x.width, x.height, x.length, x.weight]
    case None => ["0", "0", "0", "0"]
  }

  function ItemFields(i: CartItem): (r: seq<string>)
    ensures |r| == 5
  {
    Sizes(i.measurements) + [i.count]
  }

  function AllItemFields(items: seq<CartItem>): seq<string> {
    if items == [] then [] else ItemFields(items[0]) + AllItemFields(items[1..])
  }

  function HashFields(c: Cart): seq<string> {
    Sizes(c.measurements) + AllItemFields(Sort(c.items, ProductID))
  }

  function Preimage(c: Cart): string {
    Join(HashFields(c), COLON)
  }

  method Hash(c: Cart, md5: string -> string) returns (h: string)
    ensures h == md5(Preimage(c))
  {
    var items := Sort(c.items, ProductID);
    var hashFields := Sizes(c.measurements);
    for i := 0 to |items|
      invariant hashFields + AllItemFields(items[i..]) == HashFields(c)
    {
      assert items[i..][1..] == items[i + 1..];
      hashFields := hashFields + Sizes(items[i].measurements);
      hashFields := hashFields + [items[i].count];
    }
    assert items[|items|..] == [] && hashFields + [] == hashFields;
    h := md5(Join(hashFields, COLON));
  }

  // --------------------------------------------------------------------------------------------------
  // The text determines the fields
  // --------------------------------------------------------------------------------------------------

  /** Printed numbers contain no colon. */
  predicate PrintedNumbers(fields: seq<string>) {
    forall f | f in fields :: COLON !in f
  }

  lemma PreimageDeterminesFields(c: Cart, c': Cart)
    requires PrintedNumbers(HashFields(c)) && PrintedNumbers(HashFields(c'))
    ensures Preimage(c) == Preimage(c') <==> HashFields(c) == HashFields(c')
  {
    SplitJoin(HashFields(c), COLON);
    SplitJoin(HashFields(c'), COLON);
  }

  // --------------------------------------------------------------------------------------------------
  // The order of the items
  // --------------------------------------------------------------------------------------------------

  /** What the hash sees of an item. */
  datatype Seen = Seen(productID: string, fields: seq<string>)

  function See(i: CartItem): Seen {
    Seen(i.productID, ItemFields(i))
  }

  function SeeAll(items: seq<CartItem>): (r: seq<Seen>)
    ensures |r| == |items|
  {
    seq(|items|, i requires 0 <= i < |items| => See(items[i]))
  }

  function SeenID(s: Seen): string {
    s.productID
  }

  function SeenFields(s: seq<Seen>): seq<string> {
    if s == [] then [] else s[0].fields + SeenFields(s[1..])
  }

  lemma {:induction false} FieldsAreSeen(items: seq<CartItem>)
    ensures AllItemFields(items) == SeenFields(SeeAll(items))
  {
    if items != [] {
      FieldsAreSeen(items[1..]);
      assert SeeAll(items)[1..] == SeeAll(items[1..]);
    }
  }

  lemma SeeSorted(items: seq<CartItem>)
    requires Sorted(items, ProductID)
    ensures Sorted(SeeAll(items), SeenID)
  {
  }

  lemma SeeRemoveAt(items: seq<CartItem>, i: nat)
    requires i < |items|
    ensures multiset(SeeAll(items)) == multiset(SeeAll(items[..i] + items[i + 1..])) + multiset{See(items[i])}
  {
    RemoveAt(SeeAll(items), i);
    assert SeeAll(items[..i] + items[i + 1..]) == SeeAll(items)[..i] + SeeAll(items)[i + 1..];
  }

  lemma SeeFirst(a: seq<CartItem>)
    requires a != []
    ensures multiset(SeeAll(a)) == multiset(SeeAll(a[1..])) + multiset{See(a[0])}
  {
    SeeRemoveAt(a, 0);
    assert a[..0] + a[1..] == a[1..];
  }

  /** A reordering without the other list's first element. */
  lemma SeeRest(a: seq<CartItem>, b: seq<CartItem>) returns (rest: seq<CartItem>)
    requires a != [] && multiset(a) == multiset(b)
    ensures multiset(a[1..]) == multiset(rest)
    ensures multiset(SeeAll(b)) == multiset(SeeAll(rest)) + multiset{See(a[0])}
  {
    var i := FindReordered(a, 0, b);
    rest := b[..i] + b[i + 1..];
    TailReordered(a, b, i);
    SeeRemoveAt(b, i);
  }

  /** Reordering the items reorders what is seen. */
  lemma {:induction false} SeeReordered(a: seq<CartItem>, b: seq<CartItem>)
    requires multiset(a) == multiset(b)
    ensures multiset(SeeAll(a)) == multiset(SeeAll(b))
  {
    SameLength(a, b);
    if a != [] {
      var rest := SeeRest(a, b);
      SeeReordered(a[1..], rest);
      SeeFirst(a);
    }
  }

  predicate OneViewPerID(s: seq<Seen>) {
    forall x, y | x in s && y in s && x.productID == y.productID :: x == y
  }

  lemma FirstViewsEqual(a: seq<Seen>, b: seq<Seen>)
    requires Sorted(a, SeenID) && Sorted(b, SeenID) && multiset(a) == multiset(b)
    requires OneViewPerID(a) && a != [] && b != []
    ensures a[0] == b[0]
  {
    assert a[0] in multiset(b) && b[0] in multiset(a);
    var i :| 0 <= i < |b| && b[i] == a[0];
    var j :| 0 <= j < |a| && a[j] == b[0];
    TextLeqTotal(SeenID(a[0]), SeenID(b[0]));
  }

  lemma TailSorted(a: seq<Seen>)
    requires Sorted(a, SeenID) && a != []
    ensures Sorted(a[1..], SeenID)
  {
  }

  lemma TailOneView(a: seq<Seen>)
    requires OneViewPerID(a) && a != []
    ensures OneViewPerID(a[1..])
  {
    assert forall x | x in a[1..] :: x in a;
  }

  /** Sorted lists of the same views are equal when an ID has one view. */
  lemma {:induction false} SortedViewsEqual(a: seq<Seen>, b: seq<Seen>)
    requires Sorted(a, SeenID) && Sorted(b, SeenID) && multiset(a) == multiset(b)
    requires OneViewPerID(a)
    ensures a == b
  {
    SameLength(a, b);
    if a != [] {
      FirstViewsEqual(a, b);
      TailsReordered(a, b);
      TailSorted(a);
      TailSorted(b);
      TailOneView(a);
      SortedViewsEqual(a[1..], b[1..]);
      assert a == [a[0]] + a[1..] && b == [b[0]] + b[1..];
    }
  }

  predicate SameViewPerID(items: seq<CartItem>) {
    forall x, y | x in items && y in items && x.productID == y.productID :: ItemFields(x) == ItemFields(y)
  }

  lemma SeenOnce(items: seq<CartItem>, sorted: seq<CartItem>)
    requires SameViewPerID(items) && multiset(sorted) == multiset(items)
    ensures OneViewPerID(SeeAll(sorted))
  {
    forall i, j | 0 <= i < |sorted| && 0 <= j < |sorted| && sorted[i].productID == sorted[j].productID
      ensures See(sorted[i]) == See(sorted[j])
    {
      assert sorted[i] in multiset(items) && sorted[j] in multiset(items);
    }
  }

  lemma ReorderingKeepsFields(items: seq<CartItem>, items': seq<CartItem>)
    requires SameViewPerID(items) && multiset(items) == multiset(items')
    ensures AllItemFields(Sort(items, ProductID)) == AllItemFields(Sort(items', ProductID))
  {
    var a, b := Sort(items, ProductID), Sort(items', ProductID);
    SortIsStableSort(items, ProductID);
    SortIsStableSort(items', ProductID);
    SeeReordered(a, b);
    SeeSorted(a);
    SeeSorted(b);
    SeenOnce(items, a);
    SortedViewsEqual(SeeAll(a), SeeAll(b));
    FieldsAreSeen(a);
    FieldsAreSeen(b);
  }

  lemma {:induction false} AllItemFieldsConcat(a: seq<CartItem>, b: seq<CartItem>)
    ensures AllItemFields(a + b) == AllItemFields(a) + AllItemFields(b)
  {
    if a == [] {
      assert a + b == b;
    } else {
      assert (a + b)[1..] == a[1..] + b;
      AllItemFieldsConcat(a[1..], b);
    }
  }

  /** Items from n on are not smaller than x, and those before it are. */
  predicate Splits(x: CartItem, s: seq<CartItem>, n: nat) {
    && n <= |s|
    && (forall i | 0 <= i < n :: !TextLeq(x.productID, s[i].productID))
    && (n < |s| ==> TextLeq(x.productID, s[n].productID))
  }

  lemma {:induction false} SomeSplit(x: CartItem, s: seq<CartItem>) returns (n: nat)
    ensures Splits(x, s, n)
  {
    n := 0;
    while n < |s| && !TextLeq(x.productID, s[n].productID)
      invariant n <= |s| && forall i | 0 <= i < n :: !TextLeq(x.productID, s[i].productID)
    {
      n := n + 1;
    }
  }

  lemma {:induction false} InsertAt(x: CartItem, s: seq<CartItem>, n: nat)
    requires Splits(x, s, n)
    ensures Insert(x, s, ProductID) == s[..n] + ([x] + s[n..])
  {
    if n > 0 {
      var rest := s[1..];
      assert !TextLeq(x.productID, s[0].productID);
      InsertAt(x, rest, n - 1);
      assert rest[n - 1..] == s[n..];
      assert s[..n] == [s[0]] + rest[..n - 1];
    } else {
      assert s[..0] == [] && s[0..] == s;
    }
  }

  /** Two items with one ID, put first, come out of the sort next to each other, in the order they were in. */
  lemma FirstTwoStayInOrder(x: CartItem, y: CartItem, rest: seq<CartItem>, n: nat)
    requires x.productID == y.productID
    requires Splits(y, Sort(rest, ProductID), n)
    ensures var s := Sort(rest, ProductID);
      Sort([x, y] + rest, ProductID) == s[..n] + ([x] + ([y] + s[n..]))
  {
    var s := Sort(rest, ProductID);
    var t := s[..n] + ([y] + s[n..]);
    assert ([x, y] + rest)[1..] == [y] + rest && ([y] + rest)[1..] == rest;
    InsertAt(y, s, n);
    assert Sort([y] + rest, ProductID) == t;
    TextLeqTotal(x.productID, y.productID);
    assert t[n] == y;
    InsertAt(x, t, n);
    assert t[..n] == s[..n] && t[n..] == [y] + s[n..];
  }

  lemma FieldsOfTwo(before: seq<CartItem>, x: CartItem, y: CartItem, after: seq<CartItem>)
    ensures AllItemFields(before + ([x] + ([y] + after)))
         == AllItemFields(before) + (ItemFields(x) + (ItemFields(y) + AllItemFields(after)))
  {
    AllItemFieldsConcat(before, [x] + ([y] + after));
    assert ([x] + ([y] + after))[1..] == [y] + after && ([y] + after)[1..] == after;
  }

  lemma FifthsDiffer(before: seq<string>, x: seq<string>, y: seq<string>, after: seq<string>)
    requires |x| == |y| && x != y
    ensures before + (x + (y + after)) != before + (y + (x + after))
  {
    var k := |before|;
    assert (before + (x + (y + after)))[k..k + |x|] == x;
    assert (before + (y + (x + after)))[k..k + |x|] == y;
  }

  lemma SwappedFirstTwoDiffer(x: CartItem, y: CartItem, rest: seq<CartItem>)
    requires x.productID == y.productID && ItemFields(x) != ItemFields(y)
    ensures AllItemFields(Sort([x, y] + rest, ProductID)) != AllItemFields(Sort([y, x] + rest, ProductID))
  {
    var s := Sort(rest, ProductID);
    var n := SomeSplit(x, s);
    FirstTwoStayInOrder(x, y, rest, n);
    FirstTwoStayInOrder(y, x, rest, n);
    FieldsOfTwo(s[..n], x, y, s[n..]);
    FieldsOfTwo(s[..n], y, x, s[n..]);
    FifthsDiffer(AllItemFields(s[..n]), ItemFields(x), ItemFields(y), AllItemFields(s[n..]));
  }

  /**
   The hashed fields are the same for every reordering of the items exactly when items that share a product ID
   look alike to the hash; in particular when the product IDs are pairwise distinct.
   */
  lemma OrderIrrelevantIff(c: Cart)
    ensures (forall items | multiset(items) == multiset(c.items) :: HashFields(c.(items := items)) == HashFields(c))
       <==> SameViewPerID(c.items)
  {
    if SameViewPerID(c.items) {
      forall items | multiset(items) == multiset(c.items)
        ensures HashFields(c.(items := items)) == HashFields(c)
      {
        ReorderingKeepsFields(c.items, items);
      }
    } else {
      var items, items' := TellingOrders(c.items);
      var n := |Sizes(c.measurements)|;
      assert HashFields(c.(items := items))[n..] == AllItemFields(Sort(items, ProductID));
      assert HashFields(c.(items := items'))[n..] == AllItemFields(Sort(items', ProductID));
    }
  }

  /** Any two items can be brought to the front, in either order. */
  lemma BringToFront(all: seq<CartItem>, i: nat, j: nat) returns (rest: seq<CartItem>)
    requires i < |all| && j < |all| && i != j
    ensures multiset([all[i], all[j]] + rest) == multiset(all) == multiset([all[j], all[i]] + rest)
  {
    var without := all[..i] + all[i + 1..];
    var j' := if j < i then j else j - 1;
    assert without[j'] == all[j];
    rest := without[..j'] + without[j' + 1..];
    RemoveAt(all, i);
    RemoveAt(without, j');
  }

  /** Two reorderings that the hash tells apart. */
  lemma TellingOrders(all: seq<CartItem>) returns (items: seq<CartItem>, items': seq<CartItem>)
    requires !SameViewPerID(all)
    ensures multiset(items) == multiset(items') == multiset(all)
    ensures AllItemFields(Sort(items, ProductID)) != AllItemFields(Sort(items', ProductID))
  {
    var x, y :| x in all && y in all && x.productID == y.productID && ItemFields(x) != ItemFields(y);
    var i :| 0 <= i < |all| && all[i] == x;
    var j :| 0 <= j < |all| && all[j] == y;
    var rest := BringToFront(all, i, j);
    items, items' := [x, y] + rest, [y, x] + rest;
    SwappedFirstTwoDiffer(x, y, rest);
  }

  /** So with distinct product IDs the hash does not depend on the order of the items. */
  lemma OrderIrrelevant(c: Cart, items: seq<CartItem>)
    requires forall i, j | 0 <= i < j < |c.items| :: c.items[i].productID != c.items[j].productID
    requires multiset(items) == multiset(c.items)
    ensures Preimage(c.(items := items)) == Preimage(c)
  {
    OrderIrrelevantIff(c);
  }

  // --------------------------------------------------------------------------------------------------
  // Where each size and count stands
  // --------------------------------------------------------------------------------------------------

  /** Width, height, length and weight, or four zeros. */
  predicate Shows(four: seq<string>, m: Option<Measurements>) {
    four == match m
      case Some(x) => [x.width, x.height, x.length, x.weight]
      case None => ["0", "0", "0", "0"]
  }

  lemma ItemFieldsExact(item: CartItem)
    ensures Shows(ItemFields(item)[..4], item.measurements) && ItemFields(item)[4] == item.count
  {
    assert ItemFields(item)[..4] == Sizes(item.measurements);
  }

  lemma {:induction false} ItemFieldsLength(items: seq<CartItem>)
    ensures |AllItemFields(items)| == 5 * |items|
  {
    if items != [] {
      ItemFieldsLength(items[1..]);
    }
  }

  lemma SliceOfRest(first: seq<string>, rest: seq<string>, at: nat)
    requires |first| == 5 && at + 5 <= |rest|
    ensures (first + rest)[at + 5..at + 10] == rest[at..at + 5]
  {
  }

  lemma {:induction false} ItemFieldsAt(items: seq<CartItem>, i: nat)
    requires i < |items|
    ensures |AllItemFields(items)| == 5 * |items|
    ensures AllItemFields(items)[5 * i..5 * i + 5] == ItemFields(items[i])
  {
    ItemFieldsLength(items);
    ItemFieldsLength(items[1..]);
    var first, rest := ItemFields(items[0]), AllItemFields(items[1..]);
    if i > 0 {
      ItemFieldsAt(items[1..], i - 1);
      SliceOfRest(first, rest, 5 * (i - 1));
    } else {
      assert (first + rest)[0..5] == first;
    }
  }

  /** First the cart's sizes, then five fields per item. */
  lemma FieldsOfCart(c: Cart)
    ensures |HashFields(c)| == 4 + 5 * |c.items| && |Sort(c.items, ProductID)| == |c.items|
    ensures Shows(HashFields(c)[..4], c.measurements)
  {
    SortIsStableSort(c.items, ProductID);
    SameLength(Sort(c.items, ProductID), c.items);
    ItemFieldsLength(Sort(c.items, ProductID));
    assert HashFields(c)[..4] == Sizes(c.measurements);
  }

  /** Those of the i-th item, in the order of product IDs, are its sizes and its count. */
  lemma FieldsOfItem(c: Cart, i: nat)
    requires i < |c.items|
    ensures |HashFields(c)| == 4 + 5 * |c.items| && |Sort(c.items, ProductID)| == |c.items|
    ensures var item, five := Sort(c.items, ProductID)[i], HashFields(c)[4 + 5 * i..9 + 5 * i];
      Shows(five[..4], item.measurements) && five[4] == item.count
  {
    FieldsOfCart(c);
    var items := Sort(c.items, ProductID);
    ItemFieldsAt(items, i);
    ItemFieldsExact(items[i]);
    var at := 5 * i;
    assert HashFields(c)[4..] == AllItemFields(items);
    assert HashFields(c)[4 + at..9 + at] == AllItemFields(items)[at..at + 5];
  }

  /** Carts with the same hash text have as many items, and these, in the order of product IDs, the same sizes and counts. */
  lemma EqualHashText(c: Cart, c': Cart, i: nat) returns (ofCart: seq<string>, ofItem: seq<string>)
    requires PrintedNumbers(HashFields(c)) && PrintedNumbers(HashFields(c'))
    requires Join(HashFields(c), ':') == Join(HashFields(c'), ':')
    ensures |c.items| == |c'.items| == |Sort(c.items, ProductID)| == |Sort(c'.items, ProductID)|
    ensures Shows(ofCart, c.measurements) && Shows(ofCart, c'.measurements)
    ensures i < |c.items| ==>
      var item, item' := Sort(c.items, ProductID)[i], Sort(c'.items, ProductID)[i];
      item.count == item'.count && Shows(ofItem, item.measurements) && Shows(ofItem, item'.measurements)
  {
    PreimageDeterminesFields(c, c');
    FieldsOfCart(c);
    FieldsOfCart(c');
    ofCart, ofItem := HashFields(c)[..4], [];
    if i < |c.items| {
      FieldsOfItem(c, i);
      FieldsOfItem(c', i);
      ofItem := HashFields(c)[4 + 5 * i..9 + 5 * i][..4];
    }
  }
}
