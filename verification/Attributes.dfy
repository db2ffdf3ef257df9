/** Flattening of nested attributes into a sorted list of dotted names (rbs/schemas.py). */
module Attributes {
  import opened Joining
  import opened Sorting

  /** A value of a Python dict; entries keep insertion order, str() has been applied to leaves. */
  datatype Value =
    | Dict(entries: seq<Entry>)
    | List(items: seq<string>)
    | Null
    | Scalar(text: string)

  datatype Entry = Entry(key: string, value: Value)

  datatype Attribute = Attribute(name: string, value: string)

  const DOT: char := '.'

  function Name(a: Attribute): string {
    a.name
  }

  /** ', '.join(...) */
  function JoinComma(parts: seq<string>): string {
    if parts == [] then "" else if |parts| == 1 then parts[0] else parts[0] + ", " + JoinComma(parts[1..])
  }

  /** What one entry appends to the result, before the sorting. */
  function Appended(e: Entry, prefix: string): seq<Attribute>
    decreases e, 0
  {
    match e.value
    case Dict(entries) => ToArraySpec(entries, prefix + e.key + [DOT])
    case List(items) => [Attribute(prefix + e.key, JoinComma(items))]
    case Null => []
    case Scalar(text) => [Attribute(prefix + e.key, text)]
  }

  function AllAppended(entries: seq<Entry>, prefix: string): seq<Attribute>
    decreases entries, 0
  {
    if entries == [] then []
    else Appended(entries[0], prefix) + AllAppended(entries[1..], prefix)
  }

  function ToArraySpec(entries: seq<Entry>, prefix: string): seq<Attribute>
    decreases entries, 1
  {
    Sort(AllAppended(entries, prefix), Name)
  }

  lemma AllAppendedFrom(entries: seq<Entry>, prefix: string, i: nat, before: seq<Attribute>)
    requires i < |entries|
    ensures before + AllAppended(entries[i..], prefix)
         == before + Appended(entries[i], prefix) + AllAppended(entries[i + 1..], prefix)
  {
    assert entries[i..][0] == entries[i] && entries[i..][1..] == entries[i + 1..];
  }

  method ToArray(data: seq<Entry>, prefix: string) returns (result: seq<Attribute>)
    ensures result == ToArraySpec(data, prefix)
    decreases data
  {
    result := [];
    for i := 0 to |data|
      invariant result + AllAppended(data[i..], prefix) == AllAppended(data, prefix)
    {
      var k, v := data[i].key, data[i].value;
      AllAppendedFrom(data, prefix, i, result);
      ghost var before := result;
      match v {
        case Dict(entries) =>
          assert data[i] in data;
          var nested := ToArray(entries, prefix + k + [DOT]);
          result := result + nested;
        case List(items) =>
          result := result + [Attribute(prefix + k, JoinComma(items))];
        case Null =>
        case Scalar(text) =>
          result := result + [Attribute(prefix + k, text)];
      }
      assert result == before + Appended(data[i], prefix);
    }
    assert data[|data|..] == [] && result + [] == result;
    result := Sort(result, Name);
  }

  // --------------------------------------------------------------------------------------------------
  // The leaves with their paths
  // --------------------------------------------------------------------------------------------------

  datatype Leaf = Leaf(path: seq<string>, value: string)

  function Under(key: string, leaves: seq<Leaf>): (r: seq<Leaf>)
    ensures |r| == |leaves|
  {
    seq(|leaves|, i requires 0 <= i < |leaves| => Leaf([key] + leaves[i].path, leaves[i].value))
  }

  function LeavesOf(e: Entry): seq<Leaf>
    decreases e, 0
  {
    match e.value
    case Dict(entries) => Under(e.key, Leaves(entries))
    case List(items) => [Leaf([e.key], JoinComma(items))]
    case Null => []
    case Scalar(text) => [Leaf([e.key], text)]
  }

  /** The non-null leaves, in document order, each with the keys that lead to it. */
  function Leaves(entries: seq<Entry>): seq<Leaf>
    decreases entries, 1
  {
    if entries == [] then [] else LeavesOf(entries[0]) + Leaves(entries[1..])
  }

  function Labelled(leaves: seq<Leaf>, prefix: string): (r: seq<Attribute>)
    ensures |r| == |leaves|
  {
    seq(|leaves|, i requires 0 <= i < |leaves| => Attribute(prefix + Join(leaves[i].path, DOT), leaves[i].value))
  }

  lemma LabelledConcat(a: seq<Leaf>, b: seq<Leaf>, prefix: string)
    ensures Labelled(a + b, prefix) == Labelled(a, prefix) + Labelled(b, prefix)
  {
  }

  lemma {:induction false} PathsNonempty(entries: seq<Entry>)
    ensures forall l | l in Leaves(entries) :: l.path != []
    decreases entries
  {
    if entries != [] {
      PathsNonempty(entries[1..]);
    }
  }

  lemma LabelledUnder(key: string, leaves: seq<Leaf>, prefix: string)
    requires forall l | l in leaves :: l.path != []
    ensures Labelled(Under(key, leaves), prefix) == Labelled(leaves, prefix + key + [DOT])
  {
    forall i | 0 <= i < |leaves|
      ensures prefix + Join([key] + leaves[i].path, DOT) == prefix + key + [DOT] + Join(leaves[i].path, DOT)
    {
      assert leaves[i] in leaves;
      assert ([key] + leaves[i].path)[1..] == leaves[i].path;
    }
  }

  /** What was appended agrees, name by name, with the labelled leaves: nested sorting does not disturb equal names. */
  lemma {:induction false} AppendedAreLeaves(entries: seq<Entry>, prefix: string, name: string)
    ensures WithKey(AllAppended(entries, prefix), Name, name) == WithKey(Labelled(Leaves(entries), prefix), Name, name)
    decreases entries
  {
    if entries != [] {
      var e, rest := entries[0], entries[1..];
      AppendedAreLeaves(rest, prefix, name);
      WithKeyConcat(Appended(e, prefix), AllAppended(rest, prefix), Name, name);
      LabelledConcat(LeavesOf(e), Leaves(rest), prefix);
      WithKeyConcat(Labelled(LeavesOf(e), prefix), Labelled(Leaves(rest), prefix), Name, name);
      if e.value.Dict? {
        var nested, below := e.value.entries, prefix + e.key + [DOT];
        assert e in entries;
        AppendedAreLeaves(nested, below, name);
        SortIsStableSort(AllAppended(nested, below), Name);
        assert WithKey(ToArraySpec(nested, below), Name, name) == WithKey(AllAppended(nested, below), Name, name);
        PathsNonempty(nested);
        LabelledUnder(e.key, Leaves(nested), prefix);
      } else {
        assert Appended(e, prefix) == Labelled(LeavesOf(e), prefix);
      }
    }
  }

  /** The result is the stable sort by name of all non-null leaves under their dotted paths. */
  lemma ToArrayIsSortedLeaves(entries: seq<Entry>, prefix: string)
    ensures ToArraySpec(entries, prefix) == Sort(Labelled(Leaves(entries), prefix), Name)
    ensures Sorted(ToArraySpec(entries, prefix), Name)
    ensures multiset(ToArraySpec(entries, prefix)) == multiset(Labelled(Leaves(entries), prefix))
  {
    forall name
      ensures WithKey(AllAppended(entries, prefix), Name, name) == WithKey(Labelled(Leaves(entries), prefix), Name, name)
    {
      AppendedAreLeaves(entries, prefix, name);
    }
    SortDependsOnKeysOnly(AllAppended(entries, prefix), Labelled(Leaves(entries), prefix), Name);
    SortIsStableSort(Labelled(Leaves(entries), prefix), Name);
  }

  // --------------------------------------------------------------------------------------------------
  // Distinct names
  // --------------------------------------------------------------------------------------------------

  /** Keys are distinct within each dict, as in Python, and contain no dot. */
  predicate PlainKeys(entries: seq<Entry>)
    decreases entries
  {
    && (forall i, j | 0 <= i < j < |entries| :: entries[i].key != entries[j].key)
    && (forall e | e in entries :: DOT !in e.key && (e.value.Dict? ==> PlainKeys(e.value.entries)))
  }

  predicate DistinctPaths(leaves: seq<Leaf>) {
    forall i, j | 0 <= i < j < |leaves| :: leaves[i].path != leaves[j].path
  }

  predicate PlainPath(path: seq<string>) {
    path != [] && forall key | key in path :: DOT !in key
  }

  lemma PathsDistinctOf(e: Entry)
    requires DOT !in e.key
    requires e.value.Dict? ==> DistinctPaths(Leaves(e.value.entries)) && forall l | l in Leaves(e.value.entries) :: PlainPath(l.path)
    ensures DistinctPaths(LeavesOf(e))
    ensures forall l | l in LeavesOf(e) :: PlainPath(l.path) && l.path[0] == e.key
  {
    if e.value.Dict? {
      var leaves := Leaves(e.value.entries);
      var under := Under(e.key, leaves);
      forall i, j | 0 <= i < j < |under|
        ensures under[i].path != under[j].path
      {
        assert under[i].path[1..] == leaves[i].path && under[j].path[1..] == leaves[j].path;
      }
      forall l | l in under
        ensures PlainPath(l.path) && l.path[0] == e.key
      {
        var i :| 0 <= i < |under| && under[i] == l;
        assert leaves[i] in leaves;
      }
    }
  }

  lemma {:induction false} PathsDistinct(entries: seq<Entry>)
    requires PlainKeys(entries)
    ensures DistinctPaths(Leaves(entries))
    ensures forall l | l in Leaves(entries) :: PlainPath(l.path) && exists e | e in entries :: l.path[0] == e.key
    decreases entries
  {
    if entries != [] {
      var e, rest := entries[0], entries[1..];
      assert e in entries;
      if e.value.Dict? {
        PathsDistinct(e.value.entries);
      }
      PathsDistinctOf(e);
      assert PlainKeys(rest) by {
        assert forall i | 0 <= i < |rest| :: rest[i] == entries[i + 1];
      }
      PathsDistinct(rest);
      FirstKeysDiffer(entries);
    }
  }

  /** Leaves of the first entry and of the others differ in their first key. */
  lemma FirstKeysDiffer(entries: seq<Entry>)
    requires entries != [] && PlainKeys(entries)
    requires var rest := Leaves(entries[1..]);
      DistinctPaths(rest) && forall l | l in rest :: PlainPath(l.path) && exists e | e in entries[1..] :: l.path[0] == e.key
    requires var first := LeavesOf(entries[0]);
      DistinctPaths(first) && forall l | l in first :: PlainPath(l.path) && l.path[0] == entries[0].key
    ensures DistinctPaths(Leaves(entries))
    ensures forall l | l in Leaves(entries) :: PlainPath(l.path) && exists e | e in entries :: l.path[0] == e.key
  {
    var first, rest := LeavesOf(entries[0]), Leaves(entries[1..]);
    forall l | l in rest
      ensures l.path[0] != entries[0].key && exists e | e in entries :: l.path[0] == e.key
    {
      var e :| e in entries[1..] && l.path[0] == e.key;
      var i :| 0 <= i < |entries[1..]| && entries[1..][i] == e;
      assert entries[i + 1] == e && entries[0].key != e.key;
    }
    var all := first + rest;
    forall i, j | 0 <= i < j < |all|
      ensures all[i].path != all[j].path
    {
      if i < |first| <= j {
        assert all[i] in first && all[j] in rest;
      }
    }
    assert entries[0] in entries;
  }

  /** A dotted name determines the path it came from. */
  lemma NameDeterminesPath(p: seq<string>, q: seq<string>, prefix: string)
    requires PlainPath(p) && PlainPath(q)
    requires prefix + Join(p, DOT) == prefix + Join(q, DOT)
    ensures p == q
  {
    assert (prefix + Join(p, DOT))[|prefix|..] == Join(p, DOT);
    assert (prefix + Join(q, DOT))[|prefix|..] == Join(q, DOT);
    SplitJoin(p, DOT);
    SplitJoin(q, DOT);
  }

  predicate DistinctNames(s: seq<Attribute>) {
    forall i, j | 0 <= i < j < |s| :: s[i].name != s[j].name
  }

  lemma {:induction false} OncePerName(s: seq<Attribute>, name: string)
    requires DistinctNames(s)
    ensures |WithKey(s, Name, name)| <= 1
  {
    if s != [] {
      var rest := s[1..];
      OncePerName(rest, name);
      forall x | x in rest
        ensures x.name != s[0].name
      {
        var i :| 0 <= i < |rest| && rest[i] == x;
        assert s[i + 1] == x;
      }
      var found := WithKey(rest, Name, name);
      assert found != [] ==> found[0] in found;
    }
  }

  lemma {:induction false} TwicePerName(s: seq<Attribute>, i: nat, j: nat)
    requires i < j < |s| && s[i].name == s[j].name
    ensures |WithKey(s, Name, s[i].name)| >= 2
  {
    if i > 0 {
      TwicePerName(s[1..], i - 1, j - 1);
    } else {
      assert s[1..][j - 1] == s[j];
      assert s[j] in WithKey(s[1..], Name, s[j].name);
    }
  }

  /** If no key contains a dot, the names of the result are pairwise distinct. */
  lemma NamesAreDistinct(entries: seq<Entry>, prefix: string)
    requires PlainKeys(entries)
    ensures DistinctNames(ToArraySpec(entries, prefix))
  {
    var leaves := Leaves(entries);
    var labelled := Labelled(leaves, prefix);
    var result := ToArraySpec(entries, prefix);
    PathsDistinct(entries);
    forall i, j | 0 <= i < j < |labelled|
      ensures labelled[i].name != labelled[j].name
    {
      assert leaves[i] in leaves && leaves[j] in leaves;
      if labelled[i].name == labelled[j].name {
        NameDeterminesPath(leaves[i].path, leaves[j].path, prefix);
      }
    }
    ToArrayIsSortedLeaves(entries, prefix);
    SortIsStableSort(labelled, Name);
    forall i, j | 0 <= i < j < |result|
      ensures result[i].name != result[j].name
    {
      if result[i].name == result[j].name {
        TwicePerName(result, i, j);
        OncePerName(labelled, result[i].name);
      }
    }
  }

  // --------------------------------------------------------------------------------------------------
  // What a leaf is
  // --------------------------------------------------------------------------------------------------

  function CommaParts(items: seq<string>): (r: seq<string>)
    ensures |r| == |items|
  {
    seq(|items|, i requires 0 <= i < |items| => if i == 0 then items[0] else " " + items[i])
  }

  lemma SplitPrepend(x: char, s: string, sep: char)
    requires x != sep
    ensures Split([x] + s, sep) == [[x] + Split(s, sep)[0]] + Split(s, sep)[1..]
  {
    assert ([x] + s)[1..] == s;
  }

  lemma CommaPartsOf(items: seq<string>)
    requires |items| > 1
    ensures CommaParts(items) == [items[0]] + ([[' '] + items[1]] + CommaParts(items[1..])[1..])
  {
  }

  /** A list is written with a comma and a space between its elements: split at commas, they come apart again. */
  lemma {:induction false} JoinCommaExact(items: seq<string>)
    requires items != [] && forall x | x in items :: ',' !in x
    ensures Split(JoinComma(items), ',') == CommaParts(items)
  {
    if |items| == 1 {
      SplitPlain(items[0], ',');
      assert CommaParts(items) == [items[0]];
    } else {
      var rest := JoinComma(items[1..]);
      JoinCommaExact(items[1..]);
      SplitPrepend(' ', rest, ',');
      SplitFirst(items[0], ',', [' '] + rest);
      assert JoinComma(items) == items[0] + [','] + ([' '] + rest);
      CommaPartsOf(items);
    }
  }

  /** Following the path of keys through the nested dicts ends at a value that is no dict and not null. */
  predicate LeafAt(entries: seq<Entry>, path: seq<string>, value: string)
    decreases |path|, 1
  {
    path != [] && exists e | e in entries :: LeafThrough(e, path, value)
  }

  predicate LeafThrough(e: Entry, path: seq<string>, value: string)
    requires path != []
    decreases |path|, 0
  {
    && e.key == path[0]
    && if |path| > 1 then e.value.Dict? && LeafAt(e.value.entries, path[1..], value)
       else (e.value.Scalar? && value == e.value.text) || (e.value.List? && value == JoinComma(e.value.items))
  }

  lemma {:induction false} LeavesAreLeaves(entries: seq<Entry>, path: seq<string>, value: string)
    ensures Leaf(path, value) in Leaves(entries) <==> LeafAt(entries, path, value)
    decreases entries
  {
    PathsNonempty(entries);
    if entries != [] && path != [] {
      var e, rest := entries[0], entries[1..];
      assert entries == [e] + rest && e in entries;
      LeavesAreLeaves(rest, path, value);
      if e.value.Dict? {
        LeavesAreLeaves(e.value.entries, path[1..], value);
        UnderIff(e.key, Leaves(e.value.entries), path, value);
      } else {
        SingleLeaf(e, path, value);
      }
    }
  }

  lemma SingleLeaf(e: Entry, path: seq<string>, value: string)
    requires !e.value.Dict? && path != []
    ensures Leaf(path, value) in LeavesOf(e) <==> LeafThrough(e, path, value)
  {
    assert |path| == 1 ==> path == [path[0]];
  }

  lemma UnderIff(key: string, leaves: seq<Leaf>, path: seq<string>, value: string)
    requires path != []
    ensures Leaf(path, value) in Under(key, leaves) <==> path[0] == key && Leaf(path[1..], value) in leaves
  {
    if path[0] == key && Leaf(path[1..], value) in leaves {
      var i :| 0 <= i < |leaves| && leaves[i] == Leaf(path[1..], value);
      assert [key] + path[1..] == path;
      assert Under(key, leaves)[i] == Leaf(path, value);
    }
    if Leaf(path, value) in Under(key, leaves) {
      var i :| 0 <= i < |leaves| && Under(key, leaves)[i] == Leaf(path, value);
      assert ([key] + leaves[i].path)[1..] == leaves[i].path;
    }
  }

  /** The result lists exactly the leaves, each under the prefix and the dotted keys that lead to it. */
  lemma ToArrayExact(entries: seq<Entry>, prefix: string, a: Attribute)
    ensures a in ToArraySpec(entries, prefix) <==>
      exists path :: LeafAt(entries, path, a.value) && a.name == prefix + Join(path, '.')
  {
    var labelled := Labelled(Leaves(entries), prefix);
    ToArrayIsSortedLeaves(entries, prefix);
    assert a in ToArraySpec(entries, prefix) <==> a in multiset(labelled);
    if a in labelled {
      var i :| 0 <= i < |labelled| && labelled[i] == a;
      var l := Leaves(entries)[i];
      LeavesAreLeaves(entries, l.path, l.value);
      assert LeafAt(entries, l.path, a.value);
    }
    if path :| LeafAt(entries, path, a.value) && a.name == prefix + Join(path, '.') {
      LeavesAreLeaves(entries, path, a.value);
      var i :| 0 <= i < |Leaves(entries)| && Leaves(entries)[i] == Leaf(path, a.value);
      assert labelled[i] == a;
    }
  }
}
