/** The canonical form of a request body that goes into the replay hash: member order is
    forgotten when it cannot matter, and kept when it might. The case folding is a parameter;
    everything here holds for any folding. */
module CanonicalJson {
  import opened Common
  import opened Json
  import Order

  /** A decoded document: objects have become maps. */
  datatype Value = Atomic(scalar: Scalar) | List(items: seq<Value>) | Dict(entries: map<string, Value>)

  function ValueOf(t: Tree): Value
    decreases t, 1
  {
    match t
    case Leaf(scalar) => Atomic(scalar)
    case Arr(items) => List(ItemValues(items))
    case Obj(members) => Dict(MemberValues(members))
  }

  function ItemValues(items: seq<Tree>): (values: seq<Value>)
    ensures |values| == |items|
    decreases items, 0
  {
    if items == [] then [] else ItemValues(items[..|items| - 1]) + [ValueOf(items[|items| - 1])]
  }

  /** Filled member by member: a repeated name keeps its last value. */
  function MemberValues(members: seq<Member>): map<string, Value>
    decreases members, 0
  {
    if members == [] then map[]
    else
      var last := members[|members| - 1];
      MemberValues(members[..|members| - 1])[last.key := ValueOf(last.value)]
  }

  /** Two members of an object whose names fold to the same text. */
  predicate Repeats(fold: string -> string, members: seq<Member>) {
    exists i, j :: 0 <= i < j < |members| && fold(members[i].key) == fold(members[j].key)
  }

  /** Somewhere in the document an object repeats a folded name. */
  predicate Sensitive(fold: string -> string, t: Tree) {
    match t
    case Leaf(_) => false
    case Arr(items) => exists i :: 0 <= i < |items| && Sensitive(fold, items[i])
    case Obj(members) => Repeats(fold, members) || exists i :: 0 <= i < |members| && Sensitive(fold, members[i].value)
  }

  /** json.Marshal: the names of a map in sorted order. */
  function TreeOf(v: Value): Tree {
    match v
    case Atomic(scalar) => Leaf(scalar)
    case List(items) => Arr(seq(|items|, i requires 0 <= i < |items| => TreeOf(items[i])))
    case Dict(entries) =>
      Order.StringOrderIsTotal();
      var keys := Order.Sorted(entries.Keys, Order.StringLess);
      Order.SortedIsAscending(entries.Keys, Order.StringLess);
      assert forall i :: 0 <= i < |keys| ==> keys[i] in entries.Keys;
      Obj(seq(|keys|, i requires 0 <= i < |keys| => Member(keys[i], TreeOf(entries[keys[i]]))))
  }

  /** The text that is hashed: the compacted body if order may matter, else the re-encoded value. */
  function Canonical(fold: string -> string, t: Tree): seq<Token> {
    if Sensitive(fold, t) then Tokens(t) else Tokens(TreeOf(ValueOf(t)))
  }

  // ---------------------------------------------------------------- when order may matter

  /** The part of a document at the end of a path of positions. */
  function Reach(t: Tree, path: seq<nat>): Option<Tree> {
    if path == [] then Some(t)
    else match t
         case Leaf(_) => None
         case Arr(items) => if path[0] < |items| then Reach(items[path[0]], path[1..]) else None
         case Obj(members) => if path[0] < |members| then Reach(members[path[0]].value, path[1..]) else None
  }

  /** At the end of the path stands an object with two names that fold to the same text. */
  ghost predicate RepeatsAt(fold: string -> string, t: Tree, path: seq<nat>) {
    match Reach(t, path)
    case Some(Obj(members)) => exists i, j :: 0 <= i < j < |members| && fold(members[i].key) == fold(members[j].key)
    case _ => false
  }

  /** Order may matter exactly when some object of the document, however deep, repeats a folded
      name. */
  lemma SensitiveIffRepeatsSomewhere(fold: string -> string, t: Tree)
    ensures Sensitive(fold, t) <==> exists path :: RepeatsAt(fold, t, path)
  {
    if Sensitive(fold, t) {
      var path := RepeatedPath(fold, t);
      assert RepeatsAt(fold, t, path);
    }
    forall path | RepeatsAt(fold, t, path)
      ensures Sensitive(fold, t)
    {
      RepeatedInside(fold, t, path);
    }
  }

  lemma {:induction false} RepeatedPath(fold: string -> string, t: Tree) returns (path: seq<nat>)
    requires Sensitive(fold, t)
    ensures RepeatsAt(fold, t, path)
  {
    if t.Obj? && Repeats(fold, t.members) {
      path := [];
    } else if t.Arr? {
      var i :| 0 <= i < |t.items| && Sensitive(fold, t.items[i]);
      var rest := RepeatedPath(fold, t.items[i]);
      path := [i] + rest;
      assert path[1..] == rest;
    } else {
      var i :| 0 <= i < |t.members| && Sensitive(fold, t.members[i].value);
      var rest := RepeatedPath(fold, t.members[i].value);
      path := [i] + rest;
      assert path[1..] == rest;
    }
  }

  lemma {:induction false} RepeatedInside(fold: string -> string, t: Tree, path: seq<nat>)
    requires RepeatsAt(fold, t, path)
    ensures Sensitive(fold, t)
  {
    if path != [] {
      var part := if t.Arr? then t.items[path[0]] else t.members[path[0]].value;
      RepeatedInside(fold, part, path[1..]);
    }
  }

  // ---------------------------------------------------------------- values of lists and objects

  lemma {:induction false} ItemValuesAt(items: seq<Tree>, i: nat)
    requires i < |items|
    ensures ItemValues(items)[i] == ValueOf(items[i])
  {
    if i < |items| - 1 {
      ItemValuesAt(items[..|items| - 1], i);
    }
  }

  ghost predicate Distinct(members: seq<Member>) {
    forall i, j :: 0 <= i < j < |members| ==> members[i].key != members[j].key
  }

  lemma {:induction false} MemberValuesKeys(members: seq<Member>, key: string)
    ensures key in MemberValues(members) <==> exists i :: 0 <= i < |members| && members[i].key == key
  {
    if members != [] {
      MemberValuesKeys(members[..|members| - 1], key);
    }
  }

  lemma {:induction false} MemberValuesAt(members: seq<Member>, i: nat)
    requires Distinct(members) && i < |members|
    ensures members[i].key in MemberValues(members)
    ensures MemberValues(members)[members[i].key] == ValueOf(members[i].value)
  {
    if i < |members| - 1 {
      MemberValuesAt(members[..|members| - 1], i);
    }
  }

  /** Of members with the same name the last one wins. */
  lemma {:induction false} LastMemberWins(members: seq<Member>, i: nat)
    requires i < |members| && forall j :: i < j < |members| ==> members[j].key != members[i].key
    ensures members[i].key in MemberValues(members)
    ensures MemberValues(members)[members[i].key] == ValueOf(members[i].value)
  {
    if i < |members| - 1 {
      LastMemberWins(members[..|members| - 1], i);
    }
  }

  lemma {:induction false} MemberValuesCount(members: seq<Member>)
    requires Distinct(members)
    ensures |MemberValues(members)| == |members|
  {
    if members != [] {
      MemberValuesCount(members[..|members| - 1]);
      MemberValuesKeys(members[..|members| - 1], members[|members| - 1].key);
    }
  }

  // ---------------------------------------------------------------- re-encoding

  lemma ReencodedMembers(entries: map<string, Value>)
    ensures var members := TreeOf(Dict(entries)).members;
            && Distinct(members)
            && (forall i :: 0 <= i < |members| ==>
                  members[i].key in entries && members[i].value == TreeOf(entries[members[i].key]))
            && (forall key :: key in entries ==> Named(key, members))
  {
    Order.StringOrderIsTotal();
    Order.SortedIsAscending(entries.Keys, Order.StringLess);
    var keys := Order.Sorted(entries.Keys, Order.StringLess);
    var members := TreeOf(Dict(entries)).members;
    assert forall i :: 0 <= i < |members| ==> members[i].key == keys[i];
    forall key | key in entries
      ensures Named(key, members)
    {
      assert key in keys;
      var i :| 0 <= i < |keys| && keys[i] == key;
      assert members[i].key == key;
    }
    forall i, j | 0 <= i < j < |members|
      ensures members[i].key != members[j].key
    {
      assert Order.StringLess(keys[i], keys[j]);
    }
  }

  /** Re-encoding a value and decoding it again gives the value back: nothing is merged. */
  lemma {:induction false} ReencodingRoundTrip(v: Value)
    ensures ValueOf(TreeOf(v)) == v
  {
    match v
    case Atomic(_) =>
    case List(items) =>
      var trees := TreeOf(v).items;
      forall i | 0 <= i < |items|
        ensures ItemValues(trees)[i] == items[i]
      {
        ItemValuesAt(trees, i);
        ReencodingRoundTrip(items[i]);
      }
      assert ItemValues(trees) == items;
    case Dict(entries) =>
      forall key | key in entries
        ensures ValueOf(TreeOf(entries[key])) == entries[key]
      {
        ReencodingRoundTrip(entries[key]);
      }
      ReencodedEntries(entries);
  }

  /** An object round-trips if each of its values does. */
  lemma ReencodedEntries(entries: map<string, Value>)
    requires forall key :: key in entries ==> ValueOf(TreeOf(entries[key])) == entries[key]
    ensures MemberValues(TreeOf(Dict(entries)).members) == entries
  {
    ReencodedMembers(entries);
    MembersSpellOut(TreeOf(Dict(entries)).members, entries);
  }

  /** Distinct members with the names and the values of a map have that map as their value. */
  lemma MembersSpellOut(members: seq<Member>, entries: map<string, Value>)
    requires Distinct(members) && forall key :: key in entries ==> Named(key, members)
    requires forall i :: 0 <= i < |members| ==> members[i].key in entries && ValueOf(members[i].value) == entries[members[i].key]
    ensures MemberValues(members) == entries
  {
    forall key
      ensures key in MemberValues(members) <==> key in entries
      ensures key in entries ==> MemberValues(members)[key] == entries[key]
    {
      MemberValuesKeys(members, key);
      if key in entries {
        var i :| 0 <= i < |members| && members[i].key == key;
        MemberValuesAt(members, i);
      }
    }
  }

  /** Re-encoding an unambiguous document does not make it ambiguous. */
  lemma {:induction false} ReencodingStaysInsensitive(fold: string -> string, t: Tree)
    requires !Sensitive(fold, t)
    ensures !Sensitive(fold, TreeOf(ValueOf(t)))
  {
    match t
    case Leaf(_) =>
    case Arr(items) =>
      forall i | 0 <= i < |items|
        ensures !Sensitive(fold, TreeOf(ValueOf(t)).items[i])
      {
        ItemValuesAt(items, i);
        ReencodingStaysInsensitive(fold, items[i]);
      }
    case Obj(members) =>
      forall k | 0 <= k < |members|
        ensures !Sensitive(fold, TreeOf(ValueOf(members[k].value)))
      {
        ReencodingStaysInsensitive(fold, members[k].value);
      }
      ObjectStaysInsensitive(fold, members);
  }

  lemma ObjectStaysInsensitive(fold: string -> string, members: seq<Member>)
    requires !Repeats(fold, members)
    requires forall k :: 0 <= k < |members| ==> !Sensitive(fold, TreeOf(ValueOf(members[k].value)))
    ensures !Sensitive(fold, TreeOf(Dict(MemberValues(members))))
  {
    ReencodedMembers(MemberValues(members));
    var again := TreeOf(Dict(MemberValues(members))).members;
    forall i | 0 <= i < |again|
      ensures Named(again[i].key, members)
      ensures !Sensitive(fold, again[i].value)
    {
      MemberValuesKeys(members, again[i].key);
      var k :| 0 <= k < |members| && members[k].key == again[i].key;
      MemberValuesAt(members, k);
    }
    NoNewRepeats(fold, members, again);
  }

  /** Distinct members whose names all come from an object without repeats do not repeat either. */
  lemma NoNewRepeats(fold: string -> string, members: seq<Member>, again: seq<Member>)
    requires !Repeats(fold, members) && Distinct(again) && forall i :: 0 <= i < |again| ==> Named(again[i].key, members)
    ensures !Repeats(fold, again)
  {
    forall i, j | 0 <= i < j < |again|
      ensures fold(again[i].key) != fold(again[j].key)
    {
      assert Named(again[i].key, members) && Named(again[j].key, members);
      var k :| 0 <= k < |members| && members[k].key == again[i].key;
      var l :| 0 <= l < |members| && members[l].key == again[j].key;
      assert k != l;
    }
  }

  // ---------------------------------------------------------------- member order

  /** The same document up to the order of members inside objects. */
  predicate Reordered(a: Tree, b: Tree) {
    match a
    case Leaf(_) => a == b
    case Arr(items) =>
      b.Arr? && |items| == |b.items| && forall i :: 0 <= i < |items| ==> Reordered(items[i], b.items[i])
    case Obj(members) =>
      && b.Obj? && |members| == |b.members|
      && (forall i :: 0 <= i < |members| ==> HasTwin(members[i], b.members))
      && (forall j :: 0 <= j < |b.members| ==> Named(b.members[j].key, members))
  }

  predicate HasTwin(m: Member, members: seq<Member>) {
    exists j :: 0 <= j < |members| && members[j].key == m.key && Reordered(m.value, members[j].value)
  }

  predicate Named(key: string, members: seq<Member>) {
    exists i :: 0 <= i < |members| && members[i].key == key
  }

  /** For unambiguous documents, having the same value is differing in member order only. */
  lemma {:induction false} SameValueIffReordered(fold: string -> string, a: Tree, b: Tree)
    requires !Sensitive(fold, a) && !Sensitive(fold, b)
    ensures ValueOf(a) == ValueOf(b) <==> Reordered(a, b)
    decreases a, 1
  {
    match a
    case Leaf(_) =>
    case Arr(items) =>
      if b.Arr? && |items| == |b.items| {
        forall i | 0 <= i < |items|
          ensures ItemValues(items)[i] == ItemValues(b.items)[i] <==> Reordered(items[i], b.items[i])
        {
          ItemValuesAt(items, i);
          ItemValuesAt(b.items, i);
          SameValueIffReordered(fold, items[i], b.items[i]);
        }
      }
    case Obj(members) =>
      if b.Obj? {
        SameMembersIffReordered(fold, members, b.members);
      }
  }

  /** Members of the same name have the same value exactly when they are reorderings. */
  ghost predicate ValuesAgree(a: seq<Member>, b: seq<Member>) {
    forall i, j :: 0 <= i < |a| && 0 <= j < |b| && a[i].key == b[j].key ==>
      (ValueOf(a[i].value) == ValueOf(b[j].value) <==> Reordered(a[i].value, b[j].value))
  }

  lemma SameMemberHasTwin(a: seq<Member>, b: seq<Member>, i: nat)
    requires Distinct(a) && Distinct(b) && ValuesAgree(a, b) && MemberValues(a) == MemberValues(b) && i < |a|
    ensures HasTwin(a[i], b)
  {
    MemberValuesAt(a, i);
    MemberValuesKeys(b, a[i].key);
    var j :| 0 <= j < |b| && b[j].key == a[i].key;
    MemberValuesAt(b, j);
  }

  lemma SameMembersAreReordered(a: seq<Member>, b: seq<Member>)
    requires Distinct(a) && Distinct(b) && ValuesAgree(a, b) && MemberValues(a) == MemberValues(b)
    ensures Reordered(Obj(a), Obj(b))
  {
    MemberValuesCount(a);
    MemberValuesCount(b);
    forall i | 0 <= i < |a|
      ensures HasTwin(a[i], b)
    {
      SameMemberHasTwin(a, b, i);
    }
    forall j | 0 <= j < |b|
      ensures Named(b[j].key, a)
    {
      MemberValuesAt(b, j);
      MemberValuesKeys(a, b[j].key);
    }
  }

  lemma TwinsHaveSameValue(a: seq<Member>, b: seq<Member>, key: string)
    requires Distinct(a) && Distinct(b) && ValuesAgree(a, b) && Reordered(Obj(a), Obj(b))
    ensures key in MemberValues(a) <==> key in MemberValues(b)
    ensures key in MemberValues(a) ==> MemberValues(a)[key] == MemberValues(b)[key]
  {
    MemberValuesKeys(a, key);
    MemberValuesKeys(b, key);
    if key in MemberValues(a) {
      var i :| 0 <= i < |a| && a[i].key == key;
      assert HasTwin(a[i], b);
      var j :| 0 <= j < |b| && b[j].key == key && Reordered(a[i].value, b[j].value);
      MemberValuesAt(a, i);
      MemberValuesAt(b, j);
    }
  }

  lemma ReorderedMembersAreSame(a: seq<Member>, b: seq<Member>)
    requires Distinct(a) && Distinct(b) && ValuesAgree(a, b) && Reordered(Obj(a), Obj(b))
    ensures MemberValues(a) == MemberValues(b)
  {
    forall key
      ensures key in MemberValues(a) <==> key in MemberValues(b)
      ensures key in MemberValues(a) ==> MemberValues(a)[key] == MemberValues(b)[key]
    {
      TwinsHaveSameValue(a, b, key);
    }
  }

  lemma {:induction false} SameMembersIffReordered(fold: string -> string, a: seq<Member>, b: seq<Member>)
    requires !Sensitive(fold, Obj(a)) && !Sensitive(fold, Obj(b))
    ensures MemberValues(a) == MemberValues(b) <==> Reordered(Obj(a), Obj(b))
    decreases Obj(a), 0
  {
    forall i, j | 0 <= i < |a| && 0 <= j < |b|
      ensures ValueOf(a[i].value) == ValueOf(b[j].value) <==> Reordered(a[i].value, b[j].value)
    {
      SameValueIffReordered(fold, a[i].value, b[j].value);
    }
    assert ValuesAgree(a, b) && Distinct(a) && Distinct(b);
    if MemberValues(a) == MemberValues(b) {
      SameMembersAreReordered(a, b);
    }
    if Reordered(Obj(a), Obj(b)) {
      ReorderedMembersAreSame(a, b);
    }
  }

  // ---------------------------------------------------------------- the theorem

  /** Two bodies have the same canonical form exactly when they are unambiguous and differ in
      member order only, or are ambiguous and identical. */
  lemma CanonicalEqualIff(fold: string -> string, a: Tree, b: Tree)
    ensures Canonical(fold, a) == Canonical(fold, b) <==>
            if Sensitive(fold, a) then a == b else !Sensitive(fold, b) && Reordered(a, b)
  {
    if !Sensitive(fold, a) {
      ReencodingStaysInsensitive(fold, a);
      ReencodingRoundTrip(ValueOf(a));
    }
    if !Sensitive(fold, b) {
      ReencodingStaysInsensitive(fold, b);
      ReencodingRoundTrip(ValueOf(b));
    }
    if Canonical(fold, a) == Canonical(fold, b) {
      TokensAreInjective(if Sensitive(fold, a) then a else TreeOf(ValueOf(a)),
                         if Sensitive(fold, b) then b else TreeOf(ValueOf(b)));
    }
    if !Sensitive(fold, a) && !Sensitive(fold, b) {
      SameValueIffReordered(fold, a, b);
    }
  }

  // ---------------------------------------------------------------- decoding into requests

  /** What a handler decodes a body into: struct fields are matched without regard to case and
      the last match wins; a document column keeps the whole value. */
  datatype Shape = ScalarShape | ListShape(element: Shape) | StructShape(fields: seq<Field>) | DocumentShape

  datatype Field = Field(name: string, shape: Shape)

  datatype Decoded =
    | Missing | Mismatch | Text(scalar: Scalar) | Items(items: seq<Decoded>) | Record(fields: seq<Decoded>) | Document(value: Value)

  function LastMatch(matching: string -> string, members: seq<Member>, name: string): Option<Tree> {
    if members == [] then None
    else
      var last := members[|members| - 1];
      if matching(last.key) == matching(name) then Some(last.value) else LastMatch(matching, members[..|members| - 1], name)
  }

  function Decode(matching: string -> string, shape: Shape, t: Tree): Decoded
    decreases shape
  {
    match shape
    case ScalarShape => if t.Leaf? then Text(t.scalar) else Mismatch
    case ListShape(element) =>
      if t.Arr? then Items(seq(|t.items|, i requires 0 <= i < |t.items| => Decode(matching, element, t.items[i]))) else Mismatch
    case StructShape(fields) =>
      if t.Obj? then
        Record(seq(|fields|, i requires 0 <= i < |fields| =>
          var found := LastMatch(matching, t.members, fields[i].name);
          if found.Some? then Decode(matching, fields[i].shape, found.value) else Missing))
      else Mismatch
    case DocumentShape => Document(ValueOf(t))
  }

  lemma {:induction false} LastMatchFinds(matching: string -> string, members: seq<Member>, name: string)
    ensures var found := LastMatch(matching, members, name);
            && (found.None? ==> forall i :: 0 <= i < |members| ==> matching(members[i].key) != matching(name))
            && (found.Some? ==> exists i :: 0 <= i < |members| && members[i].value == found.value && matching(members[i].key) == matching(name))
  {
    if members != [] {
      LastMatchFinds(matching, members[..|members| - 1], name);
    }
  }

  /** Names that decoding takes for the same field fold to the same text. */
  ghost predicate Coarser(fold: string -> string, matching: string -> string) {
    forall x, y :: matching(x) == matching(y) ==> fold(x) == fold(y)
  }

  /** In two unambiguous objects with the same value, a field finds the same value. */
  lemma SameMatch(fold: string -> string, matching: string -> string, a: seq<Member>, b: seq<Member>, name: string)
    requires Coarser(fold, matching)
    requires !Sensitive(fold, Obj(a)) && !Sensitive(fold, Obj(b)) && MemberValues(a) == MemberValues(b)
    ensures var x, y := LastMatch(matching, a, name), LastMatch(matching, b, name);
            && (x.None? <==> y.None?)
            && (x.Some? && y.Some? ==>
                  ValueOf(x.value) == ValueOf(y.value) && !Sensitive(fold, x.value) && !Sensitive(fold, y.value))
  {
    LastMatchFinds(matching, a, name);
    LastMatchFinds(matching, b, name);
    if LastMatch(matching, a, name).Some? {
      var i :| 0 <= i < |a| && a[i].value == LastMatch(matching, a, name).value && matching(a[i].key) == matching(name);
      MemberValuesAt(a, i);
      MemberValuesKeys(b, a[i].key);
      var j :| 0 <= j < |b| && b[j].key == a[i].key;
      MemberValuesAt(b, j);
      OnlyMatch(fold, matching, b, j, name);
    } else if LastMatch(matching, b, name).Some? {
      var j :| 0 <= j < |b| && b[j].value == LastMatch(matching, b, name).value && matching(b[j].key) == matching(name);
      MemberValuesAt(b, j);
      MemberValuesKeys(a, b[j].key);
      assert false;
    }
  }

  /** In an object without repeated folded names a matching member is the one that is found. */
  lemma OnlyMatch(fold: string -> string, matching: string -> string, members: seq<Member>, i: nat, name: string)
    requires Coarser(fold, matching) && !Repeats(fold, members)
    requires i < |members| && matching(members[i].key) == matching(name)
    ensures LastMatch(matching, members, name) == Some(members[i].value)
  {
    LastMatchFinds(matching, members, name);
    var found := LastMatch(matching, members, name);
    var j :| 0 <= j < |members| && members[j].value == found.value && matching(members[j].key) == matching(name);
    assert fold(members[i].key) == fold(members[j].key);
  }

  lemma {:induction false} SameValueDecodesAlike(fold: string -> string, matching: string -> string, shape: Shape, a: Tree, b: Tree)
    requires Coarser(fold, matching)
    requires !Sensitive(fold, a) && !Sensitive(fold, b) && ValueOf(a) == ValueOf(b)
    ensures Decode(matching, shape, a) == Decode(matching, shape, b)
    decreases shape
  {
    match shape
    case ScalarShape =>
    case DocumentShape =>
    case ListShape(element) =>
      if a.Arr? {
        forall i | 0 <= i < |a.items|
          ensures |a.items| == |b.items| && Decode(matching, element, a.items[i]) == Decode(matching, element, b.items[i])
        {
          ItemValuesAt(a.items, i);
          ItemValuesAt(b.items, i);
          SameValueDecodesAlike(fold, matching, element, a.items[i], b.items[i]);
        }
      }
    case StructShape(fields) =>
      if a.Obj? {
        forall i | 0 <= i < |fields|
          ensures Decode(matching, shape, a).fields[i] == Decode(matching, shape, b).fields[i]
        {
          SameMatch(fold, matching, a.members, b.members, fields[i].name);
          var x, y := LastMatch(matching, a.members, fields[i].name), LastMatch(matching, b.members, fields[i].name);
          if x.Some? && y.Some? {
            SameValueDecodesAlike(fold, matching, fields[i].shape, x.value, y.value);
          }
        }
      }
  }

  /** The canonical form never merges different writes: bodies that share it decode to the same
      request, whatever the handler decodes into. */
  lemma SameCanonicalSameRequest(fold: string -> string, matching: string -> string, shape: Shape, a: Tree, b: Tree)
    requires Coarser(fold, matching) && Canonical(fold, a) == Canonical(fold, b)
    ensures Decode(matching, shape, a) == Decode(matching, shape, b)
  {
    CanonicalEqualIff(fold, a, b);
    if !Sensitive(fold, a) {
      SameValueIffReordered(fold, a, b);
      SameValueDecodesAlike(fold, matching, shape, a, b);
    }
  }
}
