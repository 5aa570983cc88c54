/** JSON documents as trees and as the token stream that encoding/json delivers. */
module Json {

  datatype Scalar = Str(text: string) | Literal(text: string)

  datatype Tree =
    | Leaf(scalar: Scalar)
    | Arr(items: seq<Tree>)
    | Obj(members: seq<Member>)

  datatype Member = Member(key: string, value: Tree)

  /** A name in an object is delivered as a string, like a string value. */
  datatype Token = Open(braces: bool) | Close(braces: bool) | Atom(scalar: Scalar)

  function Tokens(t: Tree): seq<Token>
    decreases t, 1
  {
    match t
    case Leaf(scalar) => [Atom(scalar)]
    case Arr(items) => [Open(false)] + ItemTokens(items) + [Close(false)]
    case Obj(members) => [Open(true)] + MemberTokens(members) + [Close(true)]
  }

  function ItemTokens(items: seq<Tree>): seq<Token>
    decreases items, 0
  {
    if items == [] then [] else Tokens(items[0]) + ItemTokens(items[1..])
  }

  function MemberTokens(members: seq<Member>): seq<Token>
    decreases members, 0
  {
    if members == [] then []
    else [Atom(Str(members[0].key))] + Tokens(members[0].value) + MemberTokens(members[1..])
  }

  lemma TokensStart(t: Tree)
    ensures |Tokens(t)| > 0 && !Tokens(t)[0].Close?
  {
  }

  lemma ItemsStart(items: seq<Tree>, rest: seq<Token>)
    ensures (ItemTokens(items) + ([Close(false)] + rest))[0].Close? <==> items == []
  {
    if items != [] {
      TokensStart(items[0]);
    }
  }

  /** The token stream determines the document: what follows a document cannot be confused with it. */
  lemma {:induction false} TokensArePrefixFree(a: Tree, restA: seq<Token>, b: Tree, restB: seq<Token>)
    requires Tokens(a) + restA == Tokens(b) + restB
    ensures a == b && restA == restB
    decreases a, 1
  {
    assert (Tokens(a) + restA)[0] == (Tokens(b) + restB)[0];
    assert Tokens(a)[0] == Tokens(b)[0];
    match a
    case Leaf(scalar) =>
      assert (Tokens(a) + restA)[1..] == restA;
      assert (Tokens(b) + restB)[1..] == restB;
    case Arr(items) =>
      assert (Tokens(a) + restA)[1..] == ItemTokens(a.items) + ([Close(false)] + restA);
      assert (Tokens(b) + restB)[1..] == ItemTokens(b.items) + ([Close(false)] + restB);
      ItemTokensArePrefixFree(a.items, restA, b.items, restB);
    case Obj(members) =>
      assert (Tokens(a) + restA)[1..] == MemberTokens(a.members) + ([Close(true)] + restA);
      assert (Tokens(b) + restB)[1..] == MemberTokens(b.members) + ([Close(true)] + restB);
      MemberTokensArePrefixFree(a.members, restA, b.members, restB);
  }

  lemma {:induction false} ItemTokensArePrefixFree(a: seq<Tree>, restA: seq<Token>, b: seq<Tree>, restB: seq<Token>)
    requires ItemTokens(a) + ([Close(false)] + restA) == ItemTokens(b) + ([Close(false)] + restB)
    ensures a == b && restA == restB
    decreases a, 0
  {
    var left, right := ItemTokens(a) + ([Close(false)] + restA), ItemTokens(b) + ([Close(false)] + restB);
    assert left[0] == right[0];
    ItemsStart(a, restA);
    ItemsStart(b, restB);
    if a == [] {
      assert left[1..] == restA && right[1..] == restB;
    } else {
      var tailA, tailB := ItemTokens(a[1..]) + ([Close(false)] + restA), ItemTokens(b[1..]) + ([Close(false)] + restB);
      assert left == Tokens(a[0]) + tailA && right == Tokens(b[0]) + tailB;
      TokensArePrefixFree(a[0], tailA, b[0], tailB);
      ItemTokensArePrefixFree(a[1..], restA, b[1..], restB);
      assert a == [a[0]] + a[1..] && b == [b[0]] + b[1..];
    }
  }

  lemma {:induction false} MemberTokensArePrefixFree(a: seq<Member>, restA: seq<Token>, b: seq<Member>, restB: seq<Token>)
    requires MemberTokens(a) + ([Close(true)] + restA) == MemberTokens(b) + ([Close(true)] + restB)
    ensures a == b && restA == restB
    decreases a, 0
  {
    var left, right := MemberTokens(a) + ([Close(true)] + restA), MemberTokens(b) + ([Close(true)] + restB);
    assert left[0] == right[0];
    assert a == [] <==> b == [];
    if a == [] {
      assert left[1..] == restA && right[1..] == restB;
    } else {
      var tailA, tailB := MemberTokens(a[1..]) + ([Close(true)] + restA), MemberTokens(b[1..]) + ([Close(true)] + restB);
      assert left[1..] == Tokens(a[0].value) + tailA && right[1..] == Tokens(b[0].value) + tailB;
      TokensArePrefixFree(a[0].value, tailA, b[0].value, tailB);
      MemberTokensArePrefixFree(a[1..], restA, b[1..], restB);
      assert a == [a[0]] + a[1..] && b == [b[0]] + b[1..];
    }
  }

  lemma TokensAreInjective(a: Tree, b: Tree)
    requires Tokens(a) == Tokens(b)
    ensures a == b
  {
    assert Tokens(a) + [] == Tokens(b) + [];
    TokensArePrefixFree(a, [], b, []);
  }

  // ---------------------------------------------------------------- nesting depth

  function Max(a: int, b: int): int {
    if a > b then a else b
  }

  function Depth(t: Tree): nat
    decreases t, 1
  {
    match t
    case Leaf(_) => 0
    case Arr(items) => 1 + ItemDepth(items)
    case Obj(members) => 1 + MemberDepth(members)
  }

  function ItemDepth(items: seq<Tree>): nat
    decreases items, 0
  {
    if items == [] then 0 else Max(Depth(items[0]), ItemDepth(items[1..]))
  }

  function MemberDepth(members: seq<Member>): nat
    decreases members, 0
  {
    if members == [] then 0 else Max(Depth(members[0].value), MemberDepth(members[1..]))
  }

  function Change(token: Token): int {
    match token
    case Open(_) => 1
    case Close(_) => -1
    case Atom(_) => 0
  }

  /** Opening delimiters minus closing ones. */
  function Balance(tokens: seq<Token>): int {
    if tokens == [] then 0 else Change(tokens[0]) + Balance(tokens[1..])
  }

  /** The highest value of a running depth that starts at `depth`. */
  function Peak(tokens: seq<Token>, depth: int): int {
    if tokens == [] then depth else Max(depth, Peak(tokens[1..], depth + Change(tokens[0])))
  }

  lemma {:induction false} Concatenated(a: seq<Token>, b: seq<Token>, depth: int)
    ensures Balance(a + b) == Balance(a) + Balance(b)
    ensures Peak(a + b, depth) == Max(Peak(a, depth), Peak(b, depth + Balance(a)))
  {
    if a == [] {
      assert a + b == b;
      PeakAtLeast(b, depth);
    } else {
      assert (a + b)[1..] == a[1..] + b;
      Concatenated(a[1..], b, depth + Change(a[0]));
    }
  }

  lemma {:induction false} PeakAtLeast(tokens: seq<Token>, depth: int)
    ensures Peak(tokens, depth) >= depth
  {
  }

  /** Over a document the running depth returns to where it was and peaks at the nesting depth. */
  lemma {:induction false} DocumentPeaksAtDepth(t: Tree, depth: int)
    ensures Balance(Tokens(t)) == 0 && Peak(Tokens(t), depth) == depth + Depth(t)
    decreases t, 1
  {
    match t
    case Leaf(_) =>
      assert Tokens(t)[1..] == [];
    case Arr(items) =>
      ItemsPeakAtDepth(items, depth + 1);
      Enclosed(false, ItemTokens(items), depth);
    case Obj(members) =>
      MembersPeakAtDepth(members, depth + 1);
      Enclosed(true, MemberTokens(members), depth);
  }

  lemma Enclosed(braces: bool, inner: seq<Token>, depth: int)
    requires Balance(inner) == 0
    ensures Balance([Open(braces)] + inner + [Close(braces)]) == 0
    ensures Peak([Open(braces)] + inner + [Close(braces)], depth) == Peak(inner, depth + 1)
  {
    var tokens := [Open(braces)] + inner + [Close(braces)];
    assert tokens[1..] == inner + [Close(braces)];
    Concatenated(inner, [Close(braces)], depth + 1);
    PeakAtLeast(inner, depth + 1);
    assert [Close(braces)][1..] == [];
  }

  lemma {:induction false} ItemsPeakAtDepth(items: seq<Tree>, depth: int)
    ensures Balance(ItemTokens(items)) == 0 && Peak(ItemTokens(items), depth) == depth + ItemDepth(items)
    decreases items, 0
  {
    if items != [] {
      DocumentPeaksAtDepth(items[0], depth);
      ItemsPeakAtDepth(items[1..], depth);
      Concatenated(Tokens(items[0]), ItemTokens(items[1..]), depth);
    }
  }

  lemma {:induction false} MembersPeakAtDepth(members: seq<Member>, depth: int)
    ensures Balance(MemberTokens(members)) == 0 && Peak(MemberTokens(members), depth) == depth + MemberDepth(members)
    decreases members, 0
  {
    if members != [] {
      var name, value, rest := [Atom(Str(members[0].key))], Tokens(members[0].value), MemberTokens(members[1..]);
      DocumentPeaksAtDepth(members[0].value, depth);
      MembersPeakAtDepth(members[1..], depth);
      Concatenated(value, rest, depth);
      assert MemberTokens(members) == name + (value + rest);
      NameFirst(name[0], value + rest, depth);
    }
  }

  lemma NameFirst(name: Token, rest: seq<Token>, depth: int)
    requires name.Atom?
    ensures Balance([name] + rest) == Balance(rest) && Peak([name] + rest, depth) == Peak(rest, depth)
  {
    assert ([name] + rest)[1..] == rest;
    PeakAtLeast(rest, depth);
  }
}
