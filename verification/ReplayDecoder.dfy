/** The recursive reader that turns a token stream into a value and notices, on the way, whether
    member order may matter. */
module ReplayDecoder {
  import opened Json
  import opened CanonicalJson

  class Decoder {
    const tokens: seq<Token>
    var pos: nat

    constructor (tokens: seq<Token>)
      ensures this.tokens == tokens && pos == 0
    {
      this.tokens, pos := tokens, 0;
    }

    /** What has not been read yet. */
    ghost function Left(): seq<Token>
      requires pos <= |tokens|
      reads this
    {
      tokens[pos..]
    }

    method Next() returns (token: Token)
      requires pos < |tokens|
      modifies this
      ensures pos <= |tokens| && [token] + Left() == old(Left())
    {
      token := tokens[pos];
      pos := pos + 1;
    }

    function More(): bool
      reads this
    {
      pos < |tokens| && !tokens[pos].Close?
    }
  }

  function SeenNames(fold: string -> string, members: seq<Member>): set<string> {
    set k | 0 <= k < |members| :: fold(members[k].key)
  }

  lemma RepeatsAppended(fold: string -> string, members: seq<Member>, m: Member)
    ensures Repeats(fold, members + [m]) <==> Repeats(fold, members) || fold(m.key) in SeenNames(fold, members)
  {
    var all := members + [m];
    if Repeats(fold, members) {
      var k, l :| 0 <= k < l < |members| && fold(members[k].key) == fold(members[l].key);
      assert all[k] == members[k] && all[l] == members[l];
    } else if fold(m.key) in SeenNames(fold, members) {
      var k :| 0 <= k < |members| && fold(members[k].key) == fold(m.key);
      assert all[k] == members[k] && all[|members|] == m;
    }
  }

  lemma SensitiveAppended(fold: string -> string, members: seq<Member>, m: Member)
    ensures Sensitive(fold, Obj(members + [m])) <==>
            Sensitive(fold, Obj(members)) || fold(m.key) in SeenNames(fold, members) || Sensitive(fold, m.value)
  {
    RepeatsAppended(fold, members, m);
    var all := members + [m];
    assert forall k :: 0 <= k < |members| ==> all[k] == members[k];
    assert all[|members|] == m;
  }

  lemma OneMoreMember(fold: string -> string, members: seq<Member>, i: nat)
    requires i < |members|
    ensures Sensitive(fold, Obj(members[..i + 1])) <==>
            Sensitive(fold, Obj(members[..i])) || fold(members[i].key) in SeenNames(fold, members[..i]) || Sensitive(fold, members[i].value)
    ensures MemberValues(members[..i + 1]) == MemberValues(members[..i])[members[i].key := ValueOf(members[i].value)]
    ensures SeenNames(fold, members[..i + 1]) == SeenNames(fold, members[..i]) + {fold(members[i].key)}
  {
    var before, after := members[..i], members[..i + 1];
    assert after == before + [members[i]] && after[..i] == before;
    SensitiveAppended(fold, before, members[i]);
    assert forall k :: 0 <= k < i ==> after[k] == before[k];
    assert after[i] == members[i];
  }

  /** What is left of an object's tokens, and what follows it, after `i` members. */
  ghost function MembersLeft(members: seq<Member>, i: nat, rest: seq<Token>): seq<Token>
    requires i <= |members|
  {
    MemberTokens(members[i..]) + [Close(true)] + rest
  }

  /** At any point inside an object the stream shows either the next member or the end. */
  lemma MembersAhead(members: seq<Member>, i: nat, rest: seq<Token>)
    requires i <= |members|
    ensures i == |members| ==> MembersLeft(members, i, rest) == [Close(true)] + rest
    ensures i < |members| ==>
              MembersLeft(members, i, rest) == [Atom(Str(members[i].key))] + (Tokens(members[i].value) + MembersLeft(members, i + 1, rest))
  {
    if i < |members| {
      assert members[i..][0] == members[i] && members[i..][1..] == members[i + 1..];
      assert MemberTokens(members[i..]) == [Atom(Str(members[i].key))] + Tokens(members[i].value) + MemberTokens(members[i + 1..]);
    }
  }

  lemma ItemsAhead(items: seq<Tree>, i: nat, rest: seq<Token>)
    requires i <= |items|
    ensures var stream := ItemTokens(items[i..]) + [Close(false)] + rest;
            if i == |items| then stream == [Close(false)] + rest
            else !stream[0].Close? && stream == Tokens(items[i]) + (ItemTokens(items[i + 1..]) + [Close(false)] + rest)
  {
    if i < |items| {
      TokensStart(items[i]);
      assert items[i..][0] == items[i] && items[i..][1..] == items[i + 1..];
      assert ItemTokens(items[i..]) == Tokens(items[i]) + ItemTokens(items[i + 1..]);
    }
  }

  /** Reads one value: consumes exactly its tokens, and returns the value and whether the document
      holds a repeated folded name anywhere. */
  method ReplayJsonValue(d: Decoder, fold: string -> string, ghost t: Tree, ghost rest: seq<Token>)
    returns (value: Value, sensitive: bool)
    requires d.pos <= |d.tokens| && d.Left() == Tokens(t) + rest
    modifies d
    ensures d.pos <= |d.tokens| && d.Left() == rest
    ensures value == ValueOf(t) && sensitive == Sensitive(fold, t)
    decreases t, 2
  {
    TokensStart(t);
    assert d.Left()[0] == Tokens(t)[0];
    var token := d.Next();
    assert token == Tokens(t)[0] && d.Left() == Tokens(t)[1..] + rest;
    match token
    case Atom(scalar) =>
      value, sensitive := Atomic(scalar), false;
    case Open(braces) =>
      if braces {
        assert Tokens(t)[1..] == MemberTokens(t.members) + [Close(true)];
        var entries;
        entries, sensitive := ReplayObject(d, fold, t.members, rest);
        value := Dict(entries);
      } else {
        assert Tokens(t)[1..] == ItemTokens(t.items) + [Close(false)];
        var items;
        items, sensitive := ReplayArray(d, fold, t.items, rest);
        value := List(items);
      }
  }

  method ReplayMember(d: Decoder, fold: string -> string, ghost m: Member, ghost rest: seq<Token>)
    returns (key: string, value: Value, sensitive: bool)
    requires d.pos <= |d.tokens| && d.Left() == [Atom(Str(m.key))] + (Tokens(m.value) + rest)
    modifies d
    ensures d.pos <= |d.tokens| && d.Left() == rest
    ensures key == m.key && value == ValueOf(m.value) && sensitive == Sensitive(fold, m.value)
    decreases m, 0
  {
    assert d.Left()[0] == Atom(Str(m.key));
    var name := d.Next();
    key := name.scalar.text;
    value, sensitive := ReplayJsonValue(d, fold, m.value, rest);
  }

  method ReplayObject(d: Decoder, fold: string -> string, ghost members: seq<Member>, ghost rest: seq<Token>)
    returns (entries: map<string, Value>, sensitive: bool)
    requires d.pos <= |d.tokens| && d.Left() == MemberTokens(members) + [Close(true)] + rest
    modifies d
    ensures d.pos <= |d.tokens| && d.Left() == rest
    ensures entries == MemberValues(members) && sensitive == Sensitive(fold, Obj(members))
    decreases members, 1
  {
    entries, sensitive := map[], false;
    var seen: set<string> := {};
    ghost var i := 0;
    assert members[..0] == [] && members[0..] == members;
    while d.More()
      invariant 0 <= i <= |members| && d.pos <= |d.tokens| && d.Left() == MembersLeft(members, i, rest)
      invariant entries == MemberValues(members[..i])
      invariant seen == SeenNames(fold, members[..i])
      invariant sensitive == Sensitive(fold, Obj(members[..i]))
      decreases |members| - i
    {
      MembersAhead(members, i, rest);
      assert d.Left()[0] == d.tokens[d.pos];
      OneMoreMember(fold, members, i);
      var key, value, inner := ReplayMember(d, fold, members[i], MembersLeft(members, i + 1, rest));
      var folded := fold(key);
      if folded in seen {
        sensitive := true;
      }
      seen := seen + {folded};
      sensitive := sensitive || inner;
      entries := entries[key := value];
      i := i + 1;
    }
    MembersAhead(members, i, rest);
    assert d.Left()[0] == d.tokens[d.pos];
    assert members[..i] == members;
    var _ := d.Next();
  }

  method ReplayArray(d: Decoder, fold: string -> string, ghost items: seq<Tree>, ghost rest: seq<Token>)
    returns (values: seq<Value>, sensitive: bool)
    requires d.pos <= |d.tokens| && d.Left() == ItemTokens(items) + [Close(false)] + rest
    modifies d
    ensures d.pos <= |d.tokens| && d.Left() == rest
    ensures values == ItemValues(items) && sensitive == Sensitive(fold, Arr(items))
    decreases items, 1
  {
    values, sensitive := [], false;
    ghost var i := 0;
    assert items[..0] == [] && items[0..] == items;
    while d.More()
      invariant 0 <= i <= |items| && d.pos <= |d.tokens|
      invariant d.Left() == ItemTokens(items[i..]) + [Close(false)] + rest
      invariant values == ItemValues(items[..i])
      invariant sensitive <==> exists k :: 0 <= k < i && Sensitive(fold, items[k])
      decreases |items| - i
    {
      assert d.Left()[0] == d.tokens[d.pos];
      ItemsAhead(items, i, rest);
      var value, inner := ReplayJsonValue(d, fold, items[i], ItemTokens(items[i + 1..]) + [Close(false)] + rest);
      sensitive := sensitive || inner;
      assert items[..i + 1][..i] == items[..i];
      values := values + [value];
      i := i + 1;
    }
    ItemsAhead(items, i, rest);
    assert d.Left()[0] == d.tokens[d.pos];
    assert items[..i] == items;
    var _ := d.Next();
  }

  /** What the hash sees of a valid JSON body is its canonical form. */
  method CanonicalBody(fold: string -> string, body: Tree) returns (canonical: seq<Token>)
    ensures canonical == Canonical(fold, body)
  {
    var decoder := new Decoder(Tokens(body));
    assert decoder.Left() == Tokens(body) + [];
    var value, orderSensitive := ReplayJsonValue(decoder, fold, body, []);
    if orderSensitive {
      canonical := Tokens(body);
    } else {
      canonical := Tokens(TreeOf(value));
    }
  }
}
