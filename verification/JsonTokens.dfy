/** The flat token array: a preorder tree whose `next` links end at the parent's. */
module JsonTokens {
  import opened Bytes
  import opened BootFormat
  import opened JsonText
  import opened JsonGrammar

  const TOKENS := 1024
  const KIND_TEXT: byte := 's' as int
  const KIND_NUMBER: byte := 'd' as int

  /** `RjToken` */
  datatype Token = Token(start: nat, end: nat, next: nat, count: nat, kind: byte)

  function Size(v: Value): (n: nat)
    ensures n >= 1
  {
    match v
    case List(_, _, items) => 1 + ItemsSize(items)
    case Dict(_, _, members) => 1 + MembersSize(members)
    case _ => 1
  }

  function ItemsSize(items: Items): nat
  {
    if items.NoItem? then 0 else Size(items.head) + ItemsSize(items.tail)
  }

  function MembersSize(members: Members): nat
  {
    if members.NoMember? then 0 else Size(members.key) + Size(members.value) + MembersSize(members.rest)
  }

  function ItemsCount(items: Items): nat
  {
    if items.NoItem? then 0 else 1 + ItemsCount(items.tail)
  }

  function MembersCount(members: Members): nat
  {
    if members.NoMember? then 0 else 1 + MembersCount(members.rest)
  }

  /** The tokens of a value whose first token has index `k`. */
  function Tokens(v: Value, k: nat): (s: seq<Token>)
    ensures |s| == Size(v)
    decreases v
  {
    match v
    case Word(start, end, kind) => [Token(start, end, k + 1, 0, kind)]
    case Number(start, end) => [Token(start, end, k + 1, 0, KIND_NUMBER)]
    case Text(start, end) => [Token(start, end, k + 1, 0, KIND_TEXT)]
    case List(start, end, items) =>
      [Token(start, end, k + Size(v), ItemsCount(items), OPEN_LIST)] + ItemTokens(items, k + 1)
    case Dict(start, end, members) =>
      [Token(start, end, k + Size(v), MembersCount(members), OPEN_DICT)] + MemberTokens(members, k + 1)
  }

  function ItemTokens(items: Items, k: nat): (s: seq<Token>)
    ensures |s| == ItemsSize(items)
    decreases items
  {
    if items.NoItem? then [] else Tokens(items.head, k) + ItemTokens(items.tail, k + Size(items.head))
  }

  function MemberTokens(members: Members, k: nat): (s: seq<Token>)
    ensures |s| == MembersSize(members)
    decreases members
  {
    if members.NoMember? then [] else
    Tokens(members.key, k) + Tokens(members.value, k + Size(members.key))
      + MemberTokens(members.rest, k + Size(members.key) + Size(members.value))
  }

  // ---------------------------------------------------------------- walks

  /** Following `next` from `x` for `n` steps. */
  function Walk(s: seq<Token>, x: nat, n: nat): nat
    decreases n
  {
    if n == 0 || x >= |s| then x else Walk(s, s[x].next, n - 1)
  }

  lemma FirstToken(v: Value, k: nat)
    ensures Tokens(v, k)[0].next == k + Size(v)
  {
  }

  /** The tokens of `part` stand in `s` from `k` on. */
  predicate Holds(s: seq<Token>, k: nat, part: seq<Token>)
  {
    k + |part| <= |s| && s[k..k + |part|] == part
  }

  lemma HoldsParts(s: seq<Token>, k: nat, a: seq<Token>, b: seq<Token>)
    requires Holds(s, k, a + b)
    ensures Holds(s, k, a) && Holds(s, k + |a|, b)
  {
    var u := s[k..k + |a + b|];
    assert s[k..k + |a|] == u[..|a|] && s[k + |a|..k + |a| + |b|] == u[|a|..];
  }

  lemma HoldsJoin(s: seq<Token>, k: nat, a: seq<Token>, b: seq<Token>)
    requires Holds(s, k, a) && Holds(s, k + |a|, b)
    ensures Holds(s, k, a + b)
  {
    assert s[k..k + |a + b|] == s[k..k + |a|] + s[k + |a|..k + |a| + |b|];
  }

  lemma HoldsKept(s: seq<Token>, s': seq<Token>, k: nat, a: seq<Token>)
    requires |s| == |s'| && Holds(s, k, a) && forall i :: k <= i < k + |a| ==> s'[i] == s[i]
    ensures Holds(s', k, a)
  {
    assert s'[k..k + |a|] == s[k..k + |a|];
  }

  /** Stepping from item to item, a walk visits each once and ends where the list's tokens end. */
  lemma {:induction false} ItemsWalk(s: seq<Token>, k: nat, items: Items)
    requires Holds(s, k, ItemTokens(items, k))
    ensures Walk(s, k, ItemsCount(items)) == k + ItemsSize(items)
    decreases items
  {
    if items.Item? {
      HoldsParts(s, k, Tokens(items.head, k), ItemTokens(items.tail, k + Size(items.head)));
      FirstToken(items.head, k);
      assert s[k] == s[k..k + Size(items.head)][0];
      ItemsWalk(s, k + Size(items.head), items.tail);
    }
  }

  /** The tokens of the first member, and of the others behind it. */
  lemma FirstMember(s: seq<Token>, k: nat, members: Members)
    requires members.Member? && Holds(s, k, MemberTokens(members, k))
    ensures var k' := k + Size(members.key);
            var k'' := k' + Size(members.value);
            && k'' <= |s| && Stands(s, k, members.key) && Stands(s, k', members.value)
                  && Holds(s, k'', MemberTokens(members.rest, k''))
            && s[k].next == k' && s[k'].next == k''
  {
    hide Tokens, Size;
    var key, v := members.key, members.value;
    var k', k'' := k + Size(key), k + Size(key) + Size(v);
    HoldsParts(s, k, Tokens(key, k) + Tokens(v, k'), MemberTokens(members.rest, k''));
    HoldsParts(s, k, Tokens(key, k), Tokens(v, k'));
    FirstToken(key, k);
    FirstToken(v, k');
    assert s[k] == s[k..k'][0] && s[k'] == s[k'..k''][0];
  }

  /** Stepping from key to value to key, a walk ends where the object's tokens end. */
  lemma {:induction false} MembersWalk(s: seq<Token>, k: nat, members: Members)
    requires Holds(s, k, MemberTokens(members, k))
    ensures Walk(s, k, 2 * MembersCount(members)) == k + MembersSize(members)
    decreases members
  {
    hide Tokens, Size, Holds;
    if members.Member? {
      FirstMember(s, k, members);
      var k'' := k + Size(members.key) + Size(members.value);
      MembersWalk(s, k'', members.rest);
      assert Walk(s, k, 2 * MembersCount(members)) == Walk(s, k'', 2 * MembersCount(members.rest));
    }
  }

  /** In the array of a value, the walk over the children of its root ends at the root's `next`. */
  lemma ChildrenEndAtNext(s: seq<Token>, v: Value, k: nat)
    requires Holds(s, k, Tokens(v, k)) && (v.List? || v.Dict?)
    ensures Walk(s, k + 1, if v.List? then ItemsCount(v.items) else 2 * MembersCount(v.members)) == s[k].next
    ensures s[k].count == if v.List? then ItemsCount(v.items) else MembersCount(v.members)
  {
    var root := [Tokens(v, k)[0]];
    var rest := if v.List? then ItemTokens(v.items, k + 1) else MemberTokens(v.members, k + 1);
    assert Tokens(v, k) == root + rest;
    HoldsParts(s, k, root, rest);
    assert s[k] == s[k..k + 1][0];
    if v.List? {
      ItemsWalk(s, k + 1, v.items);
    } else {
      MembersWalk(s, k + 1, v.members);
    }
  }

  // ---------------------------------------------------------------- every token is the root of a value

  /** Token `x` stands for `w`. */
  predicate Stands(s: seq<Token>, x: nat, w: Value)
  {
    Holds(s, x, Tokens(w, x))
  }

  /** Whichever token is looked at, it is the first of the tokens of some value within. */
  lemma {:induction false} EveryToken(s: seq<Token>, v: Value, k: nat, x: nat) returns (w: Value)
    requires Stands(s, k, v) && k <= x < k + Size(v)
    ensures Stands(s, x, w) && x + Size(w) <= k + Size(v)
    decreases v
  {
    if x == k {
      return v;
    }
    var root := [Tokens(v, k)[0]];
    match v
    case List(_, _, items) =>
      assert Tokens(v, k) == root + ItemTokens(items, k + 1);
      HoldsParts(s, k, root, ItemTokens(items, k + 1));
      w := EveryItemToken(s, items, k + 1, x);
    case Dict(_, _, members) =>
      assert Tokens(v, k) == root + MemberTokens(members, k + 1);
      HoldsParts(s, k, root, MemberTokens(members, k + 1));
      w := EveryMemberToken(s, members, k + 1, x);
    case _ =>
  }

  lemma {:induction false} EveryItemToken(s: seq<Token>, items: Items, k: nat, x: nat) returns (w: Value)
    requires Holds(s, k, ItemTokens(items, k)) && k <= x < k + ItemsSize(items)
    ensures Stands(s, x, w) && x + Size(w) <= k + ItemsSize(items)
    decreases items
  {
    HoldsParts(s, k, Tokens(items.head, k), ItemTokens(items.tail, k + Size(items.head)));
    if x < k + Size(items.head) {
      w := EveryToken(s, items.head, k, x);
    } else {
      w := EveryItemToken(s, items.tail, k + Size(items.head), x);
    }
  }

  lemma {:induction false} EveryMemberToken(s: seq<Token>, members: Members, k: nat, x: nat) returns (w: Value)
    requires Holds(s, k, MemberTokens(members, k)) && k <= x < k + MembersSize(members)
    ensures Stands(s, x, w) && x + Size(w) <= k + MembersSize(members)
    decreases members
  {
    hide Tokens, Holds;
    FirstMember(s, k, members);
    var key, v := members.key, members.value;
    var k', k'' := k + Size(key), k + Size(key) + Size(v);
    if x < k' {
      w := EveryToken(s, key, k, x);
    } else if x < k'' {
      w := EveryToken(s, v, k', x);
    } else {
      w := EveryMemberToken(s, members.rest, k'', x);
    }
  }

  // ---------------------------------------------------------------- lists built from the front

  function AppendItems(a: Items, b: Items): Items
  {
    if a.NoItem? then b else Item(a.head, AppendItems(a.tail, b))
  }

  lemma {:induction false} AppendItemsAssociative(a: Items, b: Items, c: Items)
    ensures AppendItems(AppendItems(a, b), c) == AppendItems(a, AppendItems(b, c))
  {
    if a.Item? {
      AppendItemsAssociative(a.tail, b, c);
    }
  }

  lemma Reassociate<T>(a: seq<T>, b: seq<T>, c: seq<T>)
    ensures a + (b + c) == (a + b) + c
  {
  }

  lemma {:induction false} AppendItemsTokens(a: Items, b: Items, k: nat)
    ensures ItemsSize(AppendItems(a, b)) == ItemsSize(a) + ItemsSize(b)
    ensures ItemsCount(AppendItems(a, b)) == ItemsCount(a) + ItemsCount(b)
    ensures ItemTokens(AppendItems(a, b), k) == ItemTokens(a, k) + ItemTokens(b, k + ItemsSize(a))
  {
    hide Tokens, Size;
    if a.Item? {
      var k' := k + Size(a.head);
      AppendItemsTokens(a.tail, b, k');
      Reassociate(Tokens(a.head, k), ItemTokens(a.tail, k'), ItemTokens(b, k' + ItemsSize(a.tail)));
    } else {
      assert [] + ItemTokens(b, k) == ItemTokens(b, k);
    }
  }

  function AppendMembers(a: Members, b: Members): Members
  {
    if a.NoMember? then b else Member(a.key, a.value, AppendMembers(a.rest, b))
  }

  lemma {:induction false} AppendMembersAssociative(a: Members, b: Members, c: Members)
    ensures AppendMembers(AppendMembers(a, b), c) == AppendMembers(a, AppendMembers(b, c))
  {
    if a.Member? {
      AppendMembersAssociative(a.rest, b, c);
    }
  }

  lemma {:induction false} AppendMembersTokens(a: Members, b: Members, k: nat)
    ensures MembersSize(AppendMembers(a, b)) == MembersSize(a) + MembersSize(b)
    ensures MembersCount(AppendMembers(a, b)) == MembersCount(a) + MembersCount(b)
    ensures MemberTokens(AppendMembers(a, b), k) == MemberTokens(a, k) + MemberTokens(b, k + MembersSize(a))
  {
    hide Tokens, Size;
    if a.Member? {
      var k' := k + Size(a.key) + Size(a.value);
      AppendMembersTokens(a.rest, b, k');
      Reassociate(Tokens(a.key, k) + Tokens(a.value, k + Size(a.key)), MemberTokens(a.rest, k'),
          MemberTokens(b, k' + MembersSize(a.rest)));
    } else {
      assert [] + MemberTokens(b, k) == MemberTokens(b, k);
    }
  }

  // ---------------------------------------------------------------- members by index

  function KeyAt(members: Members, i: nat): Value
    requires i < MembersCount(members)
  {
    if i == 0 then members.key else KeyAt(members.rest, i - 1)
  }

  /** The index of the key token of member `i`. */
  function KeyIndex(members: Members, i: nat, k: nat): nat
    requires i <= MembersCount(members)
  {
    if i == 0 then k else KeyIndex(members.rest, i - 1, k + Size(members.key) + Size(members.value))
  }

  /** The key token of a member, and the walk over its value to the next key. */
  lemma {:induction false} MemberLinks(s: seq<Token>, members: Members, i: nat, k: nat)
    requires Holds(s, k, MemberTokens(members, k)) && i < MembersCount(members)
    ensures var x := KeyIndex(members, i, k);
            && k <= x < k + MembersSize(members) && Stands(s, x, KeyAt(members, i))
            && s[x].next < |s| && s[s[x].next].next == KeyIndex(members, i + 1, k) && x < KeyIndex(members, i + 1, k)
    decreases i
  {
    hide Tokens, Size, Holds, MemberTokens;
    FirstMember(s, k, members);
    if i > 0 {
      MemberLinks(s, members.rest, i - 1, k + Size(members.key) + Size(members.value));
    } else {
      WithinMembers(s, k, members);
    }
  }

  lemma WithinMembers(s: seq<Token>, k: nat, members: Members)
    requires members.Member?
    ensures MembersSize(members) > 0
  {
  }

  lemma {:induction false} LastKeyIndex(members: Members, k: nat)
    ensures KeyIndex(members, MembersCount(members), k) == k + MembersSize(members)
  {
    if members.Member? {
      LastKeyIndex(members.rest, k + Size(members.key) + Size(members.value));
    }
  }

  lemma {:induction false} KeyAtAppend(a: Members, b: Members, i: nat)
    requires i < MembersCount(a) + MembersCount(b)
    ensures MembersCount(AppendMembers(a, b)) == MembersCount(a) + MembersCount(b)
    ensures KeyAt(AppendMembers(a, b), i) == if i < MembersCount(a) then KeyAt(a, i) else KeyAt(b, i - MembersCount(a))
  {
    AppendMembersTokens(a, b, 0);
    if a.Member? && i > 0 {
      KeyAtAppend(a.rest, b, i - 1);
    }
  }
}
