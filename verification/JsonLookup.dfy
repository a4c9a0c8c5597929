/** `rj_eq` and `rj_get` (rj_json.c): finding a member of a parsed object. */
module JsonLookup {
  import opened Bytes
  import opened BootFormat
  import opened JsonText
  import opened JsonGrammar
  import opened JsonExact
  import opened JsonTokens
  import opened JsonParser

  function ValueAt(members: Members, i: nat): JsonGrammar.Value
    requires i < MembersCount(members)
  {
    if i == 0 then members.value else ValueAt(members.rest, i - 1)
  }

  /** The token of a member's value is the one its key's token links to. */
  lemma {:induction false} ValueLinked(s: seq<Token>, members: Members, i: nat, k: nat)
    requires Holds(s, k, MemberTokens(members, k)) && i < MembersCount(members)
    ensures KeyIndex(members, i, k) < |s| && Stands(s, s[KeyIndex(members, i, k)].next, ValueAt(members, i))
    decreases i
  {
    hide Tokens, Size, Holds, MemberTokens;
    FirstMember(s, k, members);
    if i > 0 {
      ValueLinked(s, members.rest, i - 1, k + Size(members.key) + Size(members.value));
    }
  }

  /** The members of an object that is spelled out within the limits. */
  lemma {:induction false} MemberFits(t: seq<byte>, p: nat, q: nat, members: Members, depth: nat,
                          finite: seq<byte> -> bool, i: nat)
    requires members.Member? && SpelledMembers(t, p, q, members) && MembersFit(t, members, depth, finite)
               && i < MembersCount(members)
    ensures var key, v := KeyAt(members, i), ValueAt(members, i);
            && key.Text? && Spelled(t, key) && Meaning(t, key).Some? && |Meaning(t, key).value| <= KEY_MAX
            && Spelled(t, v) && Fits(t, v, depth, finite)
    decreases i
  {
    hide Spelled, Fits, Meaning;
    if i > 0 {
      var m: nat :| Separated(t, Finish(members.value), m, COMMA) && SpelledMembers(t, m + 1, q, members.rest);
      MemberFits(t, m + 1, q, members.rest, depth, finite, i - 1);
    }
  }

  /** The token `k` stands for `v`, a value of the document at nesting `depth`. */
  ghost predicate Known(j: Json, k: int, v: JsonGrammar.Value, depth: nat)
    reads j, j.t
  {
    && j.Valid() && 0 <= k < j.count && Stands(j.t[..j.count], k, v)
    && Spelled(j.text, v) && Fits(j.text, v, depth, j.finite)
  }

  /** Member `i` of the object `v` has the name. */
  ghost predicate Named(t: seq<byte>, v: JsonGrammar.Value, i: nat, name: seq<byte>)
  {
    v.Dict? && i < MembersCount(v.members) && Meaning(t, KeyAt(v.members, i)) == Some(name)
  }

  /** `rj_eq`: a string token with that meaning, in a buffer of 256 bytes. */
  method Equals(j: Json, k: int, name: seq<byte>) returns (same: bool)
    requires j.Valid() && j.InText(k)
    ensures same <==> j.IsText(k) && Decoded(j.text[j.t[k].start..j.t[k].end]) == Some(name) && |name| < 256
  {
    var s := j.StringOf(k, 256);
    same := s == Some(name);
  }

  /** After a parse, token 0 is known as the value of the whole document. */
  lemma RootKnown(j: Json, v: JsonGrammar.Value)
    requires j.Valid() && Document(j.text, v, j.finite) && j.count == Size(v) && Holds(j.t[..], 0, Tokens(v, 0))
    ensures Known(j, 0, v, 0)
  {
    assert j.t[..j.count] == j.t[..][0..j.count];
  }

  /** At most one member has a given name. */
  lemma NamedOnce(t: seq<byte>, v: JsonGrammar.Value, depth: nat, finite: seq<byte> -> bool, i: nat, i': nat,
                  name: seq<byte>)
    requires Fits(t, v, depth, finite) && Named(t, v, i, name) && Named(t, v, i', name)
    ensures i == i'
  {
    KeyTextAt(t, v.members, i);
    KeyTextAt(t, v.members, i');
  }

  lemma {:induction false} KeyTextAt(t: seq<byte>, members: Members, i: nat)
    requires i < MembersCount(members)
    ensures i < |KeyTexts(t, members)| && KeyTexts(t, members)[i] == Meaning(t, KeyAt(members, i))
  {
    hide Meaning;
    if i > 0 {
      KeyTextAt(t, members.rest, i - 1);
    }
  }

  lemma RootToken(t: seq<byte>, s: seq<Token>, k: nat, v: JsonGrammar.Value)
    requires Stands(s, k, v) && Spelled(t, v)
    ensures k < |s| && (s[k].kind == OPEN_DICT <==> v.Dict?)
  {
    assert s[k] == s[k..k + Size(v)][0];
  }

  /** The members' tokens stand behind the object's own. */
  lemma DictParts(s: seq<Token>, k: nat, v: JsonGrammar.Value)
    requires Stands(s, k, v) && v.Dict?
    ensures k < |s| && Holds(s, k + 1, MemberTokens(v.members, k + 1))
              && s[k].next == k + 1 + MembersSize(v.members) <= |s|
  {
    var rest := MemberTokens(v.members, k + 1);
    assert Tokens(v, k) == [Tokens(v, k)[0]] + rest;
    HoldsParts(s, k, [Tokens(v, k)[0]], rest);
    assert s[k] == s[k..k + 1][0];
  }

  /** The key and the value of member `i`, in the token array and in the text. */
  ghost predicate Located(t: seq<byte>, s: seq<Token>, v: JsonGrammar.Value, depth: nat, finite: seq<byte> -> bool,
                          i: nat, x: nat)
  {
    && v.Dict? && i < MembersCount(v.members) && x < |s| && s[x].kind == KIND_TEXT
    && s[x].start <= s[x].end <= |t| && Chars(t[s[x].start..s[x].end])
    && Decoded(t[s[x].start..s[x].end]) == Meaning(t, KeyAt(v.members, i)) && Meaning(t, KeyAt(v.members, i)).Some?
    && |Meaning(t, KeyAt(v.members, i)).value| <= KEY_MAX
    && x < s[x].next < |s| && Stands(s, s[x].next, ValueAt(v.members, i))
    && Spelled(t, ValueAt(v.members, i)) && Fits(t, ValueAt(v.members, i), depth + 1, finite)
  }

  lemma MemberAt(t: seq<byte>, s: seq<Token>, k: nat, v: JsonGrammar.Value, depth: nat, finite: seq<byte> -> bool,
                 i: nat)
    requires v.Dict? && Spelled(t, v) && Fits(t, v, depth, finite) && Holds(s, k + 1, MemberTokens(v.members, k + 1))
    requires i < MembersCount(v.members)
    ensures var x := KeyIndex(v.members, i, k + 1);
            && Located(t, s, v, depth, finite, i, x)
            && s[s[x].next].next == KeyIndex(v.members, i + 1, k + 1) && x < KeyIndex(v.members, i + 1, k + 1)
  {
    hide Chars, Decoded, Tokens, MemberTokens, Holds, Size, KeyAt, ValueAt, KeyIndex, SpelledMembers, Utf8;
    MemberLinks(s, v.members, i, k + 1);
    ValueLinked(s, v.members, i, k + 1);
    MemberFits(t, v.start + 1, v.end - 1, v.members, depth + 1, finite, i);
    TextToken(s, KeyAt(v.members, i), KeyIndex(v.members, i, k + 1));
  }

  /** `rj_get`: the token of the value named so, known like the object it was found in, or -1 when there is none. */
  method Get(j: Json, k: int, name: seq<byte>, ghost v: JsonGrammar.Value, ghost depth: nat)
    returns (x: int, ghost i: nat)
    requires j.Valid() && (k < 0 || Known(j, k, v, depth))
    ensures x == -1 <==> k < 0 || forall n: nat :: !Named(j.text, v, n, name)
    ensures x != -1 ==> Named(j.text, v, i, name) && Known(j, x, ValueAt(v.members, i), depth + 1)
  {
    hide Decoded, Chars, Size, Tokens, MemberTokens, MembersSize, Holds, KeyIndex, KeyAt, ValueAt, Meaning, Spelled,
      Fits;
    i := 0;
    if k < 0 {
      return -1, 0;
    }
    ghost var s := j.t[..j.count];
    RootToken(j.text, s, k, v);
    if j.t[k].kind != OPEN_DICT {
      return -1, 0;
    }
    DictParts(s, k, v);
    FirstKeyIndex(v.members, k + 1);
    LastKeyIndex(v.members, k + 1);
    x := k + 1;
    while x < j.t[k].next
      invariant i <= MembersCount(v.members) && x == KeyIndex(v.members, i, k + 1)
      invariant forall n: nat :: n < i ==> !Named(j.text, v, n, name)
      decreases j.t[k].next - x
    {
      MemberAt(j.text, s, k, v, depth, j.finite, i);
      var same := Equals(j, x, name);
      if same {
        assert Named(j.text, v, i, name);
        return j.t[x].next, i;
      }
      x := j.t[j.t[x].next].next;
      i := i + 1;
    }
    if i < MembersCount(v.members) {
      MemberLinks(s, v.members, i, k + 1);
    }
    x := -1;
  }

  /** `rj_parse`, then `rj_get` in the document: the member's value, or -1 when the text has no such member. */
  method Find(text: seq<byte>, finite: seq<byte> -> bool, name: seq<byte>) returns (j: Json, x: int, ghost i: nat)
    requires 0 !in text
    ensures fresh(j) && fresh(j.t) && j.text == text && j.finite == finite
    ensures var d := ParseDocument(text, finite);
            x == -1 <==> d.None? || Size(d.value) > TOKENS || forall n: nat :: !Named(text, d.value, n, name)
    ensures x != -1 ==>
              var v := ParseDocument(text, finite).value;
              Document(text, v, finite) && Named(text, v, i, name) && Known(j, x, ValueAt(v.members, i), 1)
  {
    hide Size, Tokens, Holds, Named, Known, ValueAt, ParseDocument, Document;
    j := new Json(text, finite);
    ghost var d := ParseDocument(text, finite);
    forall v ensures d == Some(v) <==> Document(text, v, finite) {
      ParseExact(text, v, finite);
    }
    var ok := j.Parse();
    if !ok {
      return j, -1, 0;
    }
    RootKnown(j, d.value);
    x, i := Get(j, 0, name, d.value, 0);
  }
}
