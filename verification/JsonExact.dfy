/** The parser accepts exactly the grammar within its limits. */
module JsonExact {
  import opened Bytes
  import opened BootFormat
  import opened JsonText
  import opened JsonGrammar

  // ---------------------------------------------------------------- what is parsed is spelled

  lemma ScalarSound(t: seq<byte>, b: nat, finite: seq<byte> -> bool)
    requires b < |t| && ParseScalar(t, b, finite).Some?
    ensures var v := ParseScalar(t, b, finite).value;
            && Begin(v) == b && Spelled(t, v) && Fits(t, v, 0, finite)
            && (v.Text? <==> t[b] == QUOTE)
  {
    hide Spelled, Fits, ParseScalar;
    if t[b] == QUOTE {
      TextSound(t, b, finite);
    } else if t[b] == TRUE[0] || t[b] == FALSE[0] || t[b] == NULL[0] {
      WordSound(t, b, finite);
    } else {
      NumeralSound(t, b, finite);
    }
  }

  lemma TextSound(t: seq<byte>, b: nat, finite: seq<byte> -> bool)
    requires b < |t| && ParseScalar(t, b, finite).Some? && t[b] == QUOTE
    ensures var v := ParseScalar(t, b, finite).value;
            v.Text? && Begin(v) == b && Spelled(t, v) && Fits(t, v, 0, finite)
  {
    hide Chars, Decoded;
    ScanSound(t, b + 1);
  }

  lemma WordSound(t: seq<byte>, b: nat, finite: seq<byte> -> bool)
    requires b < |t| && ParseScalar(t, b, finite).Some? && t[b] in {TRUE[0], FALSE[0], NULL[0]}
    ensures var v := ParseScalar(t, b, finite).value;
            v.Word? && Begin(v) == b && Spelled(t, v) && Fits(t, v, 0, finite)
  {
  }

  lemma NumeralSound(t: seq<byte>, b: nat, finite: seq<byte> -> bool)
    requires b < |t| && ParseScalar(t, b, finite).Some? && t[b] !in {QUOTE, TRUE[0], FALSE[0], NULL[0]}
    ensures var v := ParseScalar(t, b, finite).value;
            v.Number? && Begin(v) == b && Spelled(t, v) && Fits(t, v, 0, finite)
  {
    hide IsNumber, NumberEnd;
    NumberSound(t, b);
  }

  /** What does not nest fits at any depth. */
  lemma ScalarDepth(t: seq<byte>, v: Value, depth: nat, finite: seq<byte> -> bool)
    requires Fits(t, v, 0, finite) && depth <= MAX_DEPTH && !v.List? && !v.Dict?
    ensures Fits(t, v, depth, finite)
  {
  }

  lemma {:induction false} ValueSound(t: seq<byte>, p: nat, depth: nat, finite: seq<byte> -> bool)
    requires p <= |t| && ParseValue(t, p, depth, finite).Some?
    ensures var v := ParseValue(t, p, depth, finite).value;
            && AllSpace(t, p, Begin(v)) && Spelled(t, v) && Fits(t, v, depth, finite)
            && (v.Text? <==> At(t, SkipSpace(t, p)) == QUOTE)
    decreases |t| - p, 0
  {
    hide Spelled, Fits, SpelledItems, SpelledMembers, ItemsFit, MembersFit, KeyTexts, Distinct, ParseScalar,
      ParseItems, ParseMembers, AllSpace;
    var b := SkipSpace(t, p);
    var v := ParseValue(t, p, depth, finite).value;
    if t[b] == OPEN_LIST {
      var q := SkipSpace(t, b + 1);
      if At(t, q) != CLOSE_LIST {
        ItemsSound(t, q, depth + 1, finite);
      }
      ListSound(t, b, q, v.end - 1, v.items, depth, finite);
    } else if t[b] == OPEN_DICT {
      var q := SkipSpace(t, b + 1);
      if At(t, q) != CLOSE_DICT {
        NoneSeen();
        MembersSound(t, q, depth + 1, [], finite);
        assert Texts([]) + KeyTexts(t, v.members) == KeyTexts(t, v.members);
      }
      DictSound(t, b, q, v.end - 1, v.members, depth, finite);
    } else {
      ScalarSound(t, b, finite);
      ScalarPlain(t, b, finite);
      ScalarDepth(t, v, depth, finite);
    }
  }

  lemma NoneSeen()
    ensures Distinct<seq<byte>>([]) && Texts([]) == []
  {
  }

  lemma ScalarPlain(t: seq<byte>, b: nat, finite: seq<byte> -> bool)
    requires b < |t| && ParseScalar(t, b, finite).Some?
    ensures !ParseScalar(t, b, finite).value.List? && !ParseScalar(t, b, finite).value.Dict?
  {
  }

  lemma ListSound(t: seq<byte>, b: nat, q: nat, e: nat, items: Items, depth: nat, finite: seq<byte> -> bool)
    requires b < q <= e < |t| && t[b] == OPEN_LIST && t[e] == CLOSE_LIST && AllSpace(t, b + 1, q) && depth <= MAX_DEPTH
    requires if items.NoItem? then q == e else SpelledItems(t, q, e, items) && ItemsFit(t, items, depth + 1, finite)
    ensures Spelled(t, List(b, e + 1, items)) && Fits(t, List(b, e + 1, items), depth, finite)
  {
    hide SpelledItems, AllSpace;
    if items.Item? {
      SpelledEarlier(t, b + 1, q, e, items);
    }
  }

  lemma DictSound(t: seq<byte>, b: nat, q: nat, e: nat, members: Members, depth: nat, finite: seq<byte> -> bool)
    requires b < q <= e < |t| && t[b] == OPEN_DICT && t[e] == CLOSE_DICT && AllSpace(t, b + 1, q) && depth <= MAX_DEPTH
    requires if members.NoMember? then q == e
             else SpelledMembers(t, q, e, members) && MembersFit(t, members, depth + 1, finite)
                  && Distinct(KeyTexts(t, members))
    ensures Spelled(t, Dict(b, e + 1, members)) && Fits(t, Dict(b, e + 1, members), depth, finite)
  {
    hide SpelledMembers, AllSpace;
    if members.Member? {
      MembersEarlier(t, b + 1, q, e, members);
    }
  }

  /** White space may come first. */
  lemma SpelledEarlier(t: seq<byte>, p: nat, p': nat, q: nat, items: Items)
    requires items.Item? && AllSpace(t, p, p') && SpelledItems(t, p', q, items)
    ensures SpelledItems(t, p, q, items)
  {
    hide Spelled;
  }

  lemma MembersEarlier(t: seq<byte>, p: nat, p': nat, q: nat, members: Members)
    requires members.Member? && AllSpace(t, p, p') && SpelledMembers(t, p', q, members)
    ensures SpelledMembers(t, p, q, members)
  {
    hide Spelled;
  }

  lemma {:induction false} ItemsSound(t: seq<byte>, p: nat, depth: nat, finite: seq<byte> -> bool)
    requires p <= |t| && ParseItems(t, p, depth, finite).Some?
    ensures var (items, q) := ParseItems(t, p, depth, finite).value;
            t[q] == CLOSE_LIST && SpelledItems(t, p, q, items) && ItemsFit(t, items, depth, finite)
    decreases |t| - p, 1
  {
    hide Spelled, Fits, ParseValue, ParseItems, AllSpace, IsSpace, SpelledItems, ItemsFit, SkipSpace;
    var v, m := OpenItems(t, p, depth, finite);
    ValueSound(t, p, depth, finite);
    if t[m] == CLOSE_LIST {
      ItemSound(t, p, v, m, m, NoItem, depth, finite);
    } else {
      var p' := SkipSpace(t, m + 1);
      ItemsSound(t, p', depth, finite);
      var (items, q) := ParseItems(t, p', depth, finite).value;
      SpelledEarlier(t, m + 1, p', q, items);
      ItemSound(t, p, v, m, q, items, depth, finite);
    }
  }

  /** The first round of the loop over items. */
  lemma OpenItems(t: seq<byte>, p: nat, depth: nat, finite: seq<byte> -> bool) returns (v: Value, m: nat)
    requires p <= |t| && ParseItems(t, p, depth, finite).Some?
    ensures ParseValue(t, p, depth, finite) == Some(v)
    ensures p < Finish(v) <= |t| && m == SkipSpace(t, Finish(v)) && p < m < |t|
    ensures t[m] == CLOSE_LIST ==> ParseItems(t, p, depth, finite) == Some((Item(v, NoItem), m))
    ensures t[m] != CLOSE_LIST ==>
              && t[m] == COMMA && ParseItems(t, SkipSpace(t, m + 1), depth, finite).Some?
              && var r := ParseItems(t, SkipSpace(t, m + 1), depth, finite).value;
                 ParseItems(t, p, depth, finite) == Some((Item(v, r.0), r.1))
  {
    hide ParseValue, SkipSpace, AllSpace, IsSpace;
    v := ParseValue(t, p, depth, finite).value;
    m := SkipSpace(t, Finish(v));
  }

  lemma ItemSound(t: seq<byte>, p: nat, v: Value, m: nat, q: nat, items: Items, depth: nat, finite: seq<byte> -> bool)
    requires AllSpace(t, p, Begin(v)) && Spelled(t, v) && AllSpace(t, Finish(v), m) && Fits(t, v, depth, finite)
    requires if items.NoItem? then q == m
             else Separated(t, Finish(v), m, COMMA) && SpelledItems(t, m + 1, q, items)
                  && ItemsFit(t, items, depth, finite)
    ensures SpelledItems(t, p, q, Item(v, items)) && ItemsFit(t, Item(v, items), depth, finite)
  {
    hide Spelled, Fits, AllSpace;
  }

  function Texts(seen: seq<seq<byte>>): seq<Option<seq<byte>>>
  {
    seq(|seen|, i requires 0 <= i < |seen| => Some(seen[i]))
  }

  lemma {:induction false} MembersSound(t: seq<byte>, p: nat, depth: nat, seen: seq<seq<byte>>,
                          finite: seq<byte> -> bool)
    requires p <= |t| && ParseMembers(t, p, depth, seen, finite).Some? && Distinct(seen)
    ensures var (members, q) := ParseMembers(t, p, depth, seen, finite).value;
            && t[q] == CLOSE_DICT && SpelledMembers(t, p, q, members) && MembersFit(t, members, depth, finite)
            && Distinct(Texts(seen) + KeyTexts(t, members))
    decreases |t| - p, 1
  {
    hide Spelled, Fits, ParseValue, ParseMembers, Meaning, AllSpace, IsSpace, Distinct, Texts, SpelledMembers,
      MembersFit, KeyTexts, SkipSpace;
    var key, text, c, v, m := OpenMembers(t, p, depth, seen, finite);
    ValueSound(t, p, depth, finite);
    ValueSound(t, c + 1, depth, finite);
    SeenKey(seen, text);
    QuoteStays(t, p);
    if At(t, m) == CLOSE_DICT {
      MemberSound(t, p, key, c, v, m, m, NoMember, depth, finite);
      LastKey(t, seen, key, v);
    } else {
      var p' := SkipSpace(t, m + 1);
      MembersSound(t, p', depth, seen + [text], finite);
      var (members, q) := ParseMembers(t, p', depth, seen + [text], finite).value;
      MembersEarlier(t, m + 1, p', q, members);
      MemberSound(t, p, key, c, v, m, q, members, depth, finite);
      MoreKeys(t, seen, key, v, members);
    }
  }

  /** The first round of the loop over members. */
  lemma OpenMembers(t: seq<byte>, p: nat, depth: nat, seen: seq<seq<byte>>, finite: seq<byte> -> bool)
    returns (key: Value, text: seq<byte>, c: nat, v: Value, m: nat)
    requires p <= |t| && ParseMembers(t, p, depth, seen, finite).Some?
    ensures p < |t| && t[p] == QUOTE && ParseValue(t, p, depth, finite) == Some(key)
    ensures Meaning(t, key) == Some(text) && |text| <= KEY_MAX && text !in seen
    ensures Finish(key) <= |t| && c == SkipSpace(t, Finish(key)) && p < c < |t| && t[c] == COLON
    ensures ParseValue(t, c + 1, depth, finite) == Some(v)
    ensures c < Finish(v) <= |t| && m == SkipSpace(t, Finish(v)) && c < m < |t|
    ensures t[m] == CLOSE_DICT ==> ParseMembers(t, p, depth, seen, finite) == Some((Member(key, v, NoMember), m))
    ensures t[m] != CLOSE_DICT ==>
              && t[m] == COMMA && ParseMembers(t, SkipSpace(t, m + 1), depth, seen + [text], finite).Some?
              && var r := ParseMembers(t, SkipSpace(t, m + 1), depth, seen + [text], finite).value;
                 ParseMembers(t, p, depth, seen, finite) == Some((Member(key, v, r.0), r.1))
  {
    hide ParseValue, SkipSpace, Meaning, AllSpace, IsSpace;
    key := ParseValue(t, p, depth, finite).value;
    text := Meaning(t, key).value;
    c := SkipSpace(t, Finish(key));
    v := ParseValue(t, c + 1, depth, finite).value;
    m := SkipSpace(t, Finish(v));
  }

  lemma QuoteStays(t: seq<byte>, p: nat)
    requires p < |t| && t[p] == QUOTE
    ensures At(t, SkipSpace(t, p)) == QUOTE
  {
  }

  lemma LastKey(t: seq<byte>, seen: seq<seq<byte>>, key: Value, v: Value)
    requires Meaning(t, key).Some?
    ensures Texts(seen) + KeyTexts(t, Member(key, v, NoMember)) == Texts(seen + [Meaning(t, key).value])
  {
    hide Meaning;
    assert KeyTexts(t, Member(key, v, NoMember)) == [Meaning(t, key)];
  }

  lemma MoreKeys(t: seq<byte>, seen: seq<seq<byte>>, key: Value, v: Value, members: Members)
    requires Meaning(t, key).Some?
    ensures Texts(seen) + KeyTexts(t, Member(key, v, members))
              == Texts(seen + [Meaning(t, key).value]) + KeyTexts(t, members)
  {
    hide Meaning;
  }

  /** One more member in front. */
  lemma MemberSound(t: seq<byte>, p: nat, key: Value, c: nat, v: Value, m: nat, q: nat, members: Members, depth: nat,
                    finite: seq<byte> -> bool)
    requires AllSpace(t, p, Begin(key)) && key.Text? && Spelled(t, key) && Separated(t, Finish(key), c, COLON)
    requires AllSpace(t, c + 1, Begin(v)) && Spelled(t, v) && AllSpace(t, Finish(v), m)
    requires Fits(t, key, depth, finite) && Fits(t, v, depth, finite)
    requires Meaning(t, key).Some? && |Meaning(t, key).value| <= KEY_MAX
    requires if members.NoMember? then q == m
             else Separated(t, Finish(v), m, COMMA) && SpelledMembers(t, m + 1, q, members)
                  && MembersFit(t, members, depth, finite)
    ensures SpelledMembers(t, p, q, Member(key, v, members)) && MembersFit(t, Member(key, v, members), depth, finite)
  {
    hide Spelled, Fits, Meaning, AllSpace;
  }

  lemma SeenKey(seen: seq<seq<byte>>, text: seq<byte>)
    requires Distinct(seen) && text !in seen
    ensures Distinct(seen + [text]) && Distinct(Texts(seen + [text]))
  {
  }

  // ---------------------------------------------------------------- what is spelled is parsed

  /** How the text of a value starts. */
  lemma Starts(t: seq<byte>, v: Value)
    requires Spelled(t, v)
    ensures 0 <= Begin(v) < Finish(v) <= |t|
    ensures var c := t[Begin(v)];
            && !IsSpace(c) && c != CLOSE_LIST && c != CLOSE_DICT
            && (c == OPEN_LIST <==> v.List?) && (c == OPEN_DICT <==> v.Dict?) && (c == QUOTE <==> v.Text?)
            && (v.Word? <==> c == TRUE[0] || c == FALSE[0] || c == NULL[0])
  {
    hide SpelledItems, SpelledMembers, Chars;
    if v.Number? {
      NumberStarts(t, v.start, v.end);
    } else if v.Word? {
      assert t[v.start..v.end][0] == t[v.start];
    }
  }

  lemma NumberStarts(t: seq<byte>, p: nat, q: nat)
    requires IsNumber(t, p, q)
    ensures p < q && p < |t| && (IsDecimal(t[p]) || t[p] == '-' as int)
  {
  }

  /** A value that does not contain others is parsed at its first character. */
  lemma ScalarComplete(t: seq<byte>, v: Value, finite: seq<byte> -> bool)
    requires Spelled(t, v) && Fits(t, v, 0, finite) && !v.List? && !v.Dict?
    requires v.Number? ==> !Continues(At(t, v.end))
    ensures ParseScalar(t, Begin(v), finite) == Some(v)
  {
    hide IsNumber, NumberEnd, Chars, Decoded;
    Starts(t, v);
    match v
    case Text(start, end) => ScanComplete(t, start, end);
    case Number(start, end) => NumberComplete(t, start, end);
    case Word(start, end, kind) =>
      assert t[start..end][0] == kind;
  }

  /** What follows a value inside a list or an object does not continue a number. */
  lemma NotContinued(t: seq<byte>, p: nat, m: nat)
    requires AllSpace(t, p, m) && (m < |t| ==> t[m] == COMMA || t[m] == CLOSE_LIST || t[m] == CLOSE_DICT)
    ensures !Continues(At(t, p))
  {
  }

  lemma {:induction false} ValueComplete(t: seq<byte>, p: nat, v: Value, depth: nat, finite: seq<byte> -> bool)
    requires AllSpace(t, p, Begin(v)) && Spelled(t, v) && Fits(t, v, depth, finite)
    requires v.Number? ==> !Continues(At(t, v.end))
    ensures ParseValue(t, p, depth, finite) == Some(v)
    decreases v, 0
  {
    hide SpelledItems, SpelledMembers, ParseScalar, ParseValue, IsNumber, Chars, Decoded, ItemsFit, MembersFit,
      KeyTexts, Distinct, ParseItems, ParseMembers;
    Starts(t, v);
    SkipUnique(t, p, Begin(v));
    match v
    case List(start, end, items) =>
      if items.NoItem? {
        SkipUnique(t, start + 1, end - 1);
      } else {
        ItemsComplete(t, start + 1, end - 1, items, depth + 1, finite);
      }
      ListParsed(t, p, v, depth, finite);
    case Dict(start, end, members) =>
      if members.NoMember? {
        SkipUnique(t, start + 1, end - 1);
      } else {
        assert Texts([]) + KeyTexts(t, members) == KeyTexts(t, members);
        MembersComplete(t, start + 1, end - 1, members, depth + 1, [], finite);
      }
      DictParsed(t, p, v, depth, finite);
    case _ =>
      ScalarDepth(t, v, 0, finite);
      ScalarComplete(t, v, finite);
      ScalarParsed(t, p, v, depth, finite);
  }

  lemma ScalarParsed(t: seq<byte>, p: nat, v: Value, depth: nat, finite: seq<byte> -> bool)
    requires p <= |t| && depth <= MAX_DEPTH && 0 <= Begin(v) < |t| && SkipSpace(t, p) == Begin(v)
    requires t[Begin(v)] != OPEN_LIST && t[Begin(v)] != OPEN_DICT && ParseScalar(t, Begin(v), finite) == Some(v)
    ensures ParseValue(t, p, depth, finite) == Some(v)
  {
    hide ParseScalar, SkipSpace;
  }

  lemma ListParsed(t: seq<byte>, p: nat, v: Value, depth: nat, finite: seq<byte> -> bool)
    requires v.List? && p <= |t| && depth <= MAX_DEPTH && v.start + 1 < v.end <= |t|
    requires SkipSpace(t, p) == v.start && t[v.start] == OPEN_LIST && t[v.end - 1] == CLOSE_LIST
    requires v.items.NoItem? ==> SkipSpace(t, v.start + 1) == v.end - 1
    requires v.items.Item? ==>
               && At(t, SkipSpace(t, v.start + 1)) != CLOSE_LIST
               && ParseItems(t, SkipSpace(t, v.start + 1), depth + 1, finite) == Some((v.items, v.end - 1))
    ensures ParseValue(t, p, depth, finite) == Some(v)
  {
    hide ParseScalar, SkipSpace, ParseItems, ParseMembers;
  }

  lemma DictParsed(t: seq<byte>, p: nat, v: Value, depth: nat, finite: seq<byte> -> bool)
    requires v.Dict? && p <= |t| && depth <= MAX_DEPTH && v.start + 1 < v.end <= |t|
    requires SkipSpace(t, p) == v.start && t[v.start] == OPEN_DICT && t[v.end - 1] == CLOSE_DICT
    requires v.members.NoMember? ==> SkipSpace(t, v.start + 1) == v.end - 1
    requires v.members.Member? ==>
               && At(t, SkipSpace(t, v.start + 1)) != CLOSE_DICT
               && ParseMembers(t, SkipSpace(t, v.start + 1), depth + 1, [], finite) == Some((v.members, v.end - 1))
    ensures ParseValue(t, p, depth, finite) == Some(v)
  {
    hide ParseScalar, SkipSpace, ParseItems, ParseMembers;
  }

  /** A value followed by white space and the character at `m`, which ends it. */
  lemma {:induction false} EndedComplete(t: seq<byte>, p: nat, v: Value, m: nat, depth: nat, finite: seq<byte> -> bool)
    requires AllSpace(t, p, Begin(v)) && Spelled(t, v) && Fits(t, v, depth, finite)
    requires AllSpace(t, Finish(v), m) && m < |t| && (t[m] == COMMA || t[m] == CLOSE_LIST || t[m] == CLOSE_DICT)
    ensures 0 <= Begin(v) < |t| && SkipSpace(t, p) == Begin(v) && Finish(v) <= |t| && SkipSpace(t, Finish(v)) == m
    ensures ParseValue(t, p, depth, finite) == Some(v) && ParseValue(t, Begin(v), depth, finite) == Some(v)
    ensures t[Begin(v)] != CLOSE_LIST && t[Begin(v)] != CLOSE_DICT
    decreases v, 1
  {
    hide Spelled, Fits, ParseValue, Continues;
    Starts(t, v);
    SkipUnique(t, p, Begin(v));
    SkipUnique(t, Finish(v), m);
    NotContinued(t, Finish(v), m);
    ValueComplete(t, p, v, depth, finite);
    ValueComplete(t, Begin(v), v, depth, finite);
  }

  lemma {:induction false} ItemsComplete(t: seq<byte>, p: nat, q: nat, items: Items, depth: nat,
                          finite: seq<byte> -> bool)
    requires items.Item? && SpelledItems(t, p, q, items) && ItemsFit(t, items, depth, finite) && q < |t|
               && t[q] == CLOSE_LIST
    ensures p <= |t| && At(t, SkipSpace(t, p)) != CLOSE_LIST
              && ParseItems(t, SkipSpace(t, p), depth, finite) == Some((items, q))
    decreases items
  {
    hide Spelled, Fits, ParseValue, Continues, SkipSpace, IsSpace, AllSpace;
    var v := items.head;
    WithinText(t, p, Begin(v));
    if items.tail.NoItem? {
      EndedComplete(t, p, v, q, depth, finite);
    } else {
      var m: nat :| Separated(t, Finish(v), m, COMMA) && SpelledItems(t, m + 1, q, items.tail);
      EndedComplete(t, p, v, m, depth, finite);
      ItemsComplete(t, m + 1, q, items.tail, depth, finite);
    }
  }

  lemma WithinText(t: seq<byte>, p: nat, q: int)
    requires AllSpace(t, p, q)
    ensures p <= q <= |t|
  {
  }

  /** A key and its colon. */
  lemma {:induction false} KeyComplete(t: seq<byte>, p: nat, key: Value, c: nat, depth: nat, finite: seq<byte> -> bool)
    requires AllSpace(t, p, Begin(key)) && key.Text? && Spelled(t, key) && Fits(t, key, depth, finite)
    requires Separated(t, Finish(key), c, COLON)
    ensures 0 <= Begin(key) < |t| && SkipSpace(t, p) == Begin(key) && t[Begin(key)] == QUOTE
    ensures ParseValue(t, Begin(key), depth, finite) == Some(key)
    ensures Finish(key) <= |t| && SkipSpace(t, Finish(key)) == c && At(t, c) == COLON
    decreases key, 1
  {
    hide Spelled, Fits, ParseValue;
    Starts(t, key);
    SkipUnique(t, p, Begin(key));
    SkipUnique(t, Finish(key), c);
    ValueComplete(t, Begin(key), key, depth, finite);
  }

  /** A round of the loop over members, and the rounds that follow. */
  lemma CloseMembers(t: seq<byte>, p: nat, depth: nat, seen: seq<seq<byte>>, finite: seq<byte> -> bool, key: Value,
                     c: nat, v: Value, m: nat)
    requires p < |t| && t[p] == QUOTE && ParseValue(t, p, depth, finite) == Some(key)
    requires Meaning(t, key).Some? && |Meaning(t, key).value| <= KEY_MAX && Meaning(t, key).value !in seen
    requires Finish(key) <= |t| && c == SkipSpace(t, Finish(key)) && c < |t| && At(t, c) == COLON
    requires ParseValue(t, c + 1, depth, finite) == Some(v) && m == SkipSpace(t, Finish(v)) && m < |t|
    ensures t[m] == CLOSE_DICT ==> ParseMembers(t, p, depth, seen, finite) == Some((Member(key, v, NoMember), m))
    ensures t[m] == COMMA && ParseMembers(t, SkipSpace(t, m + 1), depth, seen + [Meaning(t, key).value],
              finite).Some? ==>
              var r := ParseMembers(t, SkipSpace(t, m + 1), depth, seen + [Meaning(t, key).value], finite).value;
              ParseMembers(t, p, depth, seen, finite) == Some((Member(key, v, r.0), r.1))
  {
    hide ParseValue, SkipSpace, Meaning, AllSpace, IsSpace;
  }

  lemma {:induction false} MembersComplete(t: seq<byte>, p: nat, q: nat, members: Members, depth: nat,
                          seen: seq<seq<byte>>, finite: seq<byte> -> bool)
    requires members.Member? && SpelledMembers(t, p, q, members) && MembersFit(t, members, depth, finite)
    requires q < |t| && t[q] == CLOSE_DICT && Distinct(Texts(seen) + KeyTexts(t, members))
    ensures p <= |t| && At(t, SkipSpace(t, p)) != CLOSE_DICT
    ensures ParseMembers(t, SkipSpace(t, p), depth, seen, finite) == Some((members, q))
    decreases members
  {
    hide Spelled, Fits, ParseValue, ParseMembers, Continues, Meaning, Distinct, Texts, KeyTexts, SkipSpace, IsSpace,
      AllSpace;
    var key, v := members.key, members.value;
    WithinText(t, p, Begin(key));
    UnseenKey(t, seen, members);
    var c: nat :| Separated(t, Finish(key), c, COLON) && AllSpace(t, c + 1, Begin(v));
    KeyComplete(t, p, key, c, depth, finite);
    if members.rest.NoMember? {
      EndedComplete(t, c + 1, v, q, depth, finite);
      CloseMembers(t, Begin(key), depth, seen, finite, key, c, v, q);
    } else {
      var m: nat :| Separated(t, Finish(v), m, COMMA) && SpelledMembers(t, m + 1, q, members.rest);
      EndedComplete(t, c + 1, v, m, depth, finite);
      MoreKeys(t, seen, key, v, members.rest);
      MembersComplete(t, m + 1, q, members.rest, depth, seen + [Meaning(t, key).value], finite);
      CloseMembers(t, Begin(key), depth, seen, finite, key, c, v, m);
    }
  }

  lemma UnseenKey(t: seq<byte>, seen: seq<seq<byte>>, members: Members)
    requires members.Member? && Meaning(t, members.key).Some? && Distinct(Texts(seen) + KeyTexts(t, members))
    ensures Meaning(t, members.key).value !in seen
  {
    hide Meaning;
    var s := Texts(seen) + KeyTexts(t, members);
    assert s[|seen|] == Meaning(t, members.key);
    forall i | 0 <= i < |seen| ensures seen[i] != Meaning(t, members.key).value {
      assert s[i] == Some(seen[i]);
    }
  }

  // ---------------------------------------------------------------- whole texts

  /** `rj_parse`, apart from the number of tokens. */
  function ParseDocument(t: seq<byte>, finite: seq<byte> -> bool): Option<Value>
  {
    if !Utf8(t) then None else
    var v := ParseValue(t, 0, 0, finite);
    if v.Some? && SkipSpace(t, Finish(v.value)) == |t| then v else None
  }

  /** A text is parsed as `v` if and only if it is a document that spells `v` within the limits. */
  lemma ParseExact(t: seq<byte>, v: Value, finite: seq<byte> -> bool)
    ensures ParseDocument(t, finite) == Some(v) <==> Document(t, v, finite)
  {
    hide Spelled, Fits, ParseValue, Utf8;
    if ParseDocument(t, finite) == Some(v) {
      ValueSound(t, 0, 0, finite);
    }
    if Document(t, v, finite) {
      Starts(t, v);
      NotContinued(t, Finish(v), |t|);
      ValueComplete(t, 0, v, 0, finite);
      SkipUnique(t, Finish(v), |t|);
    }
  }
}
